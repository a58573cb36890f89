/** The 88100 user-level machine as the unwinder of m88k-dep.c sees it: instruction words are
    classified by the effect flags of the opcode table (m88k-opcode.h), and those flags are given
    the meaning their comments promise, as a relation between machine states. */
module M88k {

  const WORD_SPAN: int := 0x1_0000_0000
  type Word = w: int | 0 <= w < 0x1_0000_0000
  type Reg = r: int | 0 <= r < 32
  type Imm16 = i: int | 0 <= i < 0x1_0000

  const R1: Reg := 1    // subroutine return pointer
  const FP: Reg := 30   // frame pointer
  const SP: Reg := 31   // stack pointer

  function Wrap(x: int): Word {
    x % WORD_SPAN
  }

  /** One constructor per combination of effect flags that the opcode table uses, plus the two
      kinds of subroutine call and the two `or` forms that load constants. */
  datatype Op =
    | Plain         // DONTCARE: branches, traps, byte and half-word stores, ...
    | Alters        // ALTERS
    | AltersDouble  // ALTERS | DBL
    | Saves         // SAVES: st
    | SavesDouble   // SAVES | DBL: st.d
    | Addu          // ALTERS | SHRINKS
    | Subu          // ALTERS | GROWS
    | Or            // ALTERS | MOVES: the three-register form
    | OrImm         // ALTERS: or rD,rS1,imm16
    | OrUpper       // ALTERS: or.u rD,rS1,imm16
    | Call          // bsr, jsr
    | CallDelayed   // bsr.n, jsr.n: the next instruction executes before the callee

  datatype Insn = Insn(op: Op, dest: Reg, s1: Reg, s2: Reg, imm: Imm16, regForm: bool)
  {
    predicate IsCall() { op.Call? || op.CallDelayed? }
    predicate Doubles() { op.AltersDouble? || op.SavesDouble? }
    predicate Stores() { op.Saves? || op.SavesDouble? }
    predicate Changes() {
      op.Alters? || op.AltersDouble? || op.Addu? || op.Subu? || op.Or? || op.OrImm? || op.OrUpper?
    }

    /** The registers whose contents this instruction may change. */
    predicate Writes(r: Reg) {
      Changes() && (r == dest || (Doubles() && r == (dest + 1) % 32))
    }

    /** The 16-bit immediate as the debugger reads it: the macro casts to short (m88k-dep.c). */
    function SignedImm(): int {
      if imm < 0x8000 then imm else imm - 0x1_0000
    }

    /** The grow and shrink masks match subu/addu r31,r31 with an immediate operand only. */
    predicate GrowsStackImm() { op.Subu? && !regForm && dest == SP && s1 == SP }
    predicate ShrinksStackImm() { op.Addu? && !regForm && dest == SP && s1 == SP }
    predicate AdjustsStackReg() { (op.Addu? || op.Subu?) && regForm && dest == SP && s1 == SP }
  }

  /** The registers a callee preserves. */
  predicate Preserved(r: Reg) {
    14 <= r <= 25
  }

  // ----- machine states and steps -----

  type Regs = r: seq<Word> | |r| == 32 witness seq(32, _ => 0)

  datatype State = State(regs: Regs, mem: int -> Word)

  ghost predicate Valid(s: State) {
    s.regs[0] == 0
  }

  function Operand(i: Insn, s: State): Word {
    if i.regForm then s.regs[i.s2] else i.imm
  }

  function EffectiveAddress(i: Insn, s: State): Word {
    Wrap(s.regs[i.s1] + Operand(i, s))
  }

  /** Every register that instruction `i` does not write is unchanged from `s` to `t`. */
  ghost predicate KeepsOthers(i: Insn, s: State, t: State) {
    forall r: Reg :: !i.Writes(r) ==> t.regs[r] == s.regs[r]
  }

  /** `a` holds `v` after a store, and every other word is unchanged outside [a, a + span). */
  ghost predicate StoredWords(i: Insn, s: State, t: State) {
    var a := EffectiveAddress(i, s);
    && t.mem(a) == s.regs[i.dest]
    && (i.op.SavesDouble? ==> t.mem(Wrap(a + 4)) == s.regs[(i.dest + 1) % 32])
  }

  /** The value that a result-defining instruction leaves in its destination, where the flags fix it. */
  ghost predicate DefinesResult(i: Insn, s: State, v: Word) {
    match i.op
    case Addu => v == Wrap(s.regs[i.s1] + Operand(i, s))
    case Subu => v == Wrap(s.regs[i.s1] - Operand(i, s))
    case Or => i.s1 == 0 ==> v == s.regs[i.s2]
    case OrImm =>
      && (i.s1 == 0 ==> v == i.imm)
      && (s.regs[i.s1] % 0x1_0000 == 0 ==> v == s.regs[i.s1] + i.imm)
    case OrUpper => i.s1 == 0 ==> v == i.imm * 0x1_0000
    case _ => true
  }

  /** Instruction `i`, not a call, takes `s` to `t`.  Memory not written by a SAVES instruction is
      left open, because several DONTCARE and ALTERS rows of the table also write memory. */
  ghost predicate Executes(i: Insn, s: State, t: State) {
    && !i.IsCall()
    && Valid(t)
    && KeepsOthers(i, s, t)
    && (i.Stores() ==> StoredWords(i, s, t))
    && (i.Changes() && i.dest != 0 ==> DefinesResult(i, s, t.regs[i.dest]))
  }

  /** The net effect of a completed subroutine. */
  ghost predicate CalleeRuns(s: State, t: State) {
    && Valid(t)
    && t.regs[SP] == s.regs[SP]
    && forall r: Reg :: Preserved(r) ==> t.regs[r] == s.regs[r]
  }

  /** The call instruction itself only sets the return pointer; its callee runs after the slot. */
  ghost predicate CallIssued(s: State, t: State) {
    && Valid(t)
    && t.mem == s.mem
    && forall r: Reg :: r != R1 ==> t.regs[r] == s.regs[r]
  }

  predicate InDelaySlot(code: seq<Insn>, i: nat) {
    0 < i < |code| && code[i - 1].op.CallDelayed?
  }

  ghost predicate StepAt(code: seq<Insn>, i: nat, s: State, t: State)
    requires i < |code|
  {
    if InDelaySlot(code, i) then
      exists mid :: Executes(code[i], s, mid) && CalleeRuns(mid, t)
    else match code[i].op
      case Call => CalleeRuns(s, t)
      case CallDelayed => CallIssued(s, t)
      case _ => Executes(code[i], s, t)
  }

  /** `tr` is a run of the straight-line code, one state before each instruction and one after. */
  ghost predicate Runs(code: seq<Insn>, tr: seq<State>) {
    && |tr| == |code| + 1
    && (forall i :: 0 <= i < |tr| ==> Valid(tr[i]))
    && (forall i :: 0 <= i < |code| ==> StepAt(code, i, tr[i], tr[i + 1]))
  }

  /** Calls do not sit in delay slots, and no delayed call is cut off from its slot. */
  predicate WellFormed(code: seq<Insn>) {
    && (forall i :: 0 <= i < |code| ==> InDelaySlot(code, i) ==> !code[i].IsCall())
    && (|code| > 0 ==> !code[|code| - 1].op.CallDelayed?)
  }

  lemma RunsPrefix(code: seq<Insn>, tr: seq<State>)
    requires |code| > 0 && Runs(code, tr)
    ensures Runs(code[..|code| - 1], tr[..|tr| - 1])
  {
    var c, t := code[..|code| - 1], tr[..|tr| - 1];
    forall i | 0 <= i < |c|
      ensures StepAt(c, i, t[i], t[i + 1])
    {
      assert StepAt(code, i, tr[i], tr[i + 1]);
      assert InDelaySlot(c, i) == InDelaySlot(code, i);
    }
  }
}
