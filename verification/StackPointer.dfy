/** synthesize_previous_sp of m88k-dep.c: running stack adjustments backwards. */
module StackPointer {
  import opened M88k

  // ----- what the loop computes -----

  /** The stack pointer before `i`, given the one after it, as the debugger reckons it. */
  function Undo(i: Insn, sp: Word): Word {
    if i.GrowsStackImm() then Wrap(sp + i.SignedImm())
    else if i.ShrinksStackImm() then Wrap(sp - i.SignedImm())
    else sp
  }

  function PreviousSp(code: seq<Insn>, sp: Word): Word {
    if code == [] then sp
    else PreviousSp(code[..|code| - 1], Undo(code[|code| - 1], sp))
  }

  lemma PreviousSpOfLast(code: seq<Insn>, last: Insn, sp: Word)
    ensures PreviousSp(code + [last], sp) == PreviousSp(code, Undo(last, sp))
  {
    assert (code + [last])[..|code|] == code;
  }

  /** The register forms consult find_reg_val with an unset bound, so their result is undefined. */
  predicate NoRegisterAdjust(code: seq<Insn>) {
    forall i :: 0 <= i < |code| ==> !code[i].AdjustsStackReg()
  }

  /** The backward loop: `code` is the function's text, indexed in words from its entry. */
  method SynthesizePreviousSp(code: seq<Insn>, currentSp: Word, previousPc: nat, currentPc: nat)
      returns (previousSp: Word)
    requires previousPc <= currentPc <= |code|
    requires NoRegisterAdjust(code)
    ensures previousSp == PreviousSp(code[previousPc..currentPc], currentSp)
  {
    previousSp := currentSp;
    var addr := currentPc - 1;
    assert code[previousPc..addr + 1] == code[previousPc..currentPc];
    while addr >= previousPc
      invariant previousPc - 1 <= addr < currentPc
      invariant PreviousSp(code[previousPc..addr + 1], previousSp)
             == PreviousSp(code[previousPc..currentPc], currentSp)
    {
      var inst := code[addr];
      var rest := code[previousPc..addr + 1];
      assert rest[..|rest| - 1] == code[previousPc..addr] && rest[|rest| - 1] == inst;
      if inst.GrowsStackImm() {
        previousSp := Wrap(previousSp + inst.SignedImm());
      } else if inst.ShrinksStackImm() {
        previousSp := Wrap(previousSp - inst.SignedImm());
      }
      addr := addr - 1;
    }
  }

  // ----- what the machine did -----

  /** Immediate adjustments are the only writers of r31. */
  predicate OnlyImmediateAdjusts(code: seq<Insn>) {
    forall i :: 0 <= i < |code| && code[i].Writes(SP) ==> code[i].GrowsStackImm() || code[i].ShrinksStackImm()
  }

  /** Grows less shrinks whose immediate has its top bit set: the processor zero-extends the
      immediate, the debugger sign-extends it. */
  function WideGrows(code: seq<Insn>): int {
    if code == [] then 0
    else WideGrows(code[..|code| - 1]) + Wide(code[|code| - 1])
  }

  function Wide(i: Insn): int {
    if i.imm < 0x8000 then 0
    else if i.GrowsStackImm() then 1
    else if i.ShrinksStackImm() then -1
    else 0
  }

  lemma WrapSum(x: int, y: int)
    ensures Wrap(Wrap(x) + y) == Wrap(x + y)
  {
    var q := x / WORD_SPAN;
    assert Wrap(x) + y == (x + y) + WORD_SPAN * -q;
    WrapMultiple(x + y, -q);
  }

  lemma WrapMultiple(x: int, m: int)
    ensures Wrap(x + WORD_SPAN * m) == Wrap(x)
  {
  }

  lemma UndoDistributes(i: Insn, sp: Word, d: int)
    ensures Undo(i, Wrap(sp + d)) == Wrap(Undo(i, sp) + d)
  {
    var k := if i.GrowsStackImm() then i.SignedImm() else if i.ShrinksStackImm() then -i.SignedImm() else 0;
    WrapSum(sp + d, k);
    WrapSum(sp + k, d);
  }

  lemma UndoOneStep(i: Insn, s: State, t: State)
    requires Executes(i, s, t)
    requires i.Writes(SP) ==> i.GrowsStackImm() || i.ShrinksStackImm()
    ensures Undo(i, t.regs[SP]) == Wrap(s.regs[SP] - 0x1_0000 * Wide(i))
  {
    if i.GrowsStackImm() {
      WrapSum(s.regs[SP] - i.imm, i.SignedImm());
    } else if i.ShrinksStackImm() {
      WrapSum(s.regs[SP] + i.imm, -i.SignedImm());
    } else {
      assert t.regs[SP] == s.regs[SP];
    }
  }

  lemma UndoStep(code: seq<Insn>, tr: seq<State>, i: nat)
    requires i < |code| && Runs(code, tr) && OnlyImmediateAdjusts(code)
    ensures Undo(code[i], tr[i + 1].regs[SP]) == Wrap(tr[i].regs[SP] - 0x1_0000 * Wide(code[i]))
  {
    assert StepAt(code, i, tr[i], tr[i + 1]);
    if InDelaySlot(code, i) {
      var mid :| Executes(code[i], tr[i], mid) && CalleeRuns(mid, tr[i + 1]);
      UndoOneStep(code[i], tr[i], mid);
    } else if !code[i].IsCall() {
      UndoOneStep(code[i], tr[i], tr[i + 1]);
    }
  }

  lemma PrefixAdjusts(code: seq<Insn>, n: nat)
    requires n <= |code| && OnlyImmediateAdjusts(code)
    ensures OnlyImmediateAdjusts(code[..n])
  {
  }

  lemma WrapWord(w: Word)
    ensures Wrap(w) == w
  {
  }

  /** Run backwards over any executed straight-line code, the loop recovers the stack pointer that
      held before it, off by 64K for every unmatched adjustment by 0x8000 or more. */
  lemma {:induction false} PreviousSpOffset(code: seq<Insn>, tr: seq<State>, d: int)
    requires Runs(code, tr) && OnlyImmediateAdjusts(code)
    ensures PreviousSp(code, Wrap(tr[|code|].regs[SP] + d)) == Wrap(tr[0].regs[SP] + d - 0x1_0000 * WideGrows(code))
    decreases |code|
  {
    if code != [] {
      var n := |code| - 1;
      var c, t := code[..n], tr[..|tr| - 1];
      RunsPrefix(code, tr);
      PrefixAdjusts(code, n);
      var e := d - 0x1_0000 * Wide(code[n]);
      assert Undo(code[n], Wrap(tr[n + 1].regs[SP] + d)) == Wrap(tr[n].regs[SP] + e) by {
        UndoStep(code, tr, n);
        UndoDistributes(code[n], tr[n + 1].regs[SP], d);
        WrapSum(tr[n].regs[SP] - 0x1_0000 * Wide(code[n]), d);
      }
      PreviousSpOffset(c, t, e);
      assert t[|c|] == tr[n];
    }
  }

  /** synthesize_previous_sp inverts execution exactly when wide grows and wide shrinks cancel. */
  lemma PreviousSpInvertsExecution(code: seq<Insn>, tr: seq<State>)
    requires Runs(code, tr) && OnlyImmediateAdjusts(code)
    ensures PreviousSp(code, tr[|code|].regs[SP]) == tr[0].regs[SP] <==> WideGrows(code) % 0x1_0000 == 0
  {
    PreviousSpOffset(code, tr, 0);
    WrapWord(tr[|code|].regs[SP]);
    WrapShift(tr[0].regs[SP], WideGrows(code));
  }

  lemma WrapShift(sp: Word, k: int)
    ensures Wrap(sp - 0x1_0000 * k) == sp <==> k % 0x1_0000 == 0
  {
    var x := sp - 0x1_0000 * k;
    assert x == WORD_SPAN * (x / WORD_SPAN) + Wrap(x);
    if k % 0x1_0000 == 0 {
      var m := k / 0x1_0000;
      assert x == sp - WORD_SPAN * m;
      assert x / WORD_SPAN == -m && Wrap(x) == sp by { DivideShift(sp, -m); }
    }
    if Wrap(x) == sp {
      assert 0x1_0000 * k == WORD_SPAN * -(x / WORD_SPAN);
      assert k == 0x1_0000 * -(x / WORD_SPAN);
    }
  }

  lemma DivideShift(sp: Word, m: int)
    ensures (sp + WORD_SPAN * m) / WORD_SPAN == m && (sp + WORD_SPAN * m) % WORD_SPAN == sp
  {
  }

  /** One frame of 32K or more defeats it: subu r31,r31,0x8000 is undone as a shrink. */
  lemma WideFrameDefeatsIt()
    ensures exists code: seq<Insn>, tr: seq<State> :: Runs(code, tr) && OnlyImmediateAdjusts(code)
                && PreviousSp(code, tr[|code|].regs[SP]) != tr[0].regs[SP]
  {
    var grow := Insn(Subu, SP, SP, 0, 0x8000, false);
    var r: Regs := seq(32, i => if i == 31 then 0x10_0000 else 0);
    var s := State(r, a => 0);
    var t := State(r[SP := 0xF_8000], a => 0);
    var code, tr := [grow], [s, t];
    assert Executes(grow, s, t);
    assert StepAt(code, 0, tr[0], tr[1]);
    assert Runs(code, tr);
    assert WideGrows(code) == 1 by { assert code[..0] == []; }
    PreviousSpInvertsExecution(code, tr);
  }
}
