/** m88k_frame_find_single_saved_reg of m88k-dep.c: where a register's entry value went within one
    function, and find_reg_val, which recovers constants loaded into a register. */
module SavedRegister {
  import opened M88k
  import opened StackPointer
  import opened Wrappers

  // ----- find_reg_val -----

  predicate LoadsLow(i: Insn, reg: Reg) { i.op.OrImm? && i.dest == reg && i.s1 == reg }
  predicate LoadsWhole(i: Insn, reg: Reg) { i.op.OrImm? && i.dest == reg && i.s1 == 0 }
  predicate LoadsHigh(i: Insn, reg: Reg) { i.op.OrUpper? && i.dest == reg && i.s1 == 0 }

  function HighHalf(code: seq<Insn>, reg: Reg): (v: Word)
    ensures v % 0x1_0000 == 0
  {
    if code == [] then 0
    else
      var last := code[|code| - 1];
      if LoadsHigh(last, reg) then last.imm * 0x1_0000 else HighHalf(code[..|code| - 1], reg)
  }

  /** The constant last loaded into `reg` by `code`, with 0 for "I don't know". */
  function RegVal(code: seq<Insn>, reg: Reg): Word {
    if code == [] then 0
    else
      var last, before := code[|code| - 1], code[..|code| - 1];
      if LoadsLow(last, reg) then Wrap(HighHalf(before, reg) + last.imm)
      else if LoadsWhole(last, reg) then last.imm
      else RegVal(before, reg)
  }

  method FindRegVal(code: seq<Insn>, reg: Reg) returns (value: Word)
    ensures value == RegVal(code, reg)
  {
    value := 0;
    var low := 0;
    var start := |code|;
    assert code[..start] == code;
    while start > 0
      invariant 0 <= start <= |code|
      invariant RegVal(code, reg) == RegVal(code[..start], reg)
    {
      var inst := code[start - 1];
      assert code[..start][..start - 1] == code[..start - 1];
      start := start - 1;
      if LoadsLow(inst, reg) {
        low := inst.imm;
        ghost var lastLow := start;
        while start > 0
          invariant 0 <= start <= lastLow
          invariant HighHalf(code[..lastLow], reg) == HighHalf(code[..start], reg)
        {
          assert code[..start][..start - 1] == code[..start - 1];
          if LoadsHigh(code[start - 1], reg) {
            return Wrap(code[start - 1].imm * 0x1_0000 + low);
          }
          start := start - 1;
        }
        return low;
      }
      if LoadsWhole(inst, reg) {
        return inst.imm;
      }
    }
  }

  /** Instruction `i` runs by itself: no callee's effects are folded into its step. */
  predicate Quiet(code: seq<Insn>, i: nat) {
    i < |code| && !code[i].IsCall() && !InDelaySlot(code, i)
  }

  predicate LoadsHighLast(code: seq<Insn>, reg: Reg) {
    code != [] && Quiet(code, |code| - 1) &&
    var last, before := code[|code| - 1], code[..|code| - 1];
    LoadsHigh(last, reg) || (!last.Writes(reg) && LoadsHighLast(before, reg))
  }

  /** The compiler's two ways of loading a constant, with nothing touching `reg` in between. */
  predicate LoadsConstant(code: seq<Insn>, reg: Reg) {
    code != [] && Quiet(code, |code| - 1) &&
    var last, before := code[|code| - 1], code[..|code| - 1];
    || LoadsWhole(last, reg)
    || (LoadsLow(last, reg) && LoadsHighLast(before, reg))
    || (!last.Writes(reg) && LoadsConstant(before, reg))
  }

  lemma {:induction false} HighHalfIsLoaded(code: seq<Insn>, tr: seq<State>, reg: Reg)
    requires Runs(code, tr) && reg != 0 && LoadsHighLast(code, reg)
    ensures tr[|code|].regs[reg] == HighHalf(code, reg)
    decreases |code|
  {
    var n := |code| - 1;
    assert StepAt(code, n, tr[n], tr[n + 1]);
    if !LoadsHigh(code[n], reg) {
      RunsPrefix(code, tr);
      HighHalfIsLoaded(code[..n], tr[..n + 1], reg);
    }
  }

  /** find_reg_val returns what the register really holds, for constants loaded either way. */
  lemma {:induction false} RegValIsLoaded(code: seq<Insn>, tr: seq<State>, reg: Reg)
    requires Runs(code, tr) && reg != 0 && LoadsConstant(code, reg)
    ensures tr[|code|].regs[reg] == RegVal(code, reg)
    decreases |code|
  {
    var n := |code| - 1;
    assert StepAt(code, n, tr[n], tr[n + 1]);
    if LoadsLow(code[n], reg) {
      if LoadsHighLast(code[..n], reg) {
        RunsPrefix(code, tr);
        HighHalfIsLoaded(code[..n], tr[..n + 1], reg);
      }
    } else if !LoadsWhole(code[n], reg) {
      RunsPrefix(code, tr);
      RegValIsLoaded(code[..n], tr[..n + 1], reg);
    }
  }

  // ----- the tracker -----

  datatype Where =
    | InReg(r: nat)     // still in this register
    | AtAddr(a: Word)   // saved in memory at this address
    | Value(v: Word)    // the value itself: only for the stack pointer
    | Invalid           // altered and not saved
    | Failed            // given up with an error message

  /** The location found, and the index of the instruction that decided it. */
  datatype Answer = Answer(where: Where, site: nat)

  datatype Next = Continue(cur: Reg, sp: Word) | Done(where: Where)

  predicate Moves(i: Insn, cur: Reg) {
    i.op.Or? && i.s1 == 0 && i.s2 == cur
  }

  predicate Touches(i: Insn, cur: Reg) {
    i.dest == cur || (i.Doubles() && (i.dest + 1) % 32 == cur)
  }

  function SlotOffset(code: seq<Insn>, i: nat, cur: Reg): int
    requires i < |code|
  {
    (if code[i].regForm then RegVal(code[..i], code[i].s2) else code[i].SignedImm())
    + (if code[i].dest != cur && code[i].dest + 1 == cur then 4 else 0)
  }

  function SaveSlot(code: seq<Insn>, i: nat, cur: Reg, base: Word): Where
    requires i < |code|
  {
    if code[i].regForm && i == 0 then Failed else AtAddr(Wrap(base + SlotOffset(code, i, cur)))
  }

  /** A register operand's value is taken to be the constant last loaded into it. */
  function AdjustedByReg(i: Insn, amount: Word, sp: Word): Word {
    if i.op.Subu? then Wrap(sp - amount) else Wrap(sp + amount)
  }

  /** One instruction: the value tracked is in `cur`, the stack pointer is taken to be `sp`. */
  function TrackStep(code: seq<Insn>, i: nat, cur: Reg, sp: Word, fp: Word): Next
    requires i < |code|
  {
    var inst := code[i];
    if i >= 5000 then Done(Failed)
    else if inst.IsCall() then (if Preserved(cur) then Continue(cur, sp) else Done(Invalid))
    else if inst.GrowsStackImm() then Continue(cur, Wrap(sp - inst.SignedImm()))
    else if inst.ShrinksStackImm() then Continue(cur, Wrap(sp + inst.SignedImm()))
    else if inst.AdjustsStackReg() then
      if i == 0 then Done(Failed)
      else if cur == SP then Done(Invalid)
      else Continue(cur, AdjustedByReg(inst, RegVal(code[..i], inst.s2), sp))
    else if Moves(inst, cur) then (if Preserved(inst.dest) then Done(InReg(inst.dest)) else Continue(inst.dest, sp))
    else if !Touches(inst, cur) then Continue(cur, sp)
    else if inst.Stores() && inst.s1 == SP then Done(SaveSlot(code, i, cur, sp))
    else if inst.Stores() && inst.s1 == FP then Done(SaveSlot(code, i, cur, fp))
    else if inst.Changes() then Done(Invalid)
    else Continue(cur, sp)
  }

  function Track(code: seq<Insn>, i: nat, cur: Reg, sp: Word, fp: Word): Answer
    requires i <= |code|
    decreases |code| - i
  {
    if i == |code| then Answer(InReg(cur), i)
    else match TrackStep(code, i, cur, sp, fp)
      case Done(w) => Answer(w, i)
      case Continue(c, s) => Track(code, i + 1, c, s, fp)
  }

  // ----- soundness -----

  /** The move is one the tracker must not follow: into r0, or, from the delay slot of a call whose
      callee will trash it, into a register that callees do not preserve. */
  predicate LosesValue(code: seq<Insn>, i: nat) {
    var d := if i < |code| then code[i].dest else SP;
    d == 0 || (InDelaySlot(code, i) && !Preserved(d) && d != SP)
  }

  predicate CleanPath(code: seq<Insn>, i: nat, cur: Reg, sp: Word, fp: Word)
    requires i <= |code|
    decreases |code| - i
  {
    i < |code| ==>
      match TrackStep(code, i, cur, sp, fp)
      case Done(w) => true
      case Continue(c, s) =>
        && (Moves(code[i], cur) && !code[i].IsCall() ==> !LosesValue(code, i))
        && CleanPath(code, i + 1, c, s, fp)
  }

  /** Operands below 0x8000 mean the same to the debugger and the processor; register operands of
      saves are constants that find_reg_val recovers; r30 is the frame pointer where it is used. */
  ghost predicate OperandsUnderstood(code: seq<Insn>, tr: seq<State>, fp: Word)
    requires Runs(code, tr)
  {
    forall i :: 0 <= i < |code| ==>
      && (code[i].GrowsStackImm() || code[i].ShrinksStackImm() ==> code[i].imm < 0x8000)
      && (code[i].Stores() && (code[i].s1 == SP || code[i].s1 == FP) ==>
            if code[i].regForm then tr[i].regs[code[i].s2] == RegVal(code[..i], code[i].s2)
            else code[i].imm < 0x8000)
      && (code[i].Stores() && code[i].s1 == FP ==> tr[i].regs[FP] == fp)
  }

  /** `a` holds the same word in `t` as it did when the store at `i` had just executed. */
  ghost predicate StoreKept(code: seq<Insn>, tr: seq<State>, i: nat, a: Word, t: State)
    requires Runs(code, tr) && i < |code|
  {
    if InDelaySlot(code, i) then
      exists mid :: Executes(code[i], tr[i], mid) && CalleeRuns(mid, tr[i + 1]) && t.mem(a) == mem(mid, a)
    else t.mem(a) == tr[i + 1].mem(a)
  }

  ghost function mem(s: State, a: Word): Word { s.mem(a) }

  /** The copy or slot the answer names is not overwritten after the instruction that made it. */
  ghost predicate Kept(code: seq<Insn>, tr: seq<State>, ans: Answer)
    requires Runs(code, tr)
  {
    ans.site < |code| ==>
      match ans.where
      case InReg(r) => r < 32 && tr[|code|].regs[r] == tr[ans.site + 1].regs[r]
      case AtAddr(a) => StoreKept(code, tr, ans.site, a, tr[|code|])
      case _ => true
  }

  /** The location really holds `v` in state `s`.  Invalid and Failed claim nothing. */
  ghost predicate Holds(w: Where, s: State, v: Word) {
    match w
    case InReg(r) => r < 32 && s.regs[r] == v
    case AtAddr(a) => s.mem(a) == v
    case Value(x) => x == v
    case _ => true
  }

  lemma PlainStepKeeps(code: seq<Insn>, i: nat, cur: Reg, sp: Word, fp: Word, s: State, t: State)
    requires i < |code| && Valid(s) && Executes(code[i], s, t)
    requires OnlyImmediateAdjusts(code)
    requires code[i].GrowsStackImm() || code[i].ShrinksStackImm() ==> code[i].imm < 0x8000
    requires s.regs[SP] == sp && cur != 0 && cur != SP
    requires Moves(code[i], cur) ==> code[i].dest != 0
    ensures match TrackStep(code, i, cur, sp, fp)
            case Continue(c, x) => t.regs[c] == s.regs[cur] && t.regs[SP] == x && c != 0 && c != SP
            case Done(InReg(r)) => r < 32 && t.regs[r] == s.regs[cur] && Preserved(r)
            case Done(_) => true
  {
    var inst := code[i];
    if Moves(inst, cur) {
      assert inst.Writes(inst.dest);
    }
  }

  lemma SlotHoldsValue(code: seq<Insn>, i: nat, cur: Reg, base: Word, s: State, t: State)
    requires i < |code| && Executes(code[i], s, t) && code[i].Stores() && Touches(code[i], cur) && cur != 0
    requires s.regs[code[i].s1] == base
    requires if code[i].regForm then s.regs[code[i].s2] == RegVal(code[..i], code[i].s2) else code[i].imm < 0x8000
    requires SaveSlot(code, i, cur, base).AtAddr?
    ensures t.mem(SaveSlot(code, i, cur, base).a) == s.regs[cur]
  {
    var ea := base + Operand(code[i], s);
    WrapSum(ea, 4);
  }

  /** If the tracker stops at a save, whatever keeps the stored word keeps the value tracked. */
  lemma {:induction false} SaveSound(code: seq<Insn>, tr: seq<State>, i: nat, cur: Reg, sp: Word, fp: Word)
    requires Runs(code, tr) && OperandsUnderstood(code, tr, fp)
    requires i < |code| && tr[i].regs[SP] == sp && cur != 0
    requires TrackStep(code, i, cur, sp, fp).Done? && TrackStep(code, i, cur, sp, fp).where.AtAddr?
    ensures forall t :: StoreKept(code, tr, i, TrackStep(code, i, cur, sp, fp).where.a, t)
              ==> t.mem(TrackStep(code, i, cur, sp, fp).where.a) == tr[i].regs[cur]
  {
    var a := TrackStep(code, i, cur, sp, fp).where.a;
    var base := if code[i].s1 == SP then sp else fp;
    assert StepAt(code, i, tr[i], tr[i + 1]);
    forall t | StoreKept(code, tr, i, a, t)
      ensures t.mem(a) == tr[i].regs[cur]
    {
      if InDelaySlot(code, i) {
        var mid :| Executes(code[i], tr[i], mid) && CalleeRuns(mid, tr[i + 1]) && t.mem(a) == mem(mid, a);
        SlotHoldsValue(code, i, cur, base, tr[i], mid);
      } else {
        SlotHoldsValue(code, i, cur, base, tr[i], tr[i + 1]);
      }
    }
  }

  lemma {:induction false} StepSound(code: seq<Insn>, tr: seq<State>, i: nat, cur: Reg, sp: Word, fp: Word)
    requires Runs(code, tr) && WellFormed(code) && OnlyImmediateAdjusts(code) && OperandsUnderstood(code, tr, fp)
    requires i < |code| && tr[i].regs[SP] == sp && cur != 0 && cur != SP
    requires InDelaySlot(code, i) ==> Preserved(cur)
    requires CleanPath(code, i, cur, sp, fp)
    ensures match TrackStep(code, i, cur, sp, fp)
            case Continue(c, x) =>
              && c != 0 && c != SP && tr[i + 1].regs[c] == tr[i].regs[cur] && tr[i + 1].regs[SP] == x
              && (InDelaySlot(code, i + 1) ==> Preserved(c))
            case Done(InReg(r)) => r < 32 && tr[i + 1].regs[r] == tr[i].regs[cur]
            case Done(_) => true
  {
    var inst := code[i];
    assert StepAt(code, i, tr[i], tr[i + 1]);
    if InDelaySlot(code, i) {
      var mid :| Executes(inst, tr[i], mid) && CalleeRuns(mid, tr[i + 1]);
      if i < 5000 {
        PlainStepKeeps(code, i, cur, sp, fp, tr[i], mid);
      }
    } else if !inst.IsCall() {
      if i < 5000 {
        PlainStepKeeps(code, i, cur, sp, fp, tr[i], tr[i + 1]);
      }
    }
  }

  /** From any point where `cur` holds the value tracked, the answer names a location that holds it
      at the end of the run. */
  lemma {:induction false} TrackSound(code: seq<Insn>, tr: seq<State>, i: nat, cur: Reg, sp: Word, fp: Word)
    requires Runs(code, tr) && WellFormed(code) && OnlyImmediateAdjusts(code) && OperandsUnderstood(code, tr, fp)
    requires i <= |code| && tr[i].regs[SP] == sp && cur != 0 && cur != SP
    requires InDelaySlot(code, i) ==> Preserved(cur)
    requires CleanPath(code, i, cur, sp, fp)
    requires Kept(code, tr, Track(code, i, cur, sp, fp))
    ensures Holds(Track(code, i, cur, sp, fp).where, tr[|code|], tr[i].regs[cur])
    decreases |code| - i
  {
    if i < |code| {
      StepSound(code, tr, i, cur, sp, fp);
      match TrackStep(code, i, cur, sp, fp)
      case Continue(c, x) => TrackSound(code, tr, i + 1, c, x, fp);
      case Done(w) =>
        if w.AtAddr? { SaveSound(code, tr, i, cur, sp, fp); }
    }
  }

  // ----- one frame -----

  /** A frame: the text of its function from the entry point, where in it execution stands, and the
      stack and frame pointers.  `pc` counts instructions; in a frame other than the current one
      it is the return address. */
  datatype Frame = Frame(code: seq<Insn>, pc: nat, sp: Word, fp: Word, current: bool)

  function EndIndex(f: Frame): int {
    if f.current then f.pc - 1 else f.pc - 2
  }

  /** The last instruction examined is a delayed call, so its slot is examined in its place. */
  predicate EndsInSlot(f: Frame) {
    0 <= EndIndex(f) < |f.code| && f.code[EndIndex(f)].op.CallDelayed?
  }

  predicate TextPresent(f: Frame) {
    f.pc <= |f.code| && (EndsInSlot(f) ==> EndIndex(f) + 1 < |f.code| && !f.code[EndIndex(f) + 1].IsCall())
  }

  function Examined(f: Frame): seq<Insn>
    requires TextPresent(f)
  {
    var e := EndIndex(f);
    if e < 0 then []
    else if EndsInSlot(f) then f.code[..e] + [f.code[e + 1]]
    else f.code[..e + 1]
  }

  function EntrySp(f: Frame): Word
    requires TextPresent(f)
  {
    PreviousSp(if EndIndex(f) < 0 then [] else f.code[..EndIndex(f)], f.sp)
  }

  /** `prevSp` is the stack pointer cached in the calling frame, if that frame is in the cache. */
  function Single(f: Frame, prevSp: Option<Word>, regnum: nat): Where
    requires TextPresent(f)
  {
    if regnum >= 32 then Invalid
    else if regnum == 0 then InReg(0)
    else if regnum == SP then
      match prevSp
      case Some(sp) => Value(sp)
      case None => Value(PreviousSp(f.code[..f.pc], f.sp))
    else Track(Examined(f), 0, regnum, EntrySp(f), f.fp).where
  }

  /** The forward scan, with the source's count-down limit of 5000 instructions. */
  method FindSingleSavedReg(f: Frame, prevSp: Option<Word>, regnum: nat) returns (w: Where)
    requires TextPresent(f) && NoRegisterAdjust(f.code[..f.pc])
    ensures w == Single(f, prevSp, regnum)
  {
    if regnum >= 32 {
      return Invalid;
    }
    if regnum == 0 {
      return InReg(0);
    }
    if regnum == SP {
      if prevSp.Some? {
        return Value(prevSp.value);
      }
      var sp := SynthesizePreviousSp(f.code[..f.pc], f.sp, 0, f.pc);
      assert f.code[..f.pc][0..f.pc] == f.code[..f.pc];
      return Value(sp);
    }
    var assumedSp: Word := f.sp;
    if EndIndex(f) >= 0 {
      assert f.code[..f.pc][0..EndIndex(f)] == f.code[..EndIndex(f)];
      assumedSp := SynthesizePreviousSp(f.code[..f.pc], f.sp, 0, EndIndex(f));
    }
    w := ScanForward(f, regnum, assumedSp);
  }

  method ScanForward(f: Frame, regnum: Reg, entrySp: Word) returns (w: Where)
    requires TextPresent(f)
    ensures w == Track(Examined(f), 0, regnum, entrySp, f.fp).where
  {
    var end := EndIndex(f);
    ghost var ex := Examined(f);
    var cur: Reg, assumedSp: Word := regnum, entrySp;
    var cnt := 5000;
    var i := 0;
    while i <= end
      invariant 0 <= i <= |ex| == if end < 0 then 0 else end + 1
      invariant cnt == 5000 - i
      invariant Track(ex, 0, regnum, entrySp, f.fp).where == Track(ex, i, cur, assumedSp, f.fp).where
    {
      if cnt == 0 {
        return Failed;
      }
      cnt := cnt - 1;
      var inst := f.code[i];
      if inst.IsCall() && inst.op.CallDelayed? && i == end {
        inst := f.code[i + 1];
      }
      var next := Examine(f.code[..i], inst, cur, assumedSp, f.fp);
      assert ex[..i + 1] == f.code[..i] + [inst];
      TrackStepIsLocal(ex, i, cur, assumedSp, f.fp);
      if next.Done? {
        return next.where;
      }
      cur, assumedSp := next.cur, next.sp;
      i := i + 1;
    }
    return InReg(cur);
  }

  lemma TrackStepIsLocal(code: seq<Insn>, i: nat, cur: Reg, sp: Word, fp: Word)
    requires i < |code|
    ensures TrackStep(code[..i + 1], i, cur, sp, fp) == TrackStep(code, i, cur, sp, fp)
  {
    assert code[..i + 1][..i] == code[..i];
  }

  /** The loop body. */
  method Examine(before: seq<Insn>, inst: Insn, cur: Reg, sp: Word, fp: Word) returns (next: Next)
    requires |before| < 5000
    ensures next == TrackStep(before + [inst], |before|, cur, sp, fp)
  {
    if inst.IsCall() {
      return if Preserved(cur) then Continue(cur, sp) else Done(Invalid);
    }
    if inst.GrowsStackImm() {
      return Continue(cur, Wrap(sp - inst.SignedImm()));
    }
    if inst.ShrinksStackImm() {
      return Continue(cur, Wrap(sp + inst.SignedImm()));
    }
    if inst.AdjustsStackReg() {
      next := AdjustByReg(before, inst, cur, sp);
      return;
    }
    if Moves(inst, cur) {
      if Preserved(inst.dest) {
        return Done(InReg(inst.dest));
      }
      return Continue(inst.dest, sp);
    }
    if !Touches(inst, cur) {
      return Continue(cur, sp);
    }
    if inst.Stores() && (inst.s1 == SP || inst.s1 == FP) {
      var w := SavedAt(before, inst, cur, if inst.s1 == SP then sp else fp);
      return Done(w);
    }
    if inst.Changes() {
      return Done(Invalid);
    }
    return Continue(cur, sp);
  }

  /** An adjustment of the stack pointer by a register; it alters the stack pointer itself. */
  method AdjustByReg(before: seq<Insn>, inst: Insn, cur: Reg, sp: Word) returns (next: Next)
    requires inst.AdjustsStackReg() && |before| < 5000
    ensures forall fp :: next == TrackStep(before + [inst], |before|, cur, sp, fp)
  {
    assert (before + [inst])[..|before|] == before;
    if before == [] {
      return Done(Failed);
    }
    var amount := FindRegVal(before, inst.s2);
    next := if cur == SP then Done(Invalid) else Continue(cur, AdjustedByReg(inst, amount, sp));
  }

  /** The address a save writes the tracked register to. */
  method SavedAt(before: seq<Insn>, inst: Insn, cur: Reg, base: Word) returns (w: Where)
    ensures w == SaveSlot(before + [inst], |before|, cur, base)
  {
    assert (before + [inst])[..|before|] == before;
    var offset := inst.SignedImm();
    if inst.regForm {
      if before == [] {
        return Failed;
      }
      offset := FindRegVal(before, inst.s2);
    }
    if inst.dest != cur && inst.dest + 1 == cur {
      offset := offset + 4;
    }
    return AtAddr(Wrap(base + offset));
  }

  // ----- soundness of one frame's answers -----

  /** What the frame records is what a run of the examined code left behind.  `s` is the state at
      the frame's own pc; for a caller, just before its call instruction sets r1. */
  ghost predicate Faithful(f: Frame, tr: seq<State>) {
    && TextPresent(f)
    && var ex := Examined(f);
    && Runs(ex, tr) && WellFormed(ex) && OnlyImmediateAdjusts(ex) && OperandsUnderstood(ex, tr, f.fp)
    && tr[|ex|].regs[SP] == f.sp
  }

  /** The answer for `reg` is not built on a lost value or on an overwritten copy, and the estimate
      of the stack pointer, which skips the last instruction examined, is not spoiled by it. */
  ghost predicate Trackable(f: Frame, tr: seq<State>, reg: Reg)
    requires Faithful(f, tr)
  {
    var ex := Examined(f);
    && (ex != [] ==> !ex[|ex| - 1].Writes(SP))
    && CleanPath(ex, 0, reg, EntrySp(f), f.fp)
    && Kept(ex, tr, Track(ex, 0, reg, EntrySp(f), f.fp))
  }

  lemma NarrowAdjustsCancel(code: seq<Insn>)
    requires forall i :: 0 <= i < |code| ==> code[i].GrowsStackImm() || code[i].ShrinksStackImm() ==> code[i].imm < 0x8000
    ensures WideGrows(code) == 0
  {
    if code != [] {
      NarrowAdjustsCancel(code[..|code| - 1]);
    }
  }

  /** The estimate undoes every examined instruction but the last. */
  lemma EntrySpUndoesAllButLast(f: Frame, tr: seq<State>)
    requires Faithful(f, tr) && Examined(f) != []
    ensures var n := |Examined(f)| - 1;
      EntrySp(f) == Wrap(tr[0].regs[SP] + f.sp - tr[n].regs[SP])
  {
    var ex := Examined(f);
    var n := |ex| - 1;
    var c, t := ex[..n], tr[..n + 1];
    assert EndIndex(f) == n && f.code[..n] == c;
    RunsPrefix(ex, tr);
    PrefixAdjusts(ex, n);
    NarrowAdjustsCancel(c);
    WrapWord(f.sp);
    PreviousSpOffset(c, t, f.sp - tr[n].regs[SP]);
  }

  lemma EntrySpSound(f: Frame, tr: seq<State>)
    requires Faithful(f, tr)
    requires var ex := Examined(f); ex != [] ==> !ex[|ex| - 1].Writes(SP)
    ensures EntrySp(f) == tr[0].regs[SP]
  {
    var ex := Examined(f);
    if ex != [] {
      var n := |ex| - 1;
      EntrySpUndoesAllButLast(f, tr);
      assert StepAt(ex, n, tr[n], tr[n + 1]);
      assert tr[n + 1].regs[SP] == tr[n].regs[SP];
      WrapWord(tr[0].regs[SP]);
    }
  }

  /** The last instruction examined moves r31 by `amount`. */
  ghost predicate EndsAdjusting(f: Frame, amount: int)
    requires TextPresent(f)
  {
    var ex := Examined(f);
    ex != [] &&
    var last := ex[|ex| - 1];
    && (last.GrowsStackImm() || last.ShrinksStackImm())
    && amount == (if last.GrowsStackImm() then 0 - last.imm else last.imm)
  }

  /** Stopped just after an instruction that moves r31, as at the return that follows the epilogue's
      addu, the estimate is off by the whole adjustment, so right only if that is zero. */
  lemma {:induction false} EntrySpAfterAdjustExact(f: Frame, tr: seq<State>, amount: int)
    requires Faithful(f, tr) && EndsAdjusting(f, amount)
    ensures EntrySp(f) == Wrap(tr[0].regs[SP] + amount)
    ensures EntrySp(f) == tr[0].regs[SP] <==> amount == 0
  {
    hide EntrySp, PreviousSp, OnlyImmediateAdjusts, OperandsUnderstood, StepAt, Executes, WellFormed;
    var ex := Examined(f);
    var n := |ex| - 1;
    EntrySpUndoesAllButLast(f, tr);
    AdjustedBy(ex, tr, amount);
    ShiftedWord(tr[0].regs[SP], tr[n].regs[SP], f.sp, amount);
  }

  /** The slot that `w` names, moved by `d` if it was reckoned from the stack pointer. */
  function Shifted(code: seq<Insn>, ans: Answer, d: int): Where {
    if ans.where.AtAddr? && ans.site < |code| && code[ans.site].s1 == SP then AtAddr(Wrap(ans.where.a + d)) else ans.where
  }

  lemma WrapSwap(x: int, d: int, k: int)
    ensures Wrap(Wrap(x + d) + k) == Wrap(Wrap(x + k) + d)
  {
    WrapSum(x + d, k);
    WrapSum(x + k, d);
  }

  lemma SlotShifts(code: seq<Insn>, i: nat, cur: Reg, base: Word, d: int)
    requires i < |code|
    ensures match SaveSlot(code, i, cur, base)
            case AtAddr(a) => SaveSlot(code, i, cur, Wrap(base + d)) == AtAddr(Wrap(a + d))
            case w => w == Failed && SaveSlot(code, i, cur, Wrap(base + d)) == w
  {
    hide Wrap, SlotOffset;
    WrapSwap(base, d, SlotOffset(code, i, cur));
  }

  lemma StepShifts(code: seq<Insn>, i: nat, cur: Reg, sp: Word, fp: Word, d: int)
    requires i < |code|
    ensures match TrackStep(code, i, cur, sp, fp)
            case Continue(c, x) => TrackStep(code, i, cur, Wrap(sp + d), fp) == Continue(c, Wrap(x + d))
            case Done(w) => TrackStep(code, i, cur, Wrap(sp + d), fp) == Done(Shifted(code, Answer(w, i), d))
  {
    hide Wrap, SaveSlot, RegVal;
    var inst := code[i];
    var k := if inst.AdjustsStackReg() then RegVal(code[..i], inst.s2) else inst.SignedImm();
    WrapSwap(sp, d, k);
    WrapSwap(sp, d, -k);
    SlotShifts(code, i, cur, sp, d);
  }

  /** A stack pointer taken to be `d` too high moves the slots reckoned from it by `d`, and no other answer. */
  lemma {:induction false} TrackShifts(code: seq<Insn>, i: nat, cur: Reg, sp: Word, fp: Word, d: int)
    requires i <= |code|
    ensures Track(code, i, cur, Wrap(sp + d), fp).where == Shifted(code, Track(code, i, cur, sp, fp), d)
    decreases |code| - i
  {
    hide TrackStep;
    if i < |code| {
      StepShifts(code, i, cur, sp, fp, d);
      match TrackStep(code, i, cur, sp, fp)
      case Continue(c, x) => TrackShifts(code, i + 1, c, x, fp, d);
      case Done(_) =>
    }
  }

  /** So there the answer for a register is the one that a right estimate gives, exactly if it was not
      saved off r31, or the adjustment is zero; else the slot reported is off by the adjustment. */
  lemma {:induction false} AnswerAfterAdjustExact(f: Frame, tr: seq<State>, amount: int, prevSp: Option<Word>, reg: Reg)
    requires Faithful(f, tr) && EndsAdjusting(f, amount) && reg != 0 && reg != SP
    ensures var right := Track(Examined(f), 0, reg, tr[0].regs[SP], f.fp);
      && Single(f, prevSp, reg) == Shifted(Examined(f), right, amount)
      && (Single(f, prevSp, reg) == right.where <==>
            !(right.where.AtAddr? && right.site < |Examined(f)| && Examined(f)[right.site].s1 == SP) || amount == 0)
  {
    hide EntrySp, TrackStep, Track, Wrap, Examined, StepAt, OnlyImmediateAdjusts, OperandsUnderstood, WellFormed;
    EntrySpAfterAdjustExact(f, tr, amount);
    TrackShifts(Examined(f), 0, reg, tr[0].regs[SP], f.fp, amount);
    var right := Track(Examined(f), 0, reg, tr[0].regs[SP], f.fp);
    if right.where.AtAddr? {
      var a := right.where.a;
      ShiftedWord(a, a, Wrap(a + amount), amount);
    }
  }

  lemma AdjustedBy(code: seq<Insn>, tr: seq<State>, amount: int)
    requires Runs(code, tr) && code != []
    requires var last := code[|code| - 1];
      (last.GrowsStackImm() || last.ShrinksStackImm()) && amount == (if last.GrowsStackImm() then 0 - last.imm else last.imm)
    ensures var n := |code| - 1; tr[n + 1].regs[SP] == Wrap(tr[n].regs[SP] + amount) && -0x1_0000 < amount < 0x1_0000
  {
    var n := |code| - 1;
    assert StepAt(code, n, tr[n], tr[n + 1]);
  }

  lemma ShiftedWord(e: Word, x: Word, s: Word, k: int)
    requires -0x1_0000 < k < 0x1_0000 && s == Wrap(x + k)
    ensures Wrap(e + s - x) == Wrap(e + k)
    ensures Wrap(e + k) == e <==> k == 0
  {
    WrapSum(x + k, e - x);
  }

  lemma CallUndoesNothing(pre: seq<Insn>, call: Insn, sp: Word)
    requires call.IsCall()
    ensures PreviousSp(pre + [call], sp) == PreviousSp(pre, sp)
  {
    PreviousSpOfLast(pre, call, sp);
  }

  lemma SlottedCallUndoesItsSlot(pre: seq<Insn>, call: Insn, slot: Insn, sp: Word)
    requires call.IsCall()
    ensures PreviousSp(pre + [call] + [slot], sp) == PreviousSp(pre + [slot], sp)
  {
    PreviousSpOfLast(pre + [call], slot, sp);
    CallUndoesNothing(pre, call, Undo(slot, sp));
    PreviousSpOfLast(pre, slot, sp);
  }

  lemma FullTextUndoesLikeExamined(f: Frame)
    requires TextPresent(f)
    requires f.current ==> !EndsInSlot(f)
    requires !f.current ==> 0 < f.pc && f.code[if EndsInSlot(f) then f.pc - 2 else f.pc - 1].IsCall()
    ensures PreviousSp(f.code[..f.pc], f.sp) == PreviousSp(Examined(f), f.sp)
  {
    var e := EndIndex(f);
    if f.current {
      assert f.code[..f.pc] == Examined(f);
    } else if EndsInSlot(f) {
      assert f.code[..f.pc] == f.code[..e] + [f.code[e]] + [f.code[e + 1]];
      SlottedCallUndoesItsSlot(f.code[..e], f.code[e], f.code[e + 1], f.sp);
    } else {
      assert f.code[..f.pc] == f.code[..f.pc - 1] + [f.code[f.pc - 1]];
      assert Examined(f) == f.code[..f.pc - 1];
      CallUndoesNothing(f.code[..f.pc - 1], f.code[f.pc - 1], f.sp);
    }
  }

  /** Execution stands where a frame can stand: not inside a delay slot, or just after a call. */
  predicate StandsAtBoundary(f: Frame)
    requires TextPresent(f)
  {
    if f.current then !EndsInSlot(f)
    else 0 < f.pc && f.code[if EndsInSlot(f) then f.pc - 2 else f.pc - 1].IsCall()
  }

  /** Saved-register tracking is sound: any register number, address or value returned holds what
      `reg` held on entry to the frame's function. */
  lemma {:induction false} SingleSound(f: Frame, prevSp: Option<Word>, tr: seq<State>, reg: nat)
    requires Faithful(f, tr) && StandsAtBoundary(f)
    requires prevSp.Some? ==> prevSp.value == PreviousSp(f.code[..f.pc], f.sp)
    requires 0 < reg < 32 && reg != SP ==> Trackable(f, tr, reg)
    ensures reg < 32 ==> Holds(Single(f, prevSp, reg), tr[|Examined(f)|], tr[0].regs[reg])
    ensures reg >= 32 ==> Single(f, prevSp, reg) == Invalid
  {
    var ex := Examined(f);
    if reg == SP {
      FullTextUndoesLikeExamined(f);
      NarrowAdjustsCancel(ex);
      PreviousSpInvertsExecution(ex, tr);
    } else if 0 < reg < 32 {
      EntrySpSound(f, tr);
      TrackSound(ex, tr, 0, reg, EntrySp(f), f.fp);
    }
  }

  // ----- where the hypotheses bite -----

  /** The exact condition for following a copy made in a call's delay slot: the callee must
      preserve the register copied into. */
  lemma DelayedCopyExact(code: seq<Insn>, i: nat, cur: Reg, s: State)
    requires InDelaySlot(code, i) && Moves(code[i], cur) && code[i].dest != 0 && Valid(s)
    ensures (forall t :: StepAt(code, i, s, t) ==> t.regs[code[i].dest] == s.regs[cur]) <==>
            Preserved(code[i].dest) || code[i].dest == SP
  {
    var d := code[i].dest;
    forall t | StepAt(code, i, s, t) && (Preserved(d) || d == SP)
      ensures t.regs[d] == s.regs[cur]
    {
      var mid :| Executes(code[i], s, mid) && CalleeRuns(mid, t);
    }
    if !Preserved(d) && d != SP {
      var mid := State(s.regs[d := s.regs[cur]], s.mem);
      var v: int := s.regs[cur];
      var other: Word := Wrap(v + 1);
      var t := State(mid.regs[d := other], s.mem);
      assert Executes(code[i], s, mid) && CalleeRuns(mid, t);
      assert StepAt(code, i, s, t) && t.regs[d] != s.regs[cur];
    }
  }

  /** A move is one to follow, whatever is in the register moved and wherever the code stands, exactly
      if it does not lose the value. */
  lemma MoveFollowedExactly(code: seq<Insn>, i: nat, cur: Reg)
    requires i < |code| && Moves(code[i], cur) && cur != 0
    ensures (forall s, t :: Valid(s) && StepAt(code, i, s, t) ==> t.regs[code[i].dest] == s.regs[cur]) <==>
            !LosesValue(code, i)
  {
    var d := code[i].dest;
    var zero: Regs := seq(32, _ => 0);
    var s := State(zero[cur := 1], _ => 0);
    if d == 0 {
      assert Executes(code[i], s, s) && CalleeRuns(s, s);
      assert StepAt(code, i, s, s) && s.regs[d] != s.regs[cur];
    } else if InDelaySlot(code, i) {
      DelayedCopyExact(code, i, cur, s);
      forall u, t | Valid(u) && StepAt(code, i, u, t) && !LosesValue(code, i)
        ensures t.regs[d] == u.regs[cur]
      {
        DelayedCopyExact(code, i, cur, u);
      }
    }
  }

  /** `or r0,r0,r14`, which does nothing, has r14's entry value reported to be in r0. */
  lemma MoveIntoR0DefeatsIt() returns (f: Frame, tr: seq<State>)
    ensures Faithful(f, tr) && StandsAtBoundary(f) && |tr| == 2
    ensures Single(f, None, 14) == InReg(0)
    ensures tr[1].regs[0] != tr[0].regs[14] == tr[1].regs[14]
  {
    var code := [Insn(Or, 0, 0, 14, 0, true)];
    f := Frame(code, 1, 0, 0, true);
    var r: Regs := seq(32, _ => 0);
    var s := State(r[14 := 7], _ => 0);
    tr := [s, s];
    assert Examined(f) == code;
    assert StepAt(code, 0, s, s);
    assert Track(code, 0, 14, EntrySp(f), 0).where == Track(code, 1, 0, EntrySp(f), 0).where == InReg(0);
  }

  function Epilogue(): seq<Insn> {
    [Insn(Subu, SP, SP, 0, 8, false), Insn(Saves, 14, SP, 0, 0, false), Insn(Addu, SP, SP, 0, 8, false)]
  }

  lemma EpilogueSlot(f: Frame)
    requires f == Frame(Epilogue(), 3, 1000, 0, true)
    ensures TextPresent(f) && Single(f, None, 14) == AtAddr(1000)
  {
    var code := Epilogue();
    assert Examined(f) == code;
    assert EntrySp(f) == 1008 by {
      assert f.code[..2] == code[..0] + [code[0]] + [code[1]];
      PreviousSpOfLast(code[..0] + [code[0]], code[1], 1000);
      PreviousSpOfLast(code[..0], code[0], 1000);
    }
    assert Track(code, 0, 14, 1008, 0) == Track(code, 1, 14, 1000, 0) == Answer(AtAddr(1000), 1);
  }

  /** Stopped after `subu r31,r31,8`, `st r14,r31,0` and `addu r31,r31,8`, the slot reported for r14 is 8 above
      the one it was stored in, and holds something else. */
  lemma EpilogueDefeatsIt() returns (f: Frame, tr: seq<State>)
    ensures Faithful(f, tr) && StandsAtBoundary(f) && |tr| == 4 && EndsAdjusting(f, 8)
    ensures Single(f, None, 14) == AtAddr(1000) && tr[3].mem(1000) != tr[0].regs[14] == tr[3].mem(992)
  {
    hide Single, EntrySp;
    var code := Epilogue();
    f := Frame(code, 3, 1000, 0, true);
    EpilogueSlot(f);
    var r: Regs := seq(32, _ => 0);
    var regs := r[14 := 7][SP := 1000];
    var before, after := a => 0, a => if a == 992 then 7 else 0;
    tr := [State(regs, before), State(regs[SP := 992], before), State(regs[SP := 992], after), State(regs, after)];
    assert Examined(f) == code;
    assert StepAt(code, 0, tr[0], tr[1]);
    assert StepAt(code, 1, tr[1], tr[2]);
    assert StepAt(code, 2, tr[2], tr[3]);
  }

  /** A common call sequence defeats the tracker: with `bsr.n f` and `or r2,r0,r14` in its slot, the
      entry value of r14 is reported to be in r2 after f returns, though r14 itself still has it. */
  lemma ArgumentInDelaySlotDefeatsIt() returns (f: Frame, tr: seq<State>)
    ensures Faithful(f, tr) && StandsAtBoundary(f) && |tr| == 3
    ensures Single(f, None, 14) == InReg(2)
    ensures tr[2].regs[2] != tr[0].regs[14] == tr[2].regs[14]
  {
    var code := [Insn(CallDelayed, 0, 0, 0, 0, false), Insn(Or, 2, 0, 14, 0, true)];
    f := Frame(code, 2, 0, 0, true);
    var r: Regs := seq(32, _ => 0);
    var s := State(r[14 := 7], a => 0);
    var mid := State(s.regs[2 := 7], s.mem);
    var t := State(s.regs[2 := 1], s.mem);
    tr := [s, s, t];
    assert Examined(f) == code;
    assert StepAt(code, 0, s, s);
    assert Executes(code[1], s, mid) && CalleeRuns(mid, t);
    assert StepAt(code, 1, s, t);
    assert Runs(code, tr);
    assert Track(code, 1, 14, EntrySp(f), 0).where == Track(code, 2, 2, EntrySp(f), 0).where == InReg(2);
    assert Faithful(f, tr);
  }
}
