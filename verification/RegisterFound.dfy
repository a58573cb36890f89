/** That the unwinder gives an answer where there is one: a saved register is found, a copied one followed,
    and a lookup is given up only for a cause in the code.  With the soundness of SavedRegister and
    FrameAnswers, which a lookup that always gave up would meet too, this says what is answered. */
module RegisterFound {
  import opened M88k
  import opened StackPointer
  import opened SavedRegister
  import opened FrameChain
  import opened FrameAnswers
  import opened Wrappers

  // ----- what an instruction can do to the register followed -----

  /** Stored, alone or as the second word of a double store. */
  predicate StoresIt(i: Insn, reg: Reg) {
    (i.op.Saves? && i.dest == reg) || (i.op.SavesDouble? && (i.dest == reg || (i.dest + 1) % 32 == reg))
  }

  /** A save on the stack, off r31 or r30. */
  predicate SavesIt(i: Insn, reg: Reg) {
    StoresIt(i, reg) && (i.s1 == 31 || i.s1 == 30)
  }

  /** `or rD,r0,reg` */
  predicate CopiesIt(i: Insn, reg: Reg) {
    i.op.Or? && i.s1 == 0 && i.s2 == reg
  }

  /** The stack pointer moved by an amount in a register. */
  predicate MovesStackByRegister(i: Insn) {
    (i.op.Addu? || i.op.Subu?) && i.regForm && i.dest == 31 && i.s1 == 31
  }

  /** The register may hold something else after it. */
  predicate MayChange(i: Insn, reg: Reg) {
    if i.op.Call? || i.op.CallDelayed? then !(14 <= reg <= 25)
    else i.Writes(reg)
  }

  /** Nothing about the register is to be learnt from the instruction. */
  predicate PassesBy(i: Insn, reg: Reg) {
    && !MayChange(i, reg)
    && (!(i.op.Call? || i.op.CallDelayed?) ==> !SavesIt(i, reg) && !CopiesIt(i, reg) && !MovesStackByRegister(i))
  }

  /** The register that `reg` is followed to: each copy of the one followed is followed in its place. */
  function Follows(code: seq<Insn>, i: nat, k: nat, reg: Reg): Reg
    requires i <= k <= |code|
    decreases k - i
  {
    if i == k then reg else Follows(code, i + 1, k, if CopiesIt(code[i], reg) then code[i].dest else reg)
  }

  /** Nothing is to be learnt from the instruction but what to follow next. */
  predicate GoesOn(i: Insn, reg: Reg) {
    PassesBy(i, reg) || (CopiesIt(i, reg) && !(14 <= i.dest <= 25))
  }

  // ----- what is found in one function -----

  lemma StepPassesBy(code: seq<Insn>, i: nat, reg: Reg, sp: Word, fp: Word)
    requires i < |code| && i < 5000 && reg != 31 && PassesBy(code[i], reg)
    ensures TrackStep(code, i, reg, sp, fp).Continue? && TrackStep(code, i, reg, sp, fp).cur == reg
  {
  }

  /** Past instructions that pass the register by, it is followed still, with some estimate of r31. */
  lemma {:induction false} Passed(code: seq<Insn>, i: nat, k: nat, reg: Reg, sp: Word, fp: Word) returns (sp': Word)
    requires i <= k <= |code| && k <= 5000 && reg != 31
    requires forall j :: i <= j < k ==> PassesBy(code[j], reg)
    ensures Track(code, i, reg, sp, fp) == Track(code, k, reg, sp', fp)
    decreases k - i
  {
    if i == k {
      sp' := sp;
    } else {
      StepPassesBy(code, i, reg, sp, fp);
      hide TrackStep, PassesBy;
      sp' := Passed(code, i + 1, k, reg, TrackStep(code, i, reg, sp, fp).sp, fp);
    }
  }

  /** The first thing that happens to a register is that it is saved: it is found in memory, saved there. */
  lemma SaveFound(code: seq<Insn>, k: nat, reg: Reg, sp: Word, fp: Word)
    requires k < |code| && k < 5000 && reg != 31 && SavesIt(code[k], reg) && (code[k].regForm ==> k > 0)
    requires forall j :: 0 <= j < k ==> PassesBy(code[j], reg)
    ensures Track(code, 0, reg, sp, fp).where.AtAddr? && Track(code, 0, reg, sp, fp).site == k
  {
    var sp' := Passed(code, 0, k, reg, sp, fp);
    hide PassesBy;
    assert TrackStep(code, k, reg, sp', fp).Done? && TrackStep(code, k, reg, sp', fp).where.AtAddr?;
  }

  /** Or that it is copied into a register that callees preserve: it is found there. */
  lemma CopyFound(code: seq<Insn>, k: nat, reg: Reg, sp: Word, fp: Word)
    requires k < |code| && k < 5000 && reg != 31 && CopiesIt(code[k], reg) && 14 <= code[k].dest <= 25
    requires forall j :: 0 <= j < k ==> PassesBy(code[j], reg)
    ensures Track(code, 0, reg, sp, fp) == Answer(InReg(code[k].dest), k)
  {
    var sp' := Passed(code, 0, k, reg, sp, fp);
    hide PassesBy;
    assert TrackStep(code, k, reg, sp', fp) == Done(InReg(code[k].dest));
  }

  /** Or into another one: that is followed from there. */
  lemma CopyFollowed(code: seq<Insn>, k: nat, reg: Reg, sp: Word, fp: Word) returns (sp': Word)
    requires k < |code| && k < 5000 && reg != 31 && CopiesIt(code[k], reg) && !(14 <= code[k].dest <= 25)
    requires forall j :: 0 <= j < k ==> PassesBy(code[j], reg)
    ensures Track(code, 0, reg, sp, fp) == Track(code, k + 1, code[k].dest, sp', fp)
  {
    sp' := Passed(code, 0, k, reg, sp, fp);
    hide PassesBy;
    assert TrackStep(code, k, reg, sp', fp) == Continue(code[k].dest, sp');
  }

  /** Or nothing does: it is where it was. */
  lemma LeftAlone(code: seq<Insn>, reg: Reg, sp: Word, fp: Word)
    requires |code| <= 5000 && reg != 31 && forall j :: 0 <= j < |code| ==> PassesBy(code[j], reg)
    ensures Track(code, 0, reg, sp, fp) == Answer(InReg(reg), |code|)
  {
    var sp' := Passed(code, 0, |code|, reg, sp, fp);
  }

  lemma {:induction false} Followed(code: seq<Insn>, i: nat, k: nat, reg: Reg, sp: Word, fp: Word) returns (sp': Word)
    requires i <= k <= |code| && k <= 5000
    requires forall j :: i <= j < k ==> GoesOn(code[j], Follows(code, i, j, reg))
    ensures Track(code, i, reg, sp, fp) == Track(code, k, Follows(code, i, k, reg), sp', fp)
    decreases k - i
  {
    if i == k {
      sp' := sp;
    } else {
      assert GoesOn(code[i], Follows(code, i, i, reg));
      var next := if CopiesIt(code[i], reg) then code[i].dest else reg;
      assert TrackStep(code, i, reg, sp, fp).Continue? && TrackStep(code, i, reg, sp, fp).cur == next;
      hide TrackStep, GoesOn, CopiesIt;
      forall j | i + 1 <= j < k
        ensures GoesOn(code[j], Follows(code, i + 1, j, next))
      {
        assert Follows(code, i, j, reg) == Follows(code, i + 1, j, next);
      }
      sp' := Followed(code, i + 1, k, next, TrackStep(code, i, reg, sp, fp).sp, fp);
    }
  }

  /** The first instruction from which something else is to be learnt decides: the register is in memory if it saves
      the one followed, in a register that callees preserve if it copies it there, and lost if it changes it. */
  lemma FirstDecides(code: seq<Insn>, k: nat, reg: Reg, sp: Word, fp: Word)
    requires k < |code| && k < 5000 && forall j :: 0 <= j < k ==> GoesOn(code[j], Follows(code, 0, j, reg))
    ensures var c, inst, ans := Follows(code, 0, k, reg), code[k], Track(code, 0, reg, sp, fp);
      && (SavesIt(inst, c) && (inst.regForm ==> k > 0) ==> ans.where.AtAddr? && ans.site == k)
      && (CopiesIt(inst, c) && 14 <= inst.dest <= 25 ==> ans == Answer(InReg(inst.dest), k))
      && (MayChange(inst, c) && c != 31 && !SavesIt(inst, c) && !CopiesIt(inst, c) ==> ans == Answer(Invalid, k))
  {
    var sp' := Followed(code, 0, k, reg, sp, fp);
    hide GoesOn, Follows;
  }

  /** If none does, it is in the register last followed. */
  lemma NoneDecides(code: seq<Insn>, reg: Reg, sp: Word, fp: Word)
    requires |code| <= 5000 && forall j :: 0 <= j < |code| ==> GoesOn(code[j], Follows(code, 0, j, reg))
    ensures Track(code, 0, reg, sp, fp) == Answer(InReg(Follows(code, 0, |code|, reg)), |code|)
  {
    var sp' := Followed(code, 0, |code|, reg, sp, fp);
  }

  /** What decided an answer: the register that was then being followed. */
  predicate DecidedBy(code: seq<Insn>, i: nat, reg: Reg, sp: Word, fp: Word, c: Reg, sp': Word)
    requires i <= |code|
  {
    var ans := Track(code, i, reg, sp, fp);
    i <= ans.site <= |code| && ans == Track(code, ans.site, c, sp', fp)
    && (ans.site < |code| ==> TrackStep(code, ans.site, c, sp', fp) == Done(ans.where))
    && (ans.site == |code| ==> ans.where == InReg(c))
  }

  lemma {:induction false} Decided(code: seq<Insn>, i: nat, reg: Reg, sp: Word, fp: Word) returns (c: Reg, sp': Word)
    requires i <= |code|
    ensures DecidedBy(code, i, reg, sp, fp, c, sp') && c == Follows(code, i, Track(code, i, reg, sp, fp).site, reg)
    decreases |code| - i
  {
    c, sp' := reg, sp;
    if i < |code| {
      match TrackStep(code, i, reg, sp, fp)
      case Done(_) =>
      case Continue(d, x) =>
        assert d == if CopiesIt(code[i], reg) then code[i].dest else reg;
        hide TrackStep, CopiesIt;
        c, sp' := Decided(code, i + 1, d, x, fp);
    }
  }

  /** A register is given up for lost only where the one being followed may be changed, or at an adjustment of
      the stack pointer itself by a register. */
  lemma LostOnlyIfChanged(code: seq<Insn>, reg: Reg, sp: Word, fp: Word)
    requires Track(code, 0, reg, sp, fp).where == Invalid
    ensures var site := Track(code, 0, reg, sp, fp).site;
      && site < |code| && site < 5000
      && var c := Follows(code, 0, site, reg);
         MayChange(code[site], c) || (c == 31 && MovesStackByRegister(code[site]))
  {
    var c, sp' := Decided(code, 0, reg, sp, fp);
  }

  /** The lookup fails only at the limit, or where the function's first instruction has a register for an
      operand that find_reg_val would be needed for. */
  lemma FailsOnlyAtLimit(code: seq<Insn>, reg: Reg, sp: Word, fp: Word)
    requires Track(code, 0, reg, sp, fp).where == Failed
    ensures var site := Track(code, 0, reg, sp, fp).site;
      && site < |code| && (site >= 5000 || (site == 0 && code[0].regForm))
  {
    var c, sp' := Decided(code, 0, reg, sp, fp);
  }

  /** The limit is one: past 5000 instructions that tell nothing the lookup fails. */
  lemma LimitReached(code: seq<Insn>, reg: Reg, sp: Word, fp: Word)
    requires |code| > 5000 && reg != 31 && forall j :: 0 <= j < 5000 ==> PassesBy(code[j], reg)
    ensures Track(code, 0, reg, sp, fp) == Answer(Failed, 5000)
  {
    var sp' := Passed(code, 0, 5000, reg, sp, fp);
  }

  // ----- and in one frame -----

  /** What is examined of a function: all before the pc of the current frame, and of a calling one all before
      the call it is in, the call's delay slot taken in its place. */
  lemma ExaminedExactly(f: Frame)
    requires TextPresent(f) && StandsAtBoundary(f)
    ensures f.current ==> Examined(f) == f.code[..f.pc]
    ensures !f.current && !(f.pc >= 2 && f.code[f.pc - 2].op.CallDelayed?) ==> Examined(f) == f.code[..f.pc - 1]
    ensures !f.current && f.pc >= 2 && f.code[f.pc - 2].op.CallDelayed? ==> Examined(f) == f.code[..f.pc - 2] + [f.code[f.pc - 1]]
  {
  }

  /** The special registers: r0 is itself, r31 a value, and those of no machine register are not to be had. */
  lemma SpecialRegisters(f: Frame, prevSp: Option<Word>, regnum: nat)
    requires TextPresent(f)
    ensures Single(f, prevSp, 0) == InReg(0)
    ensures Single(f, prevSp, 31) == Value(if prevSp.Some? then prevSp.value else PreviousSp(f.code[..f.pc], f.sp))
    ensures regnum >= 32 ==> Single(f, prevSp, regnum) == Invalid
  {
  }

  /** The first instruction of a frame's function from which more is to be learnt of a register than what to follow. */
  predicate Deciding(code: seq<Insn>, k: nat, reg: Reg) {
    k < |code| && k < 5000 && forall j :: 0 <= j < k ==> GoesOn(code[j], Follows(code, 0, j, reg))
  }

  predicate SavedAtSite(code: seq<Insn>, k: nat, reg: Reg)
    requires k < |code|
  {
    SavesIt(code[k], Follows(code, 0, k, reg)) && (code[k].regForm ==> k > 0)
  }

  /** A register saved in the frame's function is found in memory, one copied where callees leave it is found there,
      and one changed is lost. */
  lemma FrameDecides(f: Frame, prevSp: Option<Word>, k: nat, reg: Reg)
    requires TextPresent(f) && reg != 0 && reg != 31 && Deciding(Examined(f), k, reg)
    ensures var ex, ans := Examined(f), Single(f, prevSp, reg);
      var c, inst := Follows(ex, 0, k, reg), ex[k];
      && (SavedAtSite(ex, k, reg) ==> ans.AtAddr?)
      && (CopiesIt(inst, c) && 14 <= inst.dest <= 25 ==> ans == InReg(inst.dest))
      && (MayChange(inst, c) && c != 31 && !SavesIt(inst, c) && !CopiesIt(inst, c) ==> ans == Invalid)
  {
    FirstDecides(Examined(f), k, reg, EntrySp(f), f.fp);
  }

  /** A cause to give up a register. */
  predicate CauseAt(code: seq<Insn>, site: nat, reg: Reg) {
    && site < |code|
    && var c := Follows(code, 0, site, reg);
      MayChange(code[site], c) || (c == 31 && MovesStackByRegister(code[site])) || site >= 5000 || (site == 0 && code[0].regForm)
  }

  /** Nothing but a change to the register followed, the limit, or an operand of the first instruction makes
      a frame give no answer. */
  lemma AnswerLostOnlyIf(f: Frame, prevSp: Option<Word>, reg: Reg) returns (site: nat)
    requires TextPresent(f) && Single(f, prevSp, reg) in {Invalid, Failed}
    ensures CauseAt(Examined(f), site, reg)
  {
    var ans := Track(Examined(f), 0, reg, EntrySp(f), f.fp);
    site := ans.site;
    if ans.where == Invalid {
      LostOnlyIfChanged(Examined(f), reg, EntrySp(f), f.fp);
    } else {
      FailsOnlyAtLimit(Examined(f), reg, EntrySp(f), f.fp);
    }
  }

  /** `st r14,r30,0` with r30 at 1008: r14 is found at 1008. */
  lemma FoundOffFramePointer()
    ensures var f := Frame([Insn(Saves, 14, 30, 0, 0, false)], 1, 1000, 1008, true);
      TextPresent(f) && Single(f, None, 14) == AtAddr(1008)
  {
    var code := [Insn(Saves, 14, 30, 0, 0, false)];
    var f := Frame(code, 1, 1000, 1008, true);
    assert Examined(f) == code;
    assert TrackStep(code, 0, 14, EntrySp(f), 1008) == Done(AtAddr(1008));
    assert Track(code, 0, 14, EntrySp(f), 1008).where == AtAddr(1008);
  }

  // ----- and over the chain -----

  /** What the function of frame k - 1 saved is found from frame k. */
  lemma SavedIsFoundFromCaller(frames: seq<Frame>, k: nat, site: nat, reg: Reg, count: nat)
    requires 0 < k <= |frames| && count + k <= 500 && reg != 0 && reg != 31
    requires TextPresent(frames[k - 1])
    requires var ex := Examined(frames[k - 1]); site < |ex| && Deciding(ex, site, reg) && SavedAtSite(ex, site, reg)
    ensures Lookup(AskFrames(frames), k, reg, count).0 == Single(frames[k - 1], CallerSp(frames, k - 1), reg)
    ensures Lookup(AskFrames(frames), k, reg, count).0.AtAddr?
  {
    FrameDecides(frames[k - 1], CallerSp(frames, k - 1), site, reg);
  }

  /** On a chain whose frames have their text, a lookup is given up only because some frame on its way has a
      cause to: it is that frame's answer. */
  lemma GivenUpOnlyIf(frames: seq<Frame>, k: nat, reg: Reg, count: nat) returns (j: nat, r: Reg, site: nat)
    requires 0 < k <= |frames| && count + k <= 500 && forall i :: 0 <= i < |frames| ==> TextPresent(frames[i])
    requires Lookup(AskFrames(frames), k, reg, count).0 in {Invalid, Failed}
    ensures j < k && OnPath(AskFrames(frames), k - 1, reg, j, r) && CauseAt(Examined(frames[j]), site, r)
  {
    hide CauseAt, Examined, Single, Follows, TextPresent;
    var r': nat;
    j, r' := ChaseEnds(AskFrames(frames), k - 1, reg, count + 1);
    OnPathInward(AskFrames(frames), k - 1, reg, j, r');
    r := r';
    site := AnswerLostOnlyIf(frames[j], CallerSp(frames, j), r);
  }
}
