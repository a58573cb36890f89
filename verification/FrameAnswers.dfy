/** The 88000's answers, and the chain theorem for real frames. */
module FrameAnswers {
  import opened M88k
  import opened StackPointer
  import opened SavedRegister
  import opened FrameChain
  import opened Wrappers

  /** The calling frame's stack pointer, if that frame is in the cache. */
  function CallerSp(frames: seq<Frame>, k: nat): Option<Word> {
    if k + 1 < |frames| then Some(frames[k + 1].sp) else None
  }

  function AskFrames(frames: seq<Frame>): Ask {
    (k: nat, reg: nat) =>
      if k < |frames| && TextPresent(frames[k]) then Single(frames[k], CallerSp(frames, k), reg) else Failed
  }

  ghost function Activations(runs: seq<seq<State>>): seq<Activation>
    requires forall k :: 0 <= k < |runs| ==> runs[k] != []
  {
    seq(|runs|, k requires 0 <= k < |runs| => Activation(runs[k][0], runs[k][|runs[k]| - 1]))
  }

  /** Frame k records a run of its function, with the answer for `reg` trackable in it; the next
      outer frame's stack pointer, if cached, was got from it as m88k_init_extra_frame_info does. */
  ghost predicate FrameRecorded(frames: seq<Frame>, runs: seq<seq<State>>, k: nat, reg: Reg)
    requires k < |frames| == |runs|
  {
    && Faithful(frames[k], runs[k]) && StandsAtBoundary(frames[k])
    && (k + 1 < |frames| ==> frames[k + 1].sp == PreviousSp(frames[k].code[..frames[k].pc], frames[k].sp))
    && (reg != 0 && reg != SP ==> Trackable(frames[k], runs[k], reg))
  }

  /** Along the chase for `reg` from frame k the frames are so recorded, a save slot named still holds
      its word, and the innermost frame alone has left a value in r1. */
  ghost predicate PathRecorded(frames: seq<Frame>, runs: seq<seq<State>>, k: nat, reg: Reg)
    requires k < |frames| == |runs| && forall j :: 0 <= j < |runs| ==> runs[j] != []
    decreases k
  {
    && FrameRecorded(frames, runs, k, reg)
    && var acts, w := Activations(runs), AskFrames(frames)(k, reg);
    && (w.AtAddr? ==> acts[0].exit.mem(w.a) == acts[k].exit.mem(w.a))
    && (k > 0 ==> w != InReg(R1))
    && (k > 0 && w.InReg? && 1 < w.r < 32 ==> PathRecorded(frames, runs, k - 1, w.r))
  }

  lemma {:induction false} FrameAnswerSound(frames: seq<Frame>, runs: seq<seq<State>>, k: nat, reg: Reg)
    requires k < |frames| == |runs| && FrameRecorded(frames, runs, k, reg)
    ensures Holds(AskFrames(frames)(k, reg), runs[k][|runs[k]| - 1], runs[k][0].regs[reg])
  {
    SingleSound(frames[k], CallerSp(frames, k), runs[k], reg);
  }

  lemma {:induction false} RecordedPathSound(frames: seq<Frame>, runs: seq<seq<State>>, k: nat, reg: Reg)
    requires k < |frames| == |runs| && forall j :: 0 <= j < |runs| ==> runs[j] != []
    requires PathRecorded(frames, runs, k, reg)
    ensures PathSound(AskFrames(frames), Activations(runs), k, reg)
    decreases k
  {
    FrameAnswerSound(frames, runs, k, reg);
    var w := AskFrames(frames)(k, reg);
    if k > 0 && w.InReg? && 1 < w.r < 32 {
      RecordedPathSound(frames, runs, k - 1, w.r);
    }
  }

  /** The whole unwinder: on a chain of real frames a register lookup is right, if the frames its chase
      goes through are recorded and what they name has been kept. */
  lemma {:induction false} UnwinderSound(frames: seq<Frame>, runs: seq<seq<State>>, k: nat, reg: Reg, count: nat)
    requires k < |frames| == |runs| && (forall j :: 0 <= j < |runs| ==> runs[j] != []) && Linked(Activations(runs))
    requires k > 0 ==> PathRecorded(frames, runs, k - 1, reg)
    ensures var acts := Activations(runs);
      Holds(Lookup(AskFrames(frames), k, reg, count).0, acts[0].exit, ValueIn(acts, k, reg))
  {
    if k > 0 {
      RecordedPathSound(frames, runs, k - 1, reg);
    }
    LookupSound(AskFrames(frames), Activations(runs), k, reg, count);
  }

  // ----- an r1 that was not saved -----

  /** Registers all zero but for the stack pointer, and r1. */
  function Standing(r1: Word): State {
    var zero: Regs := seq(32, _ => 0);
    State(zero[SP := 1000][R1 := r1], _ => 0)
  }

  /** A function that has called without having saved its r1, as before a call that does not come back. */
  function Caller(): Frame {
    Frame([Insn(Call, 0, 0, 0, 0, false)], 1, 1000, 0, false)
  }

  /** Frame 0 has just been entered from frame 1, and that, with its r1 unsaved, from frame 2. */
  function NoReturnFrames(): seq<Frame> {
    [Frame([Insn(Plain, 0, 0, 0, 0, false)], 0, 1000, 0, true), Caller(), Caller()]
  }

  function NoReturnRuns(): seq<seq<State>> {
    [[Standing(4)], [Standing(8)], [Standing(12)]]
  }

  lemma CallerAnswers(sp: Option<Word>)
    ensures TextPresent(Caller()) && Examined(Caller()) == [] && StandsAtBoundary(Caller())
    ensures Single(Caller(), sp, R1) == InReg(R1) && PreviousSp(Caller().code[..1], 1000) == 1000
  {
    var c := Caller().code;
    assert c[..1] == c && c[..0] == [];
    assert PreviousSp(c, 1000) == PreviousSp(c[..0], 1000);
  }

  lemma EmptyRun(f: Frame, r1: Word)
    requires TextPresent(f) && Examined(f) == [] && f.sp == 1000
    ensures Faithful(f, [Standing(r1)]) && Trackable(f, [Standing(r1)], R1)
  {
    assert Runs([], [Standing(r1)]);
  }

  /** Each of the frames is recorded with its run, and frame 1 says that its caller's pc is in r1.  Frame 2's pc
      is then taken to be 4, which is where frame 0 returns to; it is 8. */
  lemma UnsavedR1Misread()
    ensures var frames, runs := NoReturnFrames(), NoReturnRuns();
      var ask, acts := AskFrames(frames), Activations(runs);
      && Linked(acts) && (forall k: nat :: k < 3 ==> FrameRecorded(frames, runs, k, R1))
      && ask(1, R1) == InReg(R1) && Lookup(ask, 2, SYNTH_PC, 0).0 == InReg(R1)
      && acts[0].exit.regs[R1] == 4 && ValueIn(acts, 2, R1) == 8
  {
    var frames, runs := NoReturnFrames(), NoReturnRuns();
    var acts := Activations(runs);
    CallerAnswers(Some(1000));
    CallerAnswers(None);
    EmptyRun(frames[0], 4);
    EmptyRun(frames[1], 8);
    EmptyRun(frames[2], 12);
    assert frames[0].code[..0] == [];
    assert LinkedAt(acts, 1) && LinkedAt(acts, 2);
    forall k: nat | k < 3
      ensures FrameRecorded(frames, runs, k, R1)
    {
      hide Faithful, Trackable;
      assert k == 0 || k == 1 || k == 2;
    }
  }
}
