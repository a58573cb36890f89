/** find_saved_register and find_saved_register_on_entry of findvar.c: composing one frame's answers
    over a chain of frames.  Frame 0 is the innermost; frame k was called by frame k + 1.  The
    machine-dependent question "where is this register's entry value?" is a parameter, as it is a
    macro in the source; FrameAnswers supplies the 88000's. */
module FrameChain {
  import opened M88k
  import opened SavedRegister

  const NUM_REGS: nat := 71
  const SYNTH_PC: nat := 32

  /** FRAME_FIND_SINGLE_SAVED_REG: frame index and register number to location. */
  type Ask = (nat, nat) -> Where

  // ----- the lookups, with the static recursion counter threaded through -----

  /** A lookup's result and the counter's value after it.  An error does not unwind the counter;
      the guard resets it. */
  function Lookup(ask: Ask, k: nat, regnum: nat, count: nat): (r: (Where, nat))
    ensures !r.0.Failed? ==> r.1 == count
    decreases if regnum >= NUM_REGS then 1 else 0, k, 0
  {
    if count > 500 then (Failed, 0)
    else
      var (w, c) :=
        if regnum >= NUM_REGS then LookupOnEntry(ask, k, regnum - (NUM_REGS - 2), count + 1)
        else if k == 0 then (InReg(regnum), count + 1)
        else Chase(ask, k - 1, if regnum == SYNTH_PC then R1 else regnum, count + 1);
      if w.Failed? then (w, c) else (w, c - 1)
  }

  function LookupOnEntry(ask: Ask, k: nat, regnum: nat, count: nat): (r: (Where, nat))
    ensures !r.0.Failed? ==> r.1 == count
    decreases 0, k, 2
  {
    if regnum >= NUM_REGS then (Failed, count)
    else Chase(ask, k, if regnum == SYNTH_PC then R1 else regnum, count)
  }

  /** Ask frame k where the register's entry value is; if that is another register, whose current
      value belongs to frame k, look that one up in turn. */
  function Chase(ask: Ask, k: nat, regnum: nat, count: nat): (r: (Where, nat))
    ensures !r.0.Failed? ==> r.1 == count
    decreases 0, k, 1
  {
    match ask(k, regnum)
    case InReg(r) => if 1 < r < 32 then Lookup(ask, k, r, count) else (InReg(r), count)
    case w => (w, count)
  }

  class RegisterFinder {
    const ask: Ask
    var recursionCount: nat

    constructor (ask: Ask)
      ensures this.ask == ask && recursionCount == 0
    {
      this.ask := ask;
      recursionCount := 0;
    }

    method FindSavedRegister(k: nat, regnum: nat) returns (w: Where)
      modifies this
      ensures (w, recursionCount) == Lookup(ask, k, regnum, old(recursionCount))
      decreases if regnum >= NUM_REGS then 1 else 0, k, 0
    {
      if recursionCount > 500 {
        recursionCount := 0;
        return Failed;
      }
      recursionCount := recursionCount + 1;
      if regnum >= NUM_REGS {
        w := FindSavedRegisterOnEntry(k, regnum - (NUM_REGS - 2));
      } else if k == 0 {
        w := InReg(regnum);
      } else {
        w := ask(k - 1, if regnum == SYNTH_PC then R1 else regnum);
        if w.InReg? && 1 < w.r < 32 {
          w := FindSavedRegister(k - 1, w.r);
        }
      }
      if !w.Failed? {
        recursionCount := recursionCount - 1;
      }
    }

    method FindSavedRegisterOnEntry(k: nat, regnum: nat) returns (w: Where)
      modifies this
      ensures (w, recursionCount) == LookupOnEntry(ask, k, regnum, old(recursionCount))
      decreases 0, k, 2
    {
      if regnum >= NUM_REGS {
        return Failed;
      }
      w := ask(k, if regnum == SYNTH_PC then R1 else regnum);
      if w.InReg? && 1 < w.r < 32 {
        w := FindSavedRegister(k, w.r);
      }
    }
  }

  // ----- soundness over the whole chain -----

  /** What one activation found on entry and what it left when it called the next, or stopped. */
  datatype Activation = Activation(entry: State, exit: State)

  /** The activation at k - 1 was entered with what its caller at k had left, but for r1, set by the call. */
  ghost predicate LinkedAt(acts: seq<Activation>, k: nat)
    requires 0 < k < |acts|
  {
    forall r: Reg :: r != R1 ==> acts[k - 1].entry.regs[r] == acts[k].exit.regs[r]
  }

  ghost predicate Linked(acts: seq<Activation>) {
    && acts != []
    && (forall k :: 0 <= k < |acts| ==> Valid(acts[k].entry) && Valid(acts[k].exit))
    && forall k :: 0 < k < |acts| ==> LinkedAt(acts, k)
  }

  /** Frame k's answer about `reg` is right in the state frame k left, a save slot it names still
      holds its word now, and only the innermost frame may say that r1 has not been saved. */
  ghost predicate AnswerSound(ask: Ask, acts: seq<Activation>, k: nat, reg: Reg)
    requires k < |acts|
  {
    var w := ask(k, reg);
    && Holds(w, acts[k].exit, acts[k].entry.regs[reg])
    && (w.AtAddr? ==> acts[0].exit.mem(w.a) == acts[k].exit.mem(w.a))
    && (k > 0 ==> w != InReg(R1))
  }

  /** The answers on the way of a chase for `reg` from frame k are sound; no others need be. */
  ghost predicate PathSound(ask: Ask, acts: seq<Activation>, k: nat, reg: Reg)
    requires k < |acts|
    decreases k
  {
    && AnswerSound(ask, acts, k, reg)
    && var w := ask(k, reg);
    (k > 0 && w.InReg? && 1 < w.r < 32 ==> PathSound(ask, acts, k - 1, w.r))
  }

  /** The value of `reg` in frame k: what the frame it called found there on entry. */
  ghost function ValueIn(acts: seq<Activation>, k: nat, reg: Reg): Word
    requires k < |acts|
  {
    if k == 0 then acts[0].exit.regs[reg] else acts[k - 1].entry.regs[reg]
  }

  /** Chasing from frame k finds what frame k's function was entered with, or reports an error. */
  lemma {:induction false} ChaseSound(ask: Ask, acts: seq<Activation>, k: nat, reg: Reg, count: nat)
    requires Linked(acts) && k < |acts| && PathSound(ask, acts, k, reg)
    ensures Holds(Chase(ask, k, reg, count).0, acts[0].exit, acts[k].entry.regs[reg])
    decreases k
  {
    var w := ask(k, reg);
    if w.InReg? && 1 < w.r {
      assert k > 0 ==> LinkedAt(acts, k);
      assert acts[k].exit.regs[w.r] == acts[k].entry.regs[reg];
      if k > 0 && count <= 500 {
        ChaseSound(ask, acts, k - 1, w.r, count + 1);
      }
    }
  }

  /** Over a chain of any length, find_saved_register answers with a location that now holds the
      register's value in the frame asked for. */
  lemma {:induction false} LookupSound(ask: Ask, acts: seq<Activation>, k: nat, reg: Reg, count: nat)
    requires Linked(acts) && k < |acts| && (k > 0 ==> PathSound(ask, acts, k - 1, reg))
    ensures Holds(Lookup(ask, k, reg, count).0, acts[0].exit, ValueIn(acts, k, reg))
  {
    hide Linked, PathSound;
    if k > 0 && count <= 500 {
      ChaseSound(ask, acts, k - 1, reg, count + 1);
    }
  }

  /** The pc of a caller is what its callee found in r1. */
  lemma {:induction false} CallerPcIsReturnAddress(ask: Ask, acts: seq<Activation>, k: nat, count: nat)
    requires Linked(acts) && 0 < k < |acts| && PathSound(ask, acts, k - 1, R1)
    ensures Holds(Lookup(ask, k, SYNTH_PC, count).0, acts[0].exit, acts[k - 1].entry.regs[R1])
  {
    if count <= 500 {
      ChaseSound(ask, acts, k - 1, R1, count + 1);
    }
  }

  /** Register numbers from 71 up name the value a register had on entry to the frame itself. */
  lemma {:induction false} ParameterLookupSound(ask: Ask, acts: seq<Activation>, k: nat, reg: Reg, count: nat)
    requires Linked(acts) && k < |acts| && 2 <= reg && PathSound(ask, acts, k, reg)
    ensures Holds(Lookup(ask, k, reg + (NUM_REGS - 2), count).0, acts[0].exit, acts[k].entry.regs[reg])
  {
    if count <= 500 {
      ChaseSound(ask, acts, k, reg, count + 1);
    }
  }

  /** The lookup moves one frame inward per call, so the guard cannot trip on a chain that leaves it
      room, whatever registers the answers name. */
  lemma {:induction false} GuardNeverTrips(ask: Ask, k: nat, regnum: nat, count: nat)
    requires regnum < NUM_REGS && count + k <= 500
    requires forall j: nat, r: nat :: j < k ==> ask(j, r) != Failed
    ensures !Lookup(ask, k, regnum, count).0.Failed?
    decreases k
  {
    if k > 0 {
      var w := ask(k - 1, if regnum == SYNTH_PC then R1 else regnum);
      if w.InReg? && 1 < w.r < 32 {
        GuardNeverTrips(ask, k - 1, w.r, count + 1);
      }
    }
  }

  // ----- no answer is lost -----

  /** Chasing `reg` from frame k asks frame j about `r`. */
  predicate OnPath(ask: Ask, k: nat, reg: nat, j: nat, r: nat)
    decreases k
  {
    || (j == k && r == reg)
    || (k > 0 && ask(k, reg).InReg? && 1 < ask(k, reg).r < 32 && OnPath(ask, k - 1, ask(k, reg).r, j, r))
  }

  lemma {:induction false} OnPathInward(ask: Ask, k: nat, reg: nat, j: nat, r: nat)
    requires OnPath(ask, k, reg, j, r)
    ensures j <= k && (reg < 32 ==> r < 32)
    decreases k
  {
    if !(j == k && r == reg) {
      OnPathInward(ask, k - 1, ask(k, reg).r, j, r);
    }
  }

  /** With room for the chain, a chase gives just the last answer on its way: the first to be no register that
      is to be looked for in the next frame in, or the innermost frame's. */
  lemma {:induction false} ChaseEnds(ask: Ask, k: nat, reg: nat, count: nat) returns (j: nat, r: nat)
    requires count + k <= 500
    ensures OnPath(ask, k, reg, j, r) && Chase(ask, k, reg, count).0 == ask(j, r)
    ensures j == 0 || !(ask(j, r).InReg? && 1 < ask(j, r).r < 32)
    decreases k
  {
    var w := ask(k, reg);
    if k > 0 && w.InReg? && 1 < w.r < 32 {
      j, r := ChaseEnds(ask, k - 1, w.r, count + 1);
    } else {
      j, r := k, reg;
    }
  }

  /** Every answer on the way of a chase is one. */
  predicate PathAnswered(ask: Ask, k: nat, reg: nat)
    decreases k
  {
    var w := ask(k, reg);
    w != Invalid && w != Failed && (k > 0 && w.InReg? && 1 < w.r < 32 ==> PathAnswered(ask, k - 1, w.r))
  }

  lemma {:induction false} PathAnsweredOn(ask: Ask, k: nat, reg: nat, j: nat, r: nat)
    requires PathAnswered(ask, k, reg) && OnPath(ask, k, reg, j, r)
    ensures ask(j, r) != Invalid && ask(j, r) != Failed
    decreases k
  {
    if !(j == k && r == reg) {
      PathAnsweredOn(ask, k - 1, ask(k, reg).r, j, r);
    }
  }

  /** The lookups then give one too: of a register in a frame, of the pc, and of a value on entry. */
  lemma {:induction false} NoAnswerLost(ask: Ask, k: nat, regnum: nat, count: nat)
    requires count + k <= 500 && regnum < NUM_REGS
    requires PathAnswered(ask, k, if regnum == SYNTH_PC then R1 else regnum)
    ensures count + k < 500 ==> Lookup(ask, k + 1, regnum, count).0 != Invalid && !Lookup(ask, k + 1, regnum, count).0.Failed?
    ensures LookupOnEntry(ask, k, regnum, count).0 != Invalid && !LookupOnEntry(ask, k, regnum, count).0.Failed?
  {
    var reg := if regnum == SYNTH_PC then R1 else regnum;
    var j, r := ChaseEnds(ask, k, reg, count);
    PathAnsweredOn(ask, k, reg, j, r);
    if count + k < 500 {
      j, r := ChaseEnds(ask, k, reg, count + 1);
      PathAnsweredOn(ask, k, reg, j, r);
    }
  }

  /** In a chain that keeps a register in another all the way, the guard trips just when more than 500 lookups
      are under way. */
  lemma {:induction false} GuardTripsExactly(ask: Ask, k: nat, reg: nat, count: nat)
    requires 1 < reg < 32 && forall j: nat, r: nat :: ask(j, r) == InReg(reg)
    ensures Lookup(ask, k, reg, count).0 == if count + k > 500 then Failed else InReg(reg)
    ensures count + k > 500 ==> Lookup(ask, k, reg, count).1 == 0
    decreases k
  {
    if k > 0 && count <= 500 {
      GuardTripsExactly(ask, k - 1, reg, count + 1);
    }
  }

  /** Wherever frame k - 1's answer that `reg` is in its r1 holds, the lookup from frame k is right. */
  ghost predicate UnsavedR1Found(ask: Ask, acts: seq<Activation>, k: nat, reg: Reg, count: nat)
    requires 0 < k
  {
    Linked(acts) && k < |acts| && Holds(InReg(R1), acts[k - 1].exit, acts[k - 1].entry.regs[reg]) ==>
      Holds(Lookup(ask, k, reg, count).0, acts[0].exit, ValueIn(acts, k, reg))
  }

  /** An r1 left unsaved is not chased: the lookup reads the innermost frame's, whoever answered.  It
      is right on every chain exactly if the innermost frame was the one that answered. */
  lemma {:induction false} UnsavedR1IsNotChased(ask: Ask, k: nat, reg: Reg, count: nat)
    requires 0 < k && count <= 500 && ask(k - 1, reg) == InReg(R1)
    ensures (forall acts :: UnsavedR1Found(ask, acts, k, reg, count)) <==> k == 1
  {
    assert Lookup(ask, k, reg, count).0 == InReg(R1);
    if k > 1 {
      var acts := R1SinceChanged(k);
      assert acts[k - 1].entry.regs[reg] == 0 == acts[k - 1].exit.regs[R1];
      assert !UnsavedR1Found(ask, acts, k, reg, count);
    }
  }

  predicate AllZero(s: State) {
    forall r: Reg :: s.regs[r] == 0
  }

  /** A chain of registers that are all zero but for the r1 that frame 0 has set since it was called. */
  function R1SinceChanged(k: nat): (acts: seq<Activation>)
    requires 1 < k
    ensures Linked(acts) && k < |acts|
    ensures AllZero(acts[k - 1].entry) && AllZero(acts[k - 1].exit)
    ensures acts[0].exit.regs[R1] == 1
  {
    var zero: Regs := seq(32, _ => 0);
    var s := State(zero, _ => 0);
    [Activation(s, State(zero[R1 := 1], _ => 0))] + seq(k, _ => Activation(s, s))
  }
}
