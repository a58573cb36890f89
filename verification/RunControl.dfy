/** infrun.c: resuming the inferior, deciding what each of its stops means, and taking the
    breakpoints out again.  What the inferior does between a resume and the next stop is an event
    given from outside. */
module RunControl {
  import opened Breakpoints
  import opened Wrappers

  const SIGILL: int := 4
  const SIGTRAP: int := 5
  const SIGEMT: int := 7
  const SIGSEGV: int := 11

  /** Where the inferior is, with what the symbol tables say of it; funcStart is 0 if unknown. */
  datatype Place = Place(pc: int, sp: int, funcStart: int, inSigtramp: bool)

  /** How the inferior stopped.  `passes` numbers the breakpoints whose frame and condition are
      satisfied there, `writes` is what it stored while it ran. */
  datatype Stop =
    | Gone
    | Stopped(signal: int, at: Place, frame: int, passes: set<int>, signalStops: bool, writes: Memory,
              inDummy: bool, hasSymbol: bool, savedPc: int, prologueEnd: int)

  /** One resumption, as it was made.  `over` tells that it is to get past one instruction with the
      breakpoints out, `startUp` that the program is not yet running under its shell. */
  datatype Resumption = Resumption(step: bool, over: bool, startUp: bool, chain: Chain, mem: Memory, clean: Memory, stepAddress: int)

  datatype Outcome = Break | FallThrough

  /** The state that decides how a stop comes out. */
  datatype Standing = Standing(log: seq<Resumption>, chain: Chain, traps: int, shell: bool, address: int, duplicate: bool, shadow: int,
                               wasIn: bool, stepping: bool, signalStops: bool, runsOn: bool, runsOnTo: int,
                               ends: bool, goesOn: bool)

  predicate Holds(mem: Memory, a: int) {
    a in mem && mem[a] == BREAK_INSN
  }

  /** Running freely, the inferior meets a breakpoint instruction at every enabled breakpoint that
      stands for its address, and at the step-resume address unless that is left to an enabled breakpoint;
      getting past an instruction, it meets only its own. */
  predicate Safe(r: Resumption) {
    && (!r.step && !r.startUp ==>
          AllIn(r.chain, r.mem) && (r.stepAddress != 0 ==> Holds(r.mem, r.stepAddress) || Here(r.chain, r.stepAddress)))
    && (r.over && !r.startUp ==> r.mem == r.clean)
  }

  predicate AllSafe(log: seq<Resumption>) {
    forall i :: 0 <= i < |log| ==> Safe(log[i])
  }

  /** Nothing that the program should stop for is out of its way. */
  predicate MeetsAll(r: Resumption) {
    !r.step && !r.startUp ==>
      && (forall i :: 0 <= i < |r.chain| && On(r.chain[i]) ==> Holds(r.mem, r.chain[i].address))
      && (r.stepAddress != 0 ==> Holds(r.mem, r.stepAddress))
  }

  /** So the program cannot run freely past an enabled breakpoint, nor past the step-resume address, where
      the marks are right. */
  lemma RunsIntoEveryBreakpoint(r: Resumption)
    requires Safe(r) && AllMarked(r.chain)
    ensures MeetsAll(r)
  {
    if !r.step && !r.startUp {
      forall i | 0 <= i < |r.chain| && On(r.chain[i])
        ensures Holds(r.mem, r.chain[i].address)
      {
        AllEnabledIn(r.chain, r.mem, i);
      }
    }
  }

  predicate NoneStartUp(log: seq<Resumption>, from: nat) {
    forall i :: from <= i < |log| ==> !log[i].startUp
  }

  predicate IsTrap(e: Stop) {
    e.Stopped? && e.signal == SIGTRAP
  }

  /** No stop by a trap after the first stop, up to the k-th. */
  predicate NoTrapUpTo(events: seq<Stop>, k: int) {
    forall j :: 1 <= j <= k && j < |events| ==> !IsTrap(events[j])
  }

  /** Start-up is over with the first trap after the first stop. */
  predicate StartUpEnds(log: seq<Resumption>, from: nat, events: seq<Stop>) {
    forall i :: from <= i < |log| && log[i].startUp ==> NoTrapUpTo(events, i - from)
  }

  predicate AllKeepMarks(log: seq<Resumption>, from: nat) {
    forall i :: from <= i < |log| ==> AllMarked(log[i].chain)
  }

  predicate AllMeetAll(log: seq<Resumption>, from: nat) {
    forall i :: from <= i < |log| ==> MeetsAll(log[i])
  }

  /** In a whole run whose resumptions are safe and keep the marks, no free resumption gets past an enabled
      breakpoint, temporary, ignored or conditional as it may be, nor past the step-resume address. */
  lemma FreeRunsMeetEveryBreakpoint(log: seq<Resumption>, from: nat)
    requires AllSafe(log) && AllKeepMarks(log, from)
    ensures AllMeetAll(log, from)
  {
    forall i | from <= i < |log|
      ensures MeetsAll(log[i])
    {
      RunsIntoEveryBreakpoint(log[i]);
    }
  }

  lemma LogGrows(was: seq<Resumption>, now: seq<Resumption>, from: nat, events: seq<Stop>)
    requires |now| == |was| + 1 && now[..|was|] == was && from <= |was|
    ensures NoneStartUp(was, from) && !now[|was|].startUp ==> NoneStartUp(now, from)
    ensures StartUpEnds(was, from, events) && (now[|was|].startUp ==> NoTrapUpTo(events, |was| - from)) ==>
      StartUpEnds(now, from, events)
    ensures AllKeepMarks(was, from) && AllMarked(now[|was|].chain) ==> AllKeepMarks(now, from)
  {
    hide AllMarked, NoTrapUpTo;
    assert forall i :: 0 <= i < |was| ==> now[i] == now[..|was|][i];
  }

  /** The chain with every breakpoint out. */
  function Out(chain: Chain): Chain {
    seq(|chain|, i requires 0 <= i < |chain| => chain[i].(inserted := false))
  }

  /** The same words, except at some addresses. */
  predicate SameBut(was: Memory, now: Memory, except: set<int>) {
    was.Keys == now.Keys && forall a :: a in now && a !in except ==> now[a] == was[a]
  }

  lemma StoresSameBut(was: Memory, now: Memory, except: set<int>, stores: Memory)
    requires SameBut(was, now, except)
    ensures SameBut(was + stores, now + stores, except)
  {
  }

  /** An enabled breakpoint stands at `a`. */
  predicate Here(chain: Chain, a: int) {
    exists i :: 0 <= i < |chain| && OnAt(chain[i], a)
  }

  lemma {:induction false} NoneHere(chain: Chain, pc: int, passes: set<int>, i: nat)
    requires i <= |chain| && !Here(chain, Align(pc))
    ensures StopStatus(chain, pc, passes, i) == (chain, 0, [])
    decreases |chain| - i
  {
    if i < |chain| {
      assert !OnAt(chain[i], Align(pc));
      NoneHere(chain, pc, passes, i + 1);
    }
  }

  /** No other addresses, and none newly enabled. */
  predicate NoneAdded(was: Chain, now: Chain) {
    |was| == |now| && forall i :: 0 <= i < |was| ==> now[i].address == was[i].address && (On(now[i]) ==> On(was[i]))
  }

  /** No breakpoint is enabled or in memory at `a`. */
  predicate NoneAt(chain: Chain, a: int) {
    forall i :: 0 <= i < |chain| && (On(chain[i]) || chain[i].inserted) ==> chain[i].address != a
  }

  predicate InsertedOn(chain: Chain) {
    forall i :: 0 <= i < |chain| && chain[i].inserted ==> On(chain[i])
  }

  predicate SameButInserted(was: Chain, now: Chain) {
    |was| == |now| && forall i :: 0 <= i < |was| ==> now[i] == was[i].(inserted := now[i].inserted, shadow := now[i].shadow)
  }

  lemma SameButInsertedKeeps(was: Chain, now: Chain, mem: Memory)
    requires SameButInserted(was, now)
    ensures OneFirst(was) ==> OneFirst(now)
    ensures AllMarked(was) ==> AllMarked(now)
    ensures Mapped(was, mem) ==> Mapped(now, mem)
    ensures NumbersOk(was) ==> NumbersOk(now)
    ensures NoneTemporary(was) ==> NoneTemporary(now)
  {
    if OneFirst(was) {
      forall p, q | 0 <= p < q < |now| && On(now[p]) && OnAt(now[q], now[p].address)
        ensures now[q].duplicate
      {
        assert On(was[p]) && OnAt(was[q], was[p].address);
      }
    }
    if AllMarked(was) {
      forall i | 0 <= i < |now|
        ensures MarkedRight(now, i)
      {
        assert MarkedRight(was, i);
        EarlierLike(was, now, i);
      }
    }
  }

  lemma SameModesKeepMarks(was: Chain, now: Chain)
    requires Alike(was, now) && AllMarked(was)
    requires forall k :: 0 <= k < |was| ==> now[k].enable == was[k].enable
    ensures AllMarked(now)
  {
    forall i | 0 <= i < |now|
      ensures MarkedRight(now, i)
    {
      assert MarkedRight(was, i);
      EarlierLike(was, now, i);
    }
  }

  lemma SameIsSame(chain: Chain)
    ensures SameButInserted(chain, chain)
  {
  }

  lemma SameButInsertedLasts(was: Chain, now: Chain)
    requires SameButInserted(was, now)
    ensures Lasting(was) ==> Lasting(now)
    ensures forall a :: Here(was, a) <==> Here(now, a)
    ensures NoneAdded(was, now)
  {
    SameButInsertedKeeps(was, now, map[]);
    forall a
      ensures Here(was, a) <==> Here(now, a)
    {
      if Here(was, a) {
        var i :| 0 <= i < |was| && OnAt(was[i], a);
        assert OnAt(now[i], a);
      }
      if Here(now, a) {
        var i :| 0 <= i < |now| && OnAt(now[i], a);
        assert OnAt(was[i], a);
      }
    }
  }

  lemma SameModesStillHere(was: Chain, now: Chain)
    requires Alike(was, now)
    requires forall k :: 0 <= k < |was| ==> now[k].enable == was[k].enable
    ensures InsertedOn(was) ==> InsertedOn(now)
    ensures forall a :: Here(was, a) ==> Here(now, a)
  {
    forall a | Here(was, a)
      ensures Here(now, a)
    {
      var i :| 0 <= i < |was| && OnAt(was[i], a);
      assert OnAt(now[i], a);
    }
  }

  lemma SameLength(was: Chain, now: Chain)
    requires Alike(was, now)
    ensures |now| == |was|
  {
  }

  lemma AlikeAligned(was: Chain, now: Chain)
    requires Alike(was, now)
    ensures Aligned(was) ==> Aligned(now)
    ensures forall a :: NoneAt(was, a) ==> NoneAt(now, a)
  {
  }

  /** Without temporary breakpoints no mode is changed by a stop. */
  lemma AlikeLasts(was: Chain, now: Chain)
    requires Alike(was, now) && Lasting(was)
    ensures Lasting(now)
  {
    SameModesKeepMarks(was, now);
  }

  /** What inserting leaves as it was. */
  lemma PutIn(was: Chain, now: Chain, clean: Memory)
    requires |now| == |was| && Mapped(was, clean) && NoneInserted(was)
    requires forall i :: 0 <= i < |now| ==>
      now[i] == if On(was[i]) && !was[i].duplicate then was[i].(inserted := true, shadow := clean[was[i].address]) else was[i]
    ensures SameButInserted(was, now) && InsertedOn(now) && (Aligned(was) ==> Aligned(now))
    ensures forall a :: NoneAt(was, a) ==> NoneAt(now, a)
  {
  }

  /** Addresses that the inferior is taken to leave alone. */
  function Addresses(chain: Chain): set<int> {
    set i | 0 <= i < |chain| :: chain[i].address
  }

  /** An address where code can be; 0 stands for none. */
  predicate TextAddress(a: int, words: set<int>) {
    a in words && a % 4 == 0 && a != 0
  }

  predicate EventOk(e: Stop, words: set<int>) {
    e.Stopped? ==> TextAddress(e.at.pc, words) && TextAddress(e.savedPc, words) && TextAddress(e.prologueEnd, words)
  }

  lemma EventAddress(e: Stop, words: set<int>)
    requires e.Stopped? && EventOk(e, words)
    ensures TextAddress(e.at.pc, words)
  {
  }

  /** What the inferior stores where no breakpoint is concerned. */
  function Stores(writes: Memory, mem: Memory, words: set<int>): (r: Memory)
    ensures r.Keys <= mem.Keys && r.Keys !! words && (writes == map[] ==> r == map[])
  {
    map a | a in writes && a in mem && a !in words :: writes[a]
  }

  lemma MappedBy(chain: Chain, mem: Memory, now: Memory)
    requires mem.Keys <= now.Keys
    ensures Mapped(chain, mem) ==> Mapped(chain, now)
  {
  }

  /** Storing the same words, none of them patched, in memory and in what it would have been. */
  lemma StoresKeepSynced(chain: Chain, mem: Memory, clean: Memory, others: set<int>, stores: Memory)
    requires Synced(chain, mem, clean, others) && stores.Keys <= mem.Keys && stores.Keys !! others
    requires stores.Keys !! Addresses(chain)
    ensures Synced(chain, mem + stores, clean + stores, others)
    ensures AllIn(chain, mem) ==> AllIn(chain, mem + stores)
  {
    forall i | 0 <= i < |chain|
      ensures chain[i].address !in stores
    {
      assert chain[i].address in Addresses(chain);
    }
    forall a | a in mem && Inserted(chain, a)
      ensures a !in stores
    {
    }
  }

  lemma PatchOther(chain: Chain, mem: Memory, clean: Memory, a: int)
    requires Synced(chain, mem, clean, {}) && a in mem && NoneAt(chain, a)
    ensures Synced(chain, mem[a := BREAK_INSN], clean, {a}) && mem[a] == clean[a]
    ensures AllIn(chain, mem) ==> AllIn(chain, mem[a := BREAK_INSN])
  {
    assert !Inserted(chain, a);
  }

  lemma UnpatchOther(chain: Chain, mem: Memory, clean: Memory, a: int)
    requires Synced(chain, mem, clean, {a}) && a in mem
    ensures Synced(chain, mem[a := clean[a]], clean, {})
    ensures AllIn(chain, mem) && NoneAt(chain, a) ==>
      AllIn(chain, mem[a := clean[a]])
  {
    assert !Inserted(chain, a);
  }

  class Controller {
    const table: BreakpointTable
    var alive: bool
    var breakpointsInserted: bool
    var trapExpected: int
    var anotherTrap: bool
    var runningInShell: bool
    var stopAfterTrap: bool
    var stopAfterAttach: bool
    var pcChanged: bool
    var stepRangeStart: int
    var stepRangeEnd: int
    var stepFrameAddress: int
    var stepOverCalls: int
    var stepAddress: int           // step_resume_break_address, 0 for none
    var stepShadow: int
    var stepDuplicate: bool
    var removeOnFollowingStep: bool
    var stopSignal: int
    var stopBreakpoint: int
    var stopStepResume: bool
    var stopStep: bool
    var stopStackDummy: bool
    var randomSignal: bool
    var prologuePc: int
    var prev: Place
    ghost var stepIn: bool         // the step-resume breakpoint is in memory
    ghost var stepWasIn: bool      // it has been there since it was set
    ghost var log: seq<Resumption>
    ghost var marksGood: bool      // the duplicate marks were right when the run began
    ghost var untouched: Memory    // what memory would hold had the debugger never written to it
    ghost var spoiled: set<int>    // where a word was left behind that the program did not store

    ghost function Others(): set<int>
      reads `stepIn, `stepAddress
    {
      if stepIn then {stepAddress} else {}
    }

    /** The step-resume breakpoint, where it is neither absent nor left to another breakpoint. */
    predicate OwnStep()
      reads `stepAddress, `stepDuplicate
    {
      stepAddress != 0 && !stepDuplicate
    }

    ghost predicate TableOk()
      reads table`chain, table`mem, table`clean, `stepIn, `stepAddress
    {
      && OneFirst(table.chain) && Mapped(table.chain, table.mem) && NumbersOk(table.chain) && Aligned(table.chain)
      && Synced(table.chain, table.mem, table.clean, Others())
    }

    ghost predicate StepOk()
      reads table`chain, table`mem, table`clean, `stepIn, `stepWasIn, `stepAddress, `stepDuplicate, `stepShadow
    {
      && (stepIn ==> stepWasIn)
      && (stepWasIn ==> OwnStep() && stepAddress in table.clean && stepShadow == table.clean[stepAddress])
      && (OwnStep() ==> stepAddress in table.mem && NoneAt(table.chain, stepAddress))
    }

    ghost predicate FlagOk()
      reads table`chain, table`mem, `stepIn, `stepAddress, `stepDuplicate, `breakpointsInserted
    {
      && (breakpointsInserted ==> AllIn(table.chain, table.mem) && (OwnStep() ==> stepIn))
      && (!breakpointsInserted ==> NoneInserted(table.chain) && !stepIn)
    }

    predicate RangeOk()
      reads `stepRangeStart, `stepRangeEnd, `removeOnFollowingStep
    {
      && (removeOnFollowingStep ==> stepRangeEnd != 0)
      && (stepRangeEnd != 0 ==> stepRangeStart != 0)
    }

    ghost predicate Core()
      reads table`chain, table`mem, table`clean, `stepIn, `stepWasIn, `stepAddress, `stepDuplicate, `stepShadow,
            `breakpointsInserted, `log
    {
      TableOk() && StepOk() && FlagOk() && AllSafe(log)
    }

    /** What holds besides until the run ends. */
    ghost predicate Steady()
      reads table`chain, `marksGood, `stepAddress, `stepDuplicate
    {
      && InsertedOn(table.chain) && (marksGood ==> AllMarked(table.chain))
      && (stepAddress != 0 && stepDuplicate ==> Here(table.chain, stepAddress))
    }

    /** But for the spoiled words, memory without breakpoints is as the program alone would have it. */
    ghost predicate Kept()
      reads table`clean, `untouched, `spoiled
    {
      SameBut(untouched, table.clean, spoiled)
    }

    /** What goes on adds to the log, and writes to no word of the program. */
    twostate predicate Carried()
      reads this, table
    {
      && AllSafe(log) && |log| >= |old(log)| && log[..|old(log)|] == old(log)
      && table.mem.Keys == old(table.mem).Keys && (old(Kept()) ==> Kept())
    }

    /** Marks that last do, in every resumption and after. */
    twostate predicate MarksLast()
      reads this, table
    {
      old(Lasting(table.chain)) ==> Lasting(table.chain) && AllKeepMarks(log, |old(log)|)
    }

    predicate Stepping()
      reads `stepAddress, `stepRangeEnd
    {
      stepAddress != 0 || stepRangeEnd != 0
    }

    /** What holds whenever the inferior has just been resumed. */
    ghost predicate Running()
      reads table`chain, table`mem, table`clean, `stepIn, `stepWasIn, `stepAddress, `stepDuplicate, `stepShadow,
            `breakpointsInserted, `stepRangeStart, `stepRangeEnd, `removeOnFollowingStep, `log,
            `prev, `trapExpected, `marksGood
    {
      && Core() && Steady() && RangeOk() && (stepRangeEnd != 0 ==> TextAddress(prev.pc, table.mem.Keys))
      && (trapExpected != 0 ==> !breakpointsInserted)
      && (stepAddress != 0 && trapExpected == 0 ==> breakpointsInserted)
    }

    constructor (table: BreakpointTable)
      ensures this.table == table && !breakpointsInserted && !alive && log == [] && !runningInShell && stepShadow == 0
      ensures !stopAfterTrap && !stopAfterAttach && !pcChanged && (ChainOk(table.chain, table.mem) ==> Settled())
      ensures stepAddress == 0 && trapExpected == 0 && stepRangeEnd == 0 && !stepIn && !stepWasIn && !removeOnFollowingStep
      ensures Kept() && spoiled == {}
    {
      this.table := table;
      alive, breakpointsInserted, trapExpected, anotherTrap := false, false, 0, false;
      runningInShell, stopAfterTrap, stopAfterAttach, pcChanged := false, false, false, false;
      stepRangeStart, stepRangeEnd, stepFrameAddress, stepOverCalls := 0, 0, 0, 0;
      stepAddress, stepShadow, stepDuplicate, removeOnFollowingStep := 0, 0, false, false;
      stopSignal, stopBreakpoint, stopStepResume, stopStep, stopStackDummy, randomSignal := 0, 0, false, false, false, false;
      prologuePc, prev := 0, Place(0, 0, 0, false);
      stepIn, stepWasIn, log, marksGood, untouched, spoiled := false, false, [], false, table.clean, {};
    }

    // ----- the step-resume breakpoint -----

    method InsertStepBreakpoint()
      requires TableOk() && StepOk() && !stepIn
      modifies table`mem, this`stepShadow, this`stepIn, this`stepWasIn
      ensures TableOk() && StepOk() && stepIn == OwnStep() && table.mem.Keys == old(table.mem).Keys
      ensures table.mem == if OwnStep() then old(table.mem)[stepAddress := BREAK_INSN] else old(table.mem)
      ensures AllIn(table.chain, old(table.mem)) ==> AllIn(table.chain, table.mem)
    {
      if stepAddress != 0 && !stepDuplicate {
        PatchOther(table.chain, table.mem, table.clean, stepAddress);
        stepShadow := table.mem[stepAddress];
        table.mem := table.mem[stepAddress := BREAK_INSN];
        stepIn, stepWasIn := true, true;
      }
    }

    /** Writes the shadow whether or not the breakpoint is in; where it has been in, that is what
        belongs there. */
    method RemoveStepBreakpoint()
      requires TableOk() && StepOk()
      modifies table`mem, this`stepIn
      ensures table.mem == if OwnStep() then old(table.mem)[stepAddress := stepShadow] else old(table.mem)
      ensures !stepIn && table.mem.Keys == old(table.mem).Keys
      ensures old(stepWasIn) || !OwnStep() ==> TableOk() && StepOk()
      ensures (old(stepWasIn) || !OwnStep()) && AllIn(table.chain, old(table.mem)) ==> AllIn(table.chain, table.mem)
    {
      if stepAddress != 0 && !stepDuplicate {
        if stepIn {
          UnpatchOther(table.chain, table.mem, table.clean, stepAddress);
        } else if stepWasIn {
          RewritesClean();
        }
        table.mem := table.mem[stepAddress := stepShadow];
        stepIn := false;
      }
    }

    lemma RewritesClean()
      requires TableOk() && StepOk() && !stepIn && stepWasIn
      ensures Synced(table.chain, table.mem[stepAddress := stepShadow], table.clean, {})
      ensures AllIn(table.chain, table.mem) ==> AllIn(table.chain, table.mem[stepAddress := stepShadow])
    {
      assert !Inserted(table.chain, stepAddress);
    }

    // ----- what a stop means -----

    /** The signal is one that a breakpoint instruction can cause, and no other trap is awaited. */
    predicate MaybeBreakpoint(e: Stop)
      requires e.Stopped?
      reads `breakpointsInserted, `trapExpected
    {
      if e.signal == SIGTRAP then trapExpected == 0
      else breakpointsInserted && (e.signal == SIGILL || e.signal == SIGEMT)
    }

    /** preliminary_trap_handler. */
    method PreliminaryTrapHandler(e: Stop) returns (what: Outcome)
      requires e.Stopped? && Core() && Steady()
      requires stopBreakpoint == 0 && !stopStepResume && stopSignal == e.signal && !randomSignal
      modifies table`chain, table`breakpointCommands, this`stopBreakpoint, this`stopStepResume, this`randomSignal, this`stopSignal
      ensures Core() && (stopBreakpoint == 0 || stopBreakpoint == -1 ==> Steady())
      ensures old(Lasting(table.chain)) ==> Lasting(table.chain)
      ensures what.Break? <==> (e.signal == SIGTRAP && stopAfterTrap) || stopAfterAttach
      ensures what.Break? ==> table.chain == old(table.chain) && stopBreakpoint == 0 && !stopStepResume && !randomSignal
      ensures what.FallThrough? ==> (stopStepResume <==> MaybeBreakpoint(e) && e.at.pc == stepAddress)
      ensures what.FallThrough? && MaybeBreakpoint(e) && e.at.pc != stepAddress ==>
        var r := StopStatus(old(table.chain), e.at.pc, e.passes, 0); table.chain == r.0 && stopBreakpoint == r.1
      ensures what.FallThrough? && !(MaybeBreakpoint(e) && e.at.pc != stepAddress) ==>
        table.chain == old(table.chain) && stopBreakpoint == 0
      ensures what.FallThrough? ==> (randomSignal <==>
        stopBreakpoint == 0 && !stopStepResume
        && (e.signal == SIGTRAP ==> trapExpected == 0 && !e.inDummy && !(stepRangeEnd != 0 && stepAddress == 0)))
      ensures what.FallThrough? ==> stopSignal == if randomSignal || !MaybeBreakpoint(e) then e.signal else SIGTRAP
      ensures stopBreakpoint != -SILENT - 1
      ensures what.FallThrough? && stopSignal != SIGTRAP ==> randomSignal
      ensures randomSignal ==> stopBreakpoint == 0 && !stopStepResume
    {
      hide Core, Steady, Lasting;
      what := FallThrough;
      if stopSignal == SIGTRAP || (breakpointsInserted && (stopSignal == SIGILL || stopSignal == SIGEMT)) || stopAfterAttach {
        if (stopSignal == SIGTRAP && stopAfterTrap) || stopAfterAttach {
          return Break;
        }
        if stopSignal == SIGTRAP && trapExpected != 0 {
          stopBreakpoint := 0;
        } else if e.at.pc == stepAddress {
          stopStepResume := true;
        } else {
          AskTable(e);
        }
        if stopSignal == SIGTRAP {
          randomSignal := !(stopBreakpoint != 0 || trapExpected != 0 || stopStepResume || e.inDummy
                            || (stepRangeEnd != 0 && stepAddress == 0));
        } else {
          randomSignal := !(stopBreakpoint != 0 || stopStepResume);
          if !randomSignal {
            stopSignal := SIGTRAP;
          }
        }
      } else {
        randomSignal := true;
      }
    }

    method AskTable(e: Stop)
      requires e.Stopped? && Core() && Steady()
      modifies table`chain, table`breakpointCommands, this`stopBreakpoint
      ensures Core()
      ensures var r := StopStatus(old(table.chain), e.at.pc, e.passes, 0); table.chain == r.0 && stopBreakpoint == r.1
      ensures stopBreakpoint == 0 || stopBreakpoint == -1 ==> Steady()
      ensures old(Lasting(table.chain)) ==> Lasting(table.chain)
      ensures stopBreakpoint != -SILENT - 1
    {
      ghost var was := table.chain;
      hide Core, Steady, Lasting, StopStatus, Alike, CoreFor, SteadyFor;
      NumbersFine();
      StatusKeeps(was, e.at.pc, e.passes, 0);
      GoingKeepsModes(was, e.at.pc, e.passes, 0);
      ghost var now := StopStatus(was, e.at.pc, e.passes, 0).0;
      AlikeCore(now);
      if Lasting(was) { AlikeLasts(was, now); }
      if forall k :: 0 <= k < |was| ==> now[k].enable == was[k].enable { SameModesSteady(now); }
      stopBreakpoint := table.BreakpointStopStatus(e.at.pc, e.passes);
      CoreNow();
    }

    /** Core(), and below Steady(), for another chain than the one there is. */
    ghost predicate CoreFor(chain: Chain)
      reads table`mem, table`clean, `stepIn, `stepWasIn, `stepAddress, `stepDuplicate, `stepShadow, `breakpointsInserted, `log
    {
      && OneFirst(chain) && Mapped(chain, table.mem) && NumbersOk(chain) && Aligned(chain)
      && Synced(chain, table.mem, table.clean, Others())
      && (stepIn ==> stepWasIn)
      && (stepWasIn ==> OwnStep() && stepAddress in table.clean && stepShadow == table.clean[stepAddress])
      && (OwnStep() ==> stepAddress in table.mem && NoneAt(chain, stepAddress))
      && (breakpointsInserted ==> AllIn(chain, table.mem) && (OwnStep() ==> stepIn))
      && (!breakpointsInserted ==> NoneInserted(chain) && !stepIn)
      && AllSafe(log)
    }

    ghost predicate SteadyFor(chain: Chain)
      reads `marksGood, `stepAddress, `stepDuplicate
    {
      && InsertedOn(chain) && (marksGood ==> AllMarked(chain))
      && (stepAddress != 0 && stepDuplicate ==> Here(chain, stepAddress))
    }

    lemma AlikeCore(now: Chain)
      requires Core() && Alike(table.chain, now)
      ensures CoreFor(now)
    {
      AlikeKeeps(table.chain, now, table.mem, table.clean, Others());
      AlikeAligned(table.chain, now);
      hide Synced, OneFirst, AllIn, Mapped, NumbersOk, Aligned, NoneAt, NoneInserted, AllSafe;
    }

    lemma SameModesSteady(now: Chain)
      requires Steady() && Alike(table.chain, now) && |now| == |table.chain|
      requires forall k :: 0 <= k < |now| ==> now[k].enable == table.chain[k].enable
      ensures SteadyFor(now)
    {
      if marksGood { SameModesKeepMarks(table.chain, now); }
      SameModesStillHere(table.chain, now);
    }

    lemma CoreNow()
      ensures CoreFor(table.chain) ==> Core()
      ensures SteadyFor(table.chain) ==> Steady()
    {
      hide Synced, OneFirst, AllIn, Mapped, NumbersOk, Aligned, NoneAt, NoneInserted, AllSafe;
    }

    lemma NumbersFine()
      requires Core()
      ensures NumbersOk(table.chain)
    {
    }

    /** handle_breakpoint: stop, or take out the step-resume breakpoint that has done its work, or
        take everything out to get past the instruction. */
    method HandleBreakpoint(e: Stop) returns (what: Outcome)
      requires e.Stopped? && Core() && stopBreakpoint != -SILENT - 1 && !anotherTrap
      requires stopBreakpoint == 0 || stopBreakpoint == -1 ==> Steady()
      requires stopStepResume ==> e.at.pc == stepAddress && stopBreakpoint == 0
      requires stepAddress != 0 && (stopStepResume || stopBreakpoint != 0) ==> breakpointsInserted
      modifies table`chain, table`mem, this`stopBreakpoint, this`stepIn, this`stepWasIn, this`stepAddress, this`breakpointsInserted, this`anotherTrap
      ensures Core() && SameButInserted(old(table.chain), table.chain) && table.mem.Keys == old(table.mem).Keys
      ensures what.Break? <==> old(stopBreakpoint) != 0 && old(stopBreakpoint) != -1
      ensures what.Break? ==> stopBreakpoint == (if old(stopBreakpoint) >= SILENT then old(stopBreakpoint) - SILENT
        else if old(stopBreakpoint) <= -SILENT then old(stopBreakpoint) + SILENT else old(stopBreakpoint))
      ensures what.Break? || (stopBreakpoint == 0 && !stopStepResume) ==>
        table.mem == old(table.mem) && breakpointsInserted == old(breakpointsInserted) && stepAddress == old(stepAddress) && !anotherTrap
      ensures what.FallThrough? && stopStepResume && (stepFrameAddress == 0 || e.frame == stepFrameAddress) ==>
        stepAddress == 0 && breakpointsInserted == old(breakpointsInserted) && !anotherTrap
      ensures what.FallThrough? && (stopBreakpoint == -1 || (stopStepResume && stepFrameAddress != 0 && e.frame != stepFrameAddress)) ==>
        anotherTrap && !breakpointsInserted && stepAddress == old(stepAddress) && stepWasIn == old(stepWasIn) && table.mem == table.clean
      ensures what.FallThrough? ==> Steady() && stopBreakpoint == old(stopBreakpoint)
      ensures breakpointsInserted ==> old(breakpointsInserted) && !anotherTrap
      ensures stepAddress != 0 && !anotherTrap ==> stepAddress == old(stepAddress)
    {
      hide Core, SameButInserted, Steady;
      SameIsSame(table.chain);
      what := FallThrough;
      if stopBreakpoint != 0 || stopStepResume {
        if stopBreakpoint != 0 && stopBreakpoint != -1 && stopBreakpoint != -SILENT - 1 {
          if stopBreakpoint >= SILENT {
            stopBreakpoint := stopBreakpoint - SILENT;
          } else if stopBreakpoint <= -SILENT {
            stopBreakpoint := stopBreakpoint + SILENT;
          }
          return Break;
        }
        if stopStepResume && (stepFrameAddress == 0 || e.frame == stepFrameAddress) {
          FinishStepBreakpoint();
        } else {
          ClearTheWay();
        }
      }
    }

    method FinishStepBreakpoint()
      requires Core() && (stepAddress != 0 ==> breakpointsInserted)
      modifies table`mem, this`stepIn, this`stepWasIn, this`stepAddress
      ensures Core() && stepAddress == 0 && table.mem.Keys == old(table.mem).Keys && (old(Steady()) ==> Steady())
    {
      hide Synced, OneFirst, AllIn, Mapped, NumbersOk, NoneInserted, AllSafe, Aligned;
      RemoveStepBreakpoint();
      stepAddress := 0;
      stepWasIn := false;
    }

    method ClearTheWay()
      requires Steady() && Core() && (stepAddress != 0 ==> breakpointsInserted)
      modifies table`chain, table`mem, this`stepIn, this`breakpointsInserted, this`anotherTrap
      ensures Core() && SameButInserted(old(table.chain), table.chain) && table.mem.Keys == old(table.mem).Keys
      ensures Steady() && anotherTrap && !breakpointsInserted && table.mem == table.clean
    {
      hide TableOk, StepOk, AllSafe, NoneInserted, SameButInserted, Steady, RangeOk, OwnStep, AllIn;
      OwnStepIsIn();
      TakeBreakpointsOut();
      RemoveStepBreakpoint();
      breakpointsInserted := false;
      anotherTrap := true;
      CleanWhenOut();
    }

    lemma OwnStepIsIn()
      requires StepOk() && FlagOk() && (stepAddress != 0 ==> breakpointsInserted)
      ensures stepWasIn || !OwnStep()
    {
    }

    lemma CleanWhenOut()
      requires TableOk() && NoneInserted(table.chain) && !stepIn
      ensures table.mem == table.clean
    {
      NothingInserted(table.chain, table.mem, table.clean);
    }

    /** remove_breakpoints: all but the step-resume breakpoint. */
    method TakeBreakpointsOut()
      requires TableOk() && StepOk()
      modifies table`chain, table`mem
      ensures TableOk() && StepOk() && NoneInserted(table.chain) && SameButInserted(old(table.chain), table.chain)
      ensures table.mem.Keys == old(table.mem).Keys && (old(Steady()) ==> Steady()) && table.chain == Out(old(table.chain))
    {
      ghost var was := table.chain;
      table.RemoveBreakpoints(Others());
      var now := table.chain;
      assert now == Out(was);
      assert SameButInserted(was, now) && Aligned(now) && (forall a :: NoneAt(was, a) ==> NoneAt(now, a));
      hide SameButInserted, Synced, NoneInserted, Aligned, Here, Lasting, NoneAdded;
      SameButInsertedKeeps(was, now, table.mem);
      SameButInsertedLasts(was, now);
    }

    // ----- stepping -----

    /** Set the step-resume breakpoint; it goes in at once if the others are in. */
    method SetStepBreakpoint(a: int)
      requires Core() && Steady() && stepAddress == 0 && TextAddress(a, table.mem.Keys)
      modifies table`mem, this`stepAddress, this`stepDuplicate, this`stepShadow, this`stepIn, this`stepWasIn
      ensures Core() && Steady() && stepAddress == a && table.mem.Keys == old(table.mem).Keys
      ensures SetWhileOut(old(stepShadow), old(table.mem))
    {
      assert !stepWasIn && !stepIn;
      stepAddress := a;
      stepDuplicate := table.BreakpointHereP(a);
      assert OwnStep() ==> NoneAt(table.chain, a);
      hide RangeOk, Synced, OneFirst, AllIn, Mapped, NumbersOk, AllSafe, Aligned, NoneAt, NoneInserted, AllMarked;
      if breakpointsInserted {
        InsertStepBreakpoint();
      }
    }

    /** Still within the range being stepped through, and not at its start by a call. */
    predicate InRange(e: Stop)
      requires e.Stopped?
      reads `stepRangeStart, `stepRangeEnd, `prev
    {
      stepRangeEnd != 0 && stepRangeStart <= e.at.pc < stepRangeEnd
      && !(e.at.pc == stepRangeStart && e.frame != 0 && e.at.sp < prev.sp)
    }

    /** handle_stepping: keep going within the range being stepped through, run on past a signal
        handler, a call or a prologue by a step-resume breakpoint, or stop. */
    method HandleStepping(e: Stop) returns (what: Outcome)
      requires e.Stopped? && Core() && Steady() && RangeOk() && EventOk(e, table.mem.Keys)
      requires stepRangeEnd != 0 ==> TextAddress(prev.pc, table.mem.Keys)
      modifies table`mem, this`stepAddress, this`stepDuplicate, this`stepShadow, this`stepIn, this`stepWasIn,
               this`stepRangeStart, this`stepRangeEnd, this`removeOnFollowingStep, this`stepFrameAddress, this`stopStep, this`prologuePc
      ensures Core() && Steady() && RangeOk() && table.mem.Keys == old(table.mem).Keys
      ensures old(stepAddress) != 0 || randomSignal || old(stepRangeEnd) == 0 ==>
        what.FallThrough? && stepAddress == old(stepAddress) && stepRangeEnd == old(stepRangeEnd) && table.mem == old(table.mem)
        && stepDuplicate == old(stepDuplicate) && stepWasIn == old(stepWasIn)
      ensures what.Break? ==> stopStep && stepAddress == 0 && table.mem == old(table.mem)
      ensures old(InRange(e)) ==>
        what.FallThrough? && stepAddress == old(stepAddress) && stepRangeEnd == old(stepRangeEnd) && table.mem == old(table.mem)
      ensures old(stepAddress) == 0 ==> stepAddress == if randomSignal then 0 else old(RunsOnTo(e))
      ensures what.Break? ==> old(RunsOnTo(e)) == 0
      ensures !randomSignal && old(SteppedOut(e)) ==> what.Break?
      ensures !randomSignal && old(SteppedWithin(e)) ==> what.FallThrough? && stepAddress == 0
      ensures !randomSignal && old(SteppedIntoCall(e)) ==> CallTaken(e, what)
      ensures !randomSignal && old(SteppedIntoHandler(e)) ==> what.FallThrough? && stepAddress == old(prev.pc) && removeOnFollowingStep
      ensures old(stepAddress) == 0 && old(stepRangeEnd) != 0 && !randomSignal && TakesSignal(e) && !old(InRange(e)) ==> removeOnFollowingStep
      ensures old(stepAddress) == 0 && stepAddress != 0 ==> SetWhileOut(old(stepShadow), old(table.mem))
    {
      hide Core, Steady, RangeOk;
      what := FallThrough;
      if stepAddress != 0 {
        return;
      }
      if !randomSignal && InRange(e) {
        return;
      }
      if !randomSignal && stepRangeEnd != 0 {
        what := LeaveRange(e);
      }
    }

    /** If it was set while the breakpoints were out, the step-resume breakpoint has not been in, and
        the shadow is still that of whichever was set before. */
    ghost predicate SetWhileOut(shadowBefore: int, memBefore: Memory)
      reads table`chain, table`mem, `breakpointsInserted, `stepAddress, `stepDuplicate, `stepShadow, `stepWasIn
    {
      && (stepDuplicate <==> Here(table.chain, stepAddress))
      && (!breakpointsInserted ==> !stepWasIn && stepShadow == shadowBefore && table.mem == memBefore)
    }

    /** A jump to the start of a function that is not within a call of it already. */
    predicate IsCall(e: Stop)
      requires e.Stopped?
      reads `prev, `prologuePc
    {
      e.at.pc == e.at.funcStart
      && (e.at.funcStart != prev.funcStart || (e.at.funcStart == 0 && prologuePc != 0) || e.at.sp != prev.sp)
    }

    predicate TakesSignal(e: Stop)
      requires e.Stopped?
      reads `prev
    {
      e.at.inSigtramp && !prev.inSigtramp
    }

    predicate StepsOver(e: Stop)
      requires e.Stopped?
      reads `stepOverCalls
    {
      stepOverCalls > 0 || (stepOverCalls != 0 && !e.hasSymbol)
    }

    /** Stepping is under way, with nothing else to wait for. */
    predicate JustStepping()
      reads `stepAddress, `stepRangeEnd
    {
      stepAddress == 0 && stepRangeEnd != 0
    }

    /** Stepping has come to an address before or past its range, or to the start of it with the stack
        lower than before, as by a call of the function that starts there. */
    predicate OutOfRange(e: Stop)
      reads `stepAddress, `stepRangeStart, `stepRangeEnd, `prev
    {
      && e.Stopped? && JustStepping()
      && (e.at.pc < stepRangeStart || e.at.pc >= stepRangeEnd || (e.at.pc == stepRangeStart && e.frame != 0 && e.at.sp < prev.sp))
    }

    /** Neither by a signal nor by a call: on the next line, say, or back at the start of the function. */
    predicate SteppedOut(e: Stop)
      reads `stepAddress, `stepRangeStart, `stepRangeEnd, `prev
    {
      && OutOfRange(e) && !(e.at.inSigtramp && !prev.inSigtramp)
      && (e.at.pc != e.at.funcStart || (e.at.pc != 0 && e.at.funcStart == prev.funcStart && e.at.sp == prev.sp))
    }

    /** Stepping has come to an address inside its range, or back to its start with the stack no lower. */
    predicate SteppedWithin(e: Stop)
      reads `stepAddress, `stepRangeStart, `stepRangeEnd, `prev
    {
      && e.Stopped? && JustStepping() && stepRangeStart <= e.at.pc < stepRangeEnd
      && (e.at.pc > stepRangeStart || e.frame == 0 || e.at.sp >= prev.sp)
    }

    /** Stepping has come to the start of another function than it was in, or of the same one with
        another stack pointer. */
    predicate SteppedIntoCall(e: Stop)
      reads `stepAddress, `stepRangeStart, `stepRangeEnd, `prev
    {
      && OutOfRange(e) && !(e.at.inSigtramp && !prev.inSigtramp)
      && e.at.pc == e.at.funcStart && (e.at.funcStart != prev.funcStart || e.at.sp != prev.sp)
    }

    /** A signal handler has been entered. */
    predicate SteppedIntoHandler(e: Stop)
      reads `stepAddress, `stepRangeStart, `stepRangeEnd, `prev
    {
      OutOfRange(e) && e.at.inSigtramp && !prev.inSigtramp
    }

    /** What comes of a call: it is stepped over, or into as far as the end of its prologue, or stopped at. */
    predicate CallTaken(e: Stop, what: Outcome)
      requires e.Stopped?
      reads `stepAddress, `stepOverCalls
    {
      if stepOverCalls > 0 || (stepOverCalls < 0 && !e.hasSymbol) then what.FallThrough? && stepAddress == e.savedPc
      else if stepOverCalls < 0 && e.prologueEnd != e.at.pc then what.FallThrough? && stepAddress == e.prologueEnd
      else what.Break?
    }

    /** Where stepping that has left its range runs on to, by a step-resume breakpoint: the instruction that a
        signal interrupted, the return address, or the end of the prologue.  0 if it stops, or has not left. */
    function RunsOnTo(e: Stop): int
      requires e.Stopped?
      reads `stepAddress, `stepRangeStart, `stepRangeEnd, `prev, `prologuePc, `stepOverCalls
    {
      if stepAddress != 0 || stepRangeEnd == 0 || InRange(e) then 0
      else if TakesSignal(e) then prev.pc
      else if !IsCall(e) then 0
      else if StepsOver(e) then e.savedPc
      else if stepOverCalls != 0 && e.prologueEnd != e.at.pc then e.prologueEnd
      else 0
    }

    /** Stepping has left its range. */
    method LeaveRange(e: Stop) returns (what: Outcome)
      requires e.Stopped? && Core() && Steady() && RangeOk() && EventOk(e, table.mem.Keys) && TextAddress(prev.pc, table.mem.Keys)
      requires stepAddress == 0 && stepRangeEnd != 0 && !InRange(e)
      modifies table`mem, this`stepAddress, this`stepDuplicate, this`stepShadow, this`stepIn, this`stepWasIn,
               this`stepRangeStart, this`stepRangeEnd, this`removeOnFollowingStep, this`stepFrameAddress, this`stopStep, this`prologuePc
      ensures Core() && Steady() && RangeOk() && table.mem.Keys == old(table.mem).Keys
      ensures what.Break? ==> stopStep && table.mem == old(table.mem)
      ensures stepAddress == old(RunsOnTo(e)) && removeOnFollowingStep == (old(removeOnFollowingStep) || TakesSignal(e))
      ensures !TakesSignal(e) && !StepsOver(e) && stepAddress != 0 ==> stepFrameAddress == 0 && stepRangeEnd == stepRangeStart
      ensures what.Break? <==> !TakesSignal(e) && (old(IsCall(e)) ==>
        !StepsOver(e) && (stepOverCalls == 0 || e.prologueEnd == e.at.pc))
      ensures what.FallThrough? ==> SetWhileOut(old(stepShadow), old(table.mem))
    {
      hide Core, Steady, SetWhileOut, RangeOk;
      RangeParts();
      what := FallThrough;
      if e.at.funcStart != 0 {
        prologuePc := e.at.funcStart;
      }
      if e.at.inSigtramp && !prev.inSigtramp {
        SetStepBreakpoint(prev.pc);
        if stepRangeEnd == 1 {
          stepRangeStart := prev.pc;
          stepRangeEnd := prev.pc + 1;
        }
        removeOnFollowingStep := true;
      } else if e.at.pc == e.at.funcStart
             && (e.at.funcStart != prev.funcStart || prologuePc != e.at.funcStart || e.at.sp != prev.sp) {
        if stepOverCalls > 0 || (stepOverCalls != 0 && !e.hasSymbol) {
          SetStepBreakpoint(e.savedPc);
        } else if stepOverCalls != 0 {
          if e.prologueEnd == e.at.pc {
            stopStep := true;
            return Break;
          }
          SetStepBreakpoint(e.prologueEnd);
          stepFrameAddress := 0;
          stepRangeEnd := stepRangeStart;
        } else {
          stopStep := true;
          return Break;
        }
      } else {
        stopStep := true;
        return Break;
      }
      RangeWhole();
    }

    lemma RangeParts()
      requires RangeOk()
      ensures (removeOnFollowingStep ==> stepRangeEnd != 0) && (stepRangeEnd != 0 ==> stepRangeStart != 0)
    {
    }

    lemma RangeWhole()
      requires (removeOnFollowingStep ==> stepRangeEnd != 0) && (stepRangeEnd != 0 ==> stepRangeStart != 0)
      ensures RangeOk()
    {
    }

    // ----- going on -----

    method Resume(step: bool, ghost startUp: bool, at: Place)
      requires Core() && Steady() && (step || startUp || breakpointsInserted) && (trapExpected != 0 ==> !breakpointsInserted)
      modifies this`prev, this`log
      ensures Core() && Steady() && prev == at && |log| == |old(log)| + 1 && log[..|old(log)|] == old(log)
      ensures log[|old(log)|] == Resumption(step, trapExpected != 0, startUp, table.chain, table.mem, table.clean, stepAddress)
    {
      SafeToResume(step, startUp);
      hide TableOk, StepOk, FlagOk, RangeOk, Safe, Steady;
      prev := at;
      log := log + [Resumption(step, trapExpected != 0, startUp, table.chain, table.mem, table.clean, stepAddress)];
    }

    /** What the inferior will meet, from what is known of the breakpoints. */
    lemma SafeToResume(step: bool, startUp: bool)
      requires Core() && Steady() && (step || startUp || breakpointsInserted) && (trapExpected != 0 ==> !breakpointsInserted)
      ensures Safe(Resumption(step, trapExpected != 0, startUp, table.chain, table.mem, table.clean, stepAddress))
    {
      hide OneFirst, Mapped, NumbersOk, Aligned, RangeOk, Here, AllMarked, InsertedOn;
      if !breakpointsInserted {
        hide AllIn;
        NothingInserted(table.chain, table.mem, table.clean);
      }
    }

    /** insert_breakpoints and the flag that says so, the step-resume breakpoint being in already. */
    method PutBreakpointsIn()
      requires TableOk() && StepOk() && AllSafe(log) && Steady() && NoneInserted(table.chain) && (OwnStep() ==> stepIn)
      modifies table`chain, table`mem, this`breakpointsInserted
      ensures Core() && Steady() && breakpointsInserted && table.mem.Keys == old(table.mem).Keys
      ensures SameButInserted(old(table.chain), table.chain)
    {
      ghost var was := table.chain;
      hide SameButInserted, Synced, Aligned, AllIn, AllMarked, OneFirst, NumbersOk, InsertedOn, NoneAt, AllSafe, RangeOk, NoneInserted, Mapped;
      hide Here, Lasting, NoneAdded;
      NoneOn(was);
      table.InsertBreakpoints(Others());
      breakpointsInserted := true;
      PutIn(was, table.chain, table.clean);
      SameButInsertedKeeps(was, table.chain, table.mem);
      SameButInsertedLasts(was, table.chain);
    }

    lemma NoneOn(chain: Chain)
      requires StepOk() && table.chain == chain
      ensures forall i :: 0 <= i < |chain| && On(chain[i]) ==> chain[i].address !in Others()
    {
    }

    /** The end of an iteration of wait_for_inferior: patch or unpatch as the next resumption needs,
        and resume. */
    method KeepGoing(e: Stop)
      requires e.Stopped? && Core() && Steady() && RangeOk() && TextAddress(e.at.pc, table.mem.Keys)
      requires anotherTrap || trapExpected != 0 ==> !breakpointsInserted
      requires stopSignal != SIGTRAP ==> randomSignal
      requires stepAddress != 0 && trapExpected == 0 && randomSignal ==> breakpointsInserted
      modifies table`chain, table`mem, this`stepShadow, this`stepIn, this`stepWasIn, this`breakpointsInserted,
               this`trapExpected, this`runningInShell, this`removeOnFollowingStep, this`stopSignal, this`prev, this`log
      ensures Running() && table.mem.Keys == old(table.mem).Keys && prev == e.at
      ensures |log| == |old(log)| + 1 && log[..|old(log)|] == old(log) && log[|old(log)|].chain == table.chain
      ensures log[|old(log)|].startUp <==> old(trapExpected) > 1 || (old(runningInShell) && old(stopSignal) == SIGSEGV)
      ensures !log[|old(log)|].startUp ==> (log[|old(log)|].step <==> (stepRangeEnd != 0 && stepAddress == 0) || trapExpected != 0)
      ensures trapExpected == if old(trapExpected) > 1 then old(trapExpected) - 1
        else if (old(runningInShell) && old(stopSignal) == SIGSEGV) || (old(trapExpected) != 0 && old(stopSignal) != SIGTRAP)
        then old(trapExpected) else if anotherTrap then 1 else 0
      ensures runningInShell <==>
        || old(trapExpected) > 1
        || (old(runningInShell) && (old(stopSignal) == SIGSEGV || (old(trapExpected) != 0 && old(stopSignal) != SIGTRAP)))
      ensures trapExpected != 0 && stepAddress != 0 ==> SameStep(stepAddress, stepDuplicate, old(stepShadow), old(stepWasIn))
      ensures SameButInserted(old(table.chain), table.chain)
    {
      hide Core, Steady, TextAddress, RangeOk, Running, SameButInserted;
      SameIsSame(table.chain);
      if trapExpected > 1 {
        trapExpected := trapExpected - 1;
        runningInShell := true;
        Resume(false, true, e.at);
      } else if runningInShell && stopSignal == SIGSEGV {
        Resume(false, true, e.at);
      } else if trapExpected != 0 && stopSignal != SIGTRAP {
        Resume((stepRangeEnd != 0 && stepAddress == 0) || trapExpected != 0, false, e.at);
      } else {
        Rearrange(e);
      }
      RunningNow();
    }

    /** The usual case. */
    method Rearrange(e: Stop)
      requires e.Stopped? && Core() && Steady() && RangeOk() && (anotherTrap ==> !breakpointsInserted)
      modifies table`chain, table`mem, this`stepShadow, this`stepIn, this`stepWasIn, this`breakpointsInserted,
               this`trapExpected, this`runningInShell, this`removeOnFollowingStep, this`stopSignal, this`prev, this`log
      ensures Core() && Steady() && RangeOk() && table.mem.Keys == old(table.mem).Keys && prev == e.at
      ensures (trapExpected != 0 ==> !breakpointsInserted) && (stepAddress != 0 && trapExpected == 0 ==> breakpointsInserted)
      ensures |log| == |old(log)| + 1 && log[..|old(log)|] == old(log)
      ensures log[|old(log)|].chain == table.chain && (trapExpected == if anotherTrap then 1 else 0) && !runningInShell
      ensures log[|old(log)|].step == ((stepRangeEnd != 0 && stepAddress == 0) || anotherTrap) && !log[|old(log)|].startUp
      ensures anotherTrap && stepAddress != 0 ==> SameStep(stepAddress, stepDuplicate, old(stepShadow), old(stepWasIn))
      ensures SameButInserted(old(table.chain), table.chain)
    {
      hide Core, Steady, RangeOk, SameButInserted;
      runningInShell := false;
      ArrangeBreakpoints();
      trapExpected := if anotherTrap then 1 else 0;
      if stopSignal == SIGTRAP {
        stopSignal := 0;
      }
      Resume((stepRangeEnd != 0 && stepAddress == 0) || trapExpected != 0, false, e.at);
    }

    lemma RunningNow()
      requires Core() && Steady() && RangeOk() && TextAddress(prev.pc, table.mem.Keys)
      requires (trapExpected != 0 ==> !breakpointsInserted) && (stepAddress != 0 && trapExpected == 0 ==> breakpointsInserted)
      ensures Running()
    {
    }

    /** Take breakpoints out for a single step, or put them in unless the next trap is awaited with
        them out. */
    method ArrangeBreakpoints()
      requires Core() && Steady() && RangeOk() && (anotherTrap ==> !breakpointsInserted)
      modifies table`chain, table`mem, this`stepShadow, this`stepIn, this`stepWasIn, this`breakpointsInserted, this`removeOnFollowingStep
      ensures Core() && Steady() && RangeOk() && table.mem.Keys == old(table.mem).Keys
      ensures anotherTrap || breakpointsInserted || (stepRangeEnd != 0 && stepAddress == 0)
      ensures anotherTrap ==> !breakpointsInserted
      ensures SameButInserted(old(table.chain), table.chain)
      ensures anotherTrap && stepAddress != 0 ==> SameStep(stepAddress, stepDuplicate, old(stepShadow), old(stepWasIn))
    {
      hide TableOk, StepOk, AllSafe, AllIn, Steady, NoneInserted, SameButInserted;
      SameIsSame(table.chain);
      if stepAddress == 0 && removeOnFollowingStep {
        removeOnFollowingStep := false;
        TakeBreakpointsOut();
        OutWithoutStep();
        breakpointsInserted := false;
      } else if !breakpointsInserted && !anotherTrap {
        InsertStepBreakpoint();
        PutBreakpointsIn();
      }
    }

    lemma OutWithoutStep()
      requires StepOk() && stepAddress == 0
      ensures !stepIn
    {
    }

    // ----- the run -----

    /** The inferior has been running; only words that no breakpoint concerns can have changed. */
    method InferiorRan(writes: Memory)
      requires Running()
      modifies table`mem, table`clean, this`untouched
      ensures Running() && table.mem.Keys == old(table.mem).Keys && (old(Kept()) ==> Kept())
      ensures writes == map[] ==> table.mem == old(table.mem) && table.clean == old(table.clean)
    {
      hide Running, SameBut, Stores, RunningWith;
      var stores := Stores(writes, table.mem, Addresses(table.chain) + {stepAddress});
      if Kept() { StoresSameBut(untouched, table.clean, spoiled, stores); }
      SameWords(table.clean, table.mem, stores);
      RunningThrough(stores, table.mem + stores, table.clean + stores);
      table.mem, table.clean, untouched := table.mem + stores, table.clean + stores, untouched + stores;
      RunningNowWith(table.mem, table.clean);
    }

    /** Running(), with other memories than the ones there are. */
    ghost predicate RunningWith(mem: Memory, clean: Memory)
      reads table`chain, `stepIn, `stepWasIn, `stepAddress, `stepDuplicate, `stepShadow,
            `breakpointsInserted, `stepRangeStart, `stepRangeEnd, `removeOnFollowingStep, `log,
            `prev, `trapExpected, `marksGood
    {
      && OneFirst(table.chain) && Mapped(table.chain, mem) && NumbersOk(table.chain) && Aligned(table.chain)
      && Synced(table.chain, mem, clean, Others())
      && (stepIn ==> stepWasIn)
      && (stepWasIn ==> OwnStep() && stepAddress in clean && stepShadow == clean[stepAddress])
      && (OwnStep() ==> stepAddress in mem && NoneAt(table.chain, stepAddress))
      && (breakpointsInserted ==> AllIn(table.chain, mem) && (OwnStep() ==> stepIn))
      && (!breakpointsInserted ==> NoneInserted(table.chain) && !stepIn)
      && AllSafe(log) && Steady() && RangeOk() && (stepRangeEnd != 0 ==> TextAddress(prev.pc, mem.Keys))
      && (trapExpected != 0 ==> !breakpointsInserted)
      && (stepAddress != 0 && trapExpected == 0 ==> breakpointsInserted)
    }

    lemma RunningThrough(stores: Memory, mem: Memory, clean: Memory)
      requires Running() && stores.Keys <= table.mem.Keys && stores.Keys !! Addresses(table.chain) + {stepAddress}
      requires mem == table.mem + stores && clean == table.clean + stores && mem.Keys == table.mem.Keys
      ensures RunningWith(mem, clean)
    {
      hide Synced, AllIn, AllSafe, OneFirst, NumbersOk, Aligned, NoneAt, NoneInserted, Mapped, Steady, RangeOk, TextAddress, Addresses;
      StoresKeepSynced(table.chain, table.mem, table.clean, Others(), stores);
      MappedBy(table.chain, table.mem, mem);
    }

    lemma RunningNowWith(mem: Memory, clean: Memory)
      requires RunningWith(mem, clean) && mem == table.mem && clean == table.clean
      ensures Running()
    {
      hide Synced, AllIn, AllSafe, OneFirst, NumbersOk, Aligned, NoneAt, NoneInserted, Mapped, Steady, RangeOk, TextAddress;
    }

    lemma SameWords(clean: Memory, mem: Memory, stores: Memory)
      requires stores.Keys <= mem.Keys
      ensures (mem + stores).Keys == mem.Keys && (stores == map[] ==> mem + stores == mem && clean + stores == clean)
    {
    }

    /** One iteration of wait_for_inferior: Break if the debugger is to take over. */
    method TakeStop(e: Stop) returns (what: Outcome)
      requires Running() && EventOk(e, table.mem.Keys) && alive
      modifies this, table
      ensures Carried() && MarksLast() && spoiled == old(spoiled) && CameOut(e, what, old(AtStop(e)))
      ensures if e.Gone? then what.Break? && !alive && ChainOk(table.chain, table.mem) else Core() && alive
      ensures what.FallThrough? ==> Running()
      ensures marksGood == old(marksGood) && stopAfterAttach == old(stopAfterAttach)
      ensures e.Stopped? && e.writes == map[] ==> table.clean == old(table.clean)
    {
      hide Running, Core, EventOk, AllSafe, ChainOk, Carried, MarksLast, CameOut;
      RunningCore();
      if e.Gone? {
        InferiorDied(e);
        return Break;
      }
      what := TakeSignal(e);
    }

    /** The inferior has stopped, and not died. */
    method TakeSignal(e: Stop) returns (what: Outcome)
      requires Running() && e.Stopped? && EventOk(e, table.mem.Keys)
      modifies table`chain, table`mem, table`clean, table`breakpointCommands, this`stopBreakpoint, this`stopStepResume, this`randomSignal,
               this`stopSignal, this`stepAddress, this`stepDuplicate, this`stepShadow, this`stepIn, this`stepWasIn, this`breakpointsInserted,
               this`anotherTrap, this`stepRangeStart, this`stepRangeEnd, this`removeOnFollowingStep, this`stepFrameAddress, this`stopStep,
               this`stopStackDummy, this`prologuePc, this`trapExpected, this`runningInShell, this`prev, this`log, this`pcChanged, this`untouched
      ensures Core() && Carried() && MarksLast() && CameOut(e, what, old(AtStop(e))) && (what.FallThrough? ==> Running())
      ensures e.writes == map[] ==> table.clean == old(table.clean)
    {
      hide Running, Core, EventOk, AllSafe, Lasting, SameBut, AllMarked, SignalStops, RunsOnFromBreakpoint, RunsOnTo, StillStarting, SameStep, NeverIn, HitStops, StepEnds, StepGoesOn;
      ghost var before := AtStop(e);
      InferiorRan(e.writes);
      ForgetLastStop(e);
      assert AtStop(e) == before;
      hide CameOut, AtStop;
      what := ActAndGo(e);
      RunningSafe();
      LastingMarks(table.chain);
      CameOutLog(e, what, before);
    }

    /** How things stand at a stop. */
    ghost function AtStop(e: Stop): Standing
      reads table`chain, `log, `trapExpected, `runningInShell, `stepAddress, `stepDuplicate, `stepShadow, `stepWasIn, `stopAfterTrap,
            `stopAfterAttach, `stepRangeStart, `stepRangeEnd, `prev, `prologuePc, `stepOverCalls
    {
      Standing(log, table.chain, trapExpected, runningInShell, stepAddress, stepDuplicate, stepShadow, stepWasIn, Stepping(),
               SignalStops(e), RunsOnFromBreakpoint(e), if e.Stopped? then RunsOnTo(e) else 0,
               HitStops(e) || StepEnds(e), StepGoesOn(e))
    }

    /** How a stop comes out: the log, what is left of start-up, and the step-resume breakpoint.  One that is
        set at the stop is where RunsOnTo says, and has been put in unless the next trap is awaited with the
        breakpoints out. */
    ghost predicate CameOut(e: Stop, what: Outcome, was: Standing)
      reads table`chain, `log, `trapExpected, `runningInShell, `stepAddress, `stepDuplicate, `stepShadow, `stepWasIn, `stepRangeEnd
    {
      && (what.Break? ==> log == was.log && trapExpected == was.traps && runningInShell == was.shell)
      && (what.FallThrough? ==>
            && e.Stopped? && |log| == |was.log| + 1 && log[..|was.log|] == was.log && log[|was.log|].chain == table.chain
            && (log[|was.log|].startUp <==> was.traps > 1 || (was.shell && e.signal == SIGSEGV))
            && StillStarting(e, was.traps, was.shell))
      && (what.FallThrough? && was.address == 0 ==>
            (stepAddress != 0 ==> stepAddress == was.runsOnTo) && (OwnStep() ==> (stepWasIn <==> trapExpected == 0)))
      && (was.signalStops ==> what.Break? && SameStep(was.address, was.duplicate, was.shadow, was.wasIn))
      && (was.runsOn ==> what.FallThrough? && trapExpected == 1 && NeverIn(was.runsOnTo, was.chain, was.shadow))
      && (Stepping() ==> was.stepping)
      && (was.ends ==> what.Break?) && (was.goesOn ==> what.FallThrough? && stepAddress == 0)
    }

    method ActAndGo(e: Stop) returns (what: Outcome)
      requires Running() && e.Stopped? && EventOk(e, table.mem.Keys)
      requires stopBreakpoint == 0 && !stopStepResume && stopSignal == e.signal && !randomSignal && !anotherTrap
      modifies table`chain, table`mem, table`breakpointCommands, this`stopBreakpoint, this`stopStepResume, this`randomSignal, this`stopSignal,
               this`stepAddress, this`stepDuplicate, this`stepShadow, this`stepIn, this`stepWasIn, this`breakpointsInserted, this`anotherTrap,
               this`stepRangeStart, this`stepRangeEnd, this`removeOnFollowingStep, this`stepFrameAddress, this`stopStep, this`stopStackDummy, this`prologuePc,
               this`trapExpected, this`runningInShell, this`prev, this`log
      ensures Core() && table.mem.Keys == old(table.mem).Keys && CameOut(e, what, old(AtStop(e))) && (old(Lasting(table.chain)) ==> Lasting(table.chain))
      ensures what.FallThrough? ==> Running()
    {
      hide Running, Core, EventOk, AllSafe, NoneAdded, SignalStops, StopStatus, RunsOnTo, Here, RangeOk, Steady, Lasting, SameButInserted, AllMarked;
      PcIsText(e);
      what := LookAtStop(e);
      if what.FallThrough? {
        EventAddress(e, table.mem.Keys);
        ghost var was := table.chain;
        KeepGoing(e);
        SameButInsertedLasts(was, table.chain);
        AddedThen(old(table.chain), was, table.chain);
        RunningCore();
        RunningIn();
      }
    }

    lemma CameOutLog(e: Stop, what: Outcome, was: Standing)
      requires CameOut(e, what, was)
      ensures |log| >= |was.log| && log[..|was.log|] == was.log
      ensures AllMarked(table.chain) ==> AllKeepMarks(log, |was.log|)
    {
    }

    /** The step-resume breakpoint waits at `a`, but has not been put in. */
    ghost predicate NeverIn(a: int, was: Chain, shadow: int)
      reads table`chain, `stepAddress, `stepDuplicate, `stepShadow, `stepWasIn
    {
      && stepAddress == a && !stepWasIn && stepShadow == shadow
      && NoneAdded(was, table.chain) && (stepDuplicate ==> Here(table.chain, stepAddress))
    }

    lemma AddedThen(a: Chain, b: Chain, c: Chain)
      ensures NoneAdded(a, b) && NoneAdded(b, c) ==> NoneAdded(a, c)
    {
    }

    lemma RunningIn()
      requires Running()
      ensures OwnStep() && trapExpected == 0 ==> stepWasIn
    {
    }

    /** How many traps are still expected, and whether the shell is still running, after a stop. */
    ghost predicate StillStarting(e: Stop, traps: int, shell: bool)
      reads `trapExpected, `runningInShell
    {
      if traps > 1 then trapExpected == traps - 1 && runningInShell
      else trapExpected <= 1 && (runningInShell ==> shell && (e.Stopped? ==> e.signal != SIGTRAP))
    }

    /** A signal that the program is to be stopped for. */
    predicate SignalStops(e: Stop)
      reads `stopAfterAttach, `runningInShell
    {
      && e.Stopped? && e.signal != SIGTRAP && e.signal != SIGILL && e.signal != SIGEMT && e.signalStops
      && !stopAfterAttach && !(runningInShell && e.signal == SIGSEGV)
    }

    /** Stepping has left its range, to run on, right where a breakpoint lets the program go on. */
    predicate RunsOnFromBreakpoint(e: Stop)
      reads table`chain, `trapExpected, `stopAfterTrap, `stopAfterAttach, `stepAddress, `stepRangeStart, `stepRangeEnd, `prev, `prologuePc, `stepOverCalls
    {
      && e.Stopped? && e.signal == SIGTRAP && trapExpected == 0 && !stopAfterTrap && !stopAfterAttach && !e.inDummy
      && StopStatus(table.chain, e.at.pc, e.passes, 0).1 == -1 && RunsOnTo(e) != 0
    }

    ghost predicate SameStep(address: int, duplicate: bool, shadow: int, wasIn: bool)
      reads `stepAddress, `stepDuplicate, `stepShadow, `stepWasIn
    {
      stepAddress == address && stepDuplicate == duplicate && stepShadow == shadow && stepWasIn == wasIn
    }

    method InferiorDied(e: Stop)
      requires Core() && e.Gone?
      modifies table`chain, this`alive
      ensures !alive && ChainOk(table.chain, table.mem) && Carried() && MarksLast() && CameOut(e, Break, old(AtStop(e)))
    {
      ghost var was := table.chain;
      alive := false;
      table.MarkBreakpointsOut();
      SameButInsertedKeeps(was, table.chain, table.mem);
      SameButInsertedLasts(was, table.chain);
    }

    method ForgetLastStop(e: Stop)
      requires e.Stopped?
      modifies this`pcChanged, this`anotherTrap, this`stopBreakpoint, this`stopStep, this`stopStackDummy, this`stopStepResume,
               this`randomSignal, this`stopSignal
      ensures stopBreakpoint == 0 && !stopStepResume && stopSignal == e.signal && !randomSignal && !anotherTrap
      ensures !pcChanged && !stopStep && !stopStackDummy
    {
      pcChanged, anotherTrap, stopBreakpoint, stopStep := false, false, 0, false;
      stopStackDummy, stopStepResume, randomSignal := false, false, false;
      stopSignal := e.signal;
    }

    lemma RunningCore()
      requires Running()
      ensures Core()
    {
    }

    lemma RunningSafe()
      requires Core()
      ensures AllSafe(log)
    {
    }

    /** Why the inferior stopped, and whether to stop with it. */
    method LookAtStop(e: Stop) returns (what: Outcome)
      requires Running() && e.Stopped? && EventOk(e, table.mem.Keys)
      requires stopBreakpoint == 0 && !stopStepResume && stopSignal == e.signal && !randomSignal && !anotherTrap
      modifies table`chain, table`mem, table`breakpointCommands, this`stopBreakpoint, this`stopStepResume, this`randomSignal, this`stopSignal,
               this`stepAddress, this`stepDuplicate, this`stepShadow, this`stepIn, this`stepWasIn, this`breakpointsInserted, this`anotherTrap,
               this`stepRangeStart, this`stepRangeEnd, this`removeOnFollowingStep, this`stepFrameAddress, this`stopStep, this`stopStackDummy, this`prologuePc
      ensures Core() && table.mem.Keys == old(table.mem).Keys && RangeOk() && (old(Lasting(table.chain)) ==> Lasting(table.chain))
      ensures what.FallThrough? ==> Steady()
      ensures what.FallThrough? && (anotherTrap || trapExpected != 0) ==> !breakpointsInserted
      ensures what.FallThrough? && stopSignal != SIGTRAP ==> randomSignal
      ensures what.FallThrough? && stepAddress != 0 && trapExpected == 0 && randomSignal ==> breakpointsInserted
      ensures what.FallThrough? ==> (e.signal == SIGTRAP ==> stopSignal == SIGTRAP) && (stopSignal == SIGSEGV <==> e.signal == SIGSEGV)
      ensures old(SignalStops(e)) ==> what.Break? && SameStep(old(stepAddress), old(stepDuplicate), old(stepShadow), old(stepWasIn))
      ensures what.FallThrough? && old(stepAddress) == 0 && stepAddress != 0 ==>
        stepAddress == old(RunsOnTo(e)) && (!breakpointsInserted ==> !stepWasIn)
      ensures old(RunsOnFromBreakpoint(e)) ==>
        what.FallThrough? && anotherTrap && NeverIn(old(RunsOnTo(e)), old(table.chain), old(stepShadow))
      ensures !old(Stepping()) ==> !Stepping()
      ensures old(HitStops(e)) || old(StepEnds(e)) ==> what.Break?
      ensures old(StepGoesOn(e)) ==> what.FallThrough? && stepAddress == 0
    {
      hide Core, Steady, RangeOk, TextAddress, SameButInserted, RunsOnTo, StopStatus, Here, EventOk, Lasting, AllMarked;
      RunningParts();
      ghost var was := table.chain;
      StatusKeeps(was, e.at.pc, e.passes, 0);
      ghost var runsOn := RunsOnFromBreakpoint(e);
      StepOrHit(e);
      hide Running;
      PcIsText(e);
      RunsOnOnlyOnce(e);
      what := PreliminaryTrapHandler(e);
      if what.Break? {
        return;
      }
      ghost var now := table.chain;
      assert runsOn ==> stopBreakpoint == -1 && !randomSignal && !stopStepResume && NoneAdded(was, now);
      hide Alike, NoneAdded;
      what := ActOnStop(e);
      AddedThen(was, now, table.chain);
    }

    lemma RunningParts()
      requires Running()
      ensures Core() && Steady() && RangeOk() && (stepRangeEnd != 0 ==> TextAddress(prev.pc, table.mem.Keys))
      ensures (trapExpected != 0 ==> !breakpointsInserted) && (stepAddress != 0 && trapExpected == 0 ==> breakpointsInserted)
    {
    }

    lemma PcIsText(e: Stop)
      requires e.Stopped? && EventOk(e, table.mem.Keys)
      ensures e.at.pc != 0
    {
    }

    /** A trap at an enabled breakpoint that asks to stop. */
    predicate HitStops(e: Stop)
      reads table`chain, `trapExpected, `stepAddress
    {
      && e.Stopped? && e.signal == SIGTRAP && trapExpected == 0 && e.at.pc != stepAddress
      && StopStatus(table.chain, e.at.pc, e.passes, 0).1 != 0 && StopStatus(table.chain, e.at.pc, e.passes, 0).1 != -1
    }

    /** A trap that ends the step. */
    predicate StepEnds(e: Stop)
      reads `stepAddress, `stepRangeStart, `stepRangeEnd, `prev
    {
      e.Stopped? && e.signal == SIGTRAP && SteppedOut(e)
    }

    /** A trap within the step, at no enabled breakpoint. */
    predicate StepGoesOn(e: Stop)
      reads table`chain, `stopAfterTrap, `stopAfterAttach, `stepAddress, `stepRangeStart, `stepRangeEnd, `prev
    {
      && e.Stopped? && e.signal == SIGTRAP && !stopAfterTrap && !stopAfterAttach && !e.inDummy && SteppedWithin(e)
      && !Here(table.chain, Align(e.at.pc))
    }

    lemma StepOrHit(e: Stop)
      ensures SteppedOut(e) || SteppedWithin(e) ==> stepAddress == 0 && stepRangeEnd != 0
      ensures e.Stopped? && !Here(table.chain, Align(e.at.pc)) ==> StopStatus(table.chain, e.at.pc, e.passes, 0) == (table.chain, 0, [])
    {
      if e.Stopped? && !Here(table.chain, Align(e.at.pc)) {
        NoneHere(table.chain, e.at.pc, e.passes, 0);
      }
    }

    lemma RunsOnOnlyOnce(e: Stop)
      requires e.Stopped?
      ensures RunsOnTo(e) != 0 ==> stepAddress == 0 && stepRangeEnd != 0
    {
    }

    /** What to do about the stop, once its cause is known. */
    method ActOnStop(e: Stop) returns (what: Outcome)
      requires Core() && RangeOk() && e.Stopped? && EventOk(e, table.mem.Keys) && !anotherTrap
      requires stepRangeEnd != 0 ==> TextAddress(prev.pc, table.mem.Keys)
      requires stopBreakpoint == 0 || stopBreakpoint == -1 ==> Steady()
      requires stopBreakpoint != -SILENT - 1 && (stopSignal != SIGTRAP ==> randomSignal)
      requires randomSignal ==> stopBreakpoint == 0 && !stopStepResume
      requires stopStepResume ==> e.at.pc == stepAddress && stopBreakpoint == 0
      requires trapExpected != 0 ==> !breakpointsInserted
      requires stepAddress != 0 && (trapExpected == 0 || stopStepResume || stopBreakpoint != 0) ==> breakpointsInserted
      modifies table`chain, table`mem, this`stopBreakpoint,
               this`stepAddress, this`stepDuplicate, this`stepShadow, this`stepIn, this`stepWasIn, this`breakpointsInserted, this`anotherTrap,
               this`stepRangeStart, this`stepRangeEnd, this`removeOnFollowingStep, this`stepFrameAddress, this`stopStep, this`stopStackDummy, this`prologuePc
      ensures Core() && table.mem.Keys == old(table.mem).Keys && RangeOk() && (old(Lasting(table.chain)) ==> Lasting(table.chain))
      ensures what.FallThrough? ==> Steady()
      ensures what.FallThrough? && (anotherTrap || trapExpected != 0) ==> !breakpointsInserted
      ensures what.FallThrough? && stepAddress != 0 && trapExpected == 0 && randomSignal ==> breakpointsInserted
      ensures randomSignal && e.signalStops && !(runningInShell && stopSignal == SIGSEGV) ==>
        what.Break? && SameStep(old(stepAddress), old(stepDuplicate), old(stepShadow), old(stepWasIn))
      ensures what.FallThrough? && old(stepAddress) == 0 ==> stepAddress == if randomSignal then 0 else old(RunsOnTo(e))
      ensures what.FallThrough? && old(stepAddress) == 0 && stepAddress != 0 && !breakpointsInserted ==>
        NeverIn(stepAddress, old(table.chain), old(stepShadow))
      ensures old(stopBreakpoint) == -1 && !randomSignal && !stopStepResume && !e.inDummy && old(RunsOnTo(e)) != 0 ==>
        what.FallThrough? && anotherTrap && NeverIn(old(RunsOnTo(e)), old(table.chain), old(stepShadow))
      ensures !old(Stepping()) ==> !Stepping()
      ensures !randomSignal && old(stopBreakpoint) != 0 && old(stopBreakpoint) != -1 ==> what.Break?
      ensures !randomSignal && old(SteppedOut(e)) ==> what.Break?
      ensures !randomSignal && !e.inDummy && (old(stopBreakpoint) == 0 || old(stopBreakpoint) == -1) && old(SteppedWithin(e)) ==>
        what.FallThrough? && stepAddress == 0
    {
      hide Core, Steady, RangeOk, TextAddress, RunsOnTo, Here, EventOk, SameButInserted, Lasting, NoneAdded, InRange, TakesSignal, SteppedIntoCall, SteppedIntoHandler, CallTaken;
      RunsOnOnlyOnce(e);
      AddedNone(table.chain);
      if randomSignal && !(runningInShell && stopSignal == SIGSEGV) && e.signalStops {
        return Break;
      }
      if !randomSignal {
        what := HandleBreakpoint(e);
        SameButInsertedLasts(old(table.chain), table.chain);
        if what.Break? {
          return;
        }
      }
      if e.inDummy {
        stopStackDummy := true;
        return Break;
      }
      what := HandleStepping(e);
    }

    lemma AddedNone(chain: Chain)
      ensures NoneAdded(chain, chain)
    {
    }

    method WaitForInferior(events: seq<Stop>) returns (stopped: bool)
      requires Core() && Steady() && alive && (stepRangeEnd != 0 ==> stepRangeStart != 0 && TextAddress(prev.pc, table.mem.Keys))
      requires (trapExpected != 0 ==> !breakpointsInserted) && (stepAddress != 0 && trapExpected == 0 ==> breakpointsInserted)
      requires forall i :: 0 <= i < |events| ==> EventOk(events[i], table.mem.Keys)
      modifies this, table
      ensures Carried() && MarksLast() && spoiled == old(spoiled) && marksGood == old(marksGood)
      ensures marksGood ==> AllKeepMarks(log, |old(log)|)
      ensures if alive then Core() else stopped && ChainOk(table.chain, table.mem)
      ensures old(trapExpected) <= 1 && !old(runningInShell) ==> NoneStartUp(log, |old(log)|) && !runningInShell
      ensures old(trapExpected) <= 2 ==> StartUpEnds(log, |old(log)|, events)
      ensures !old(Stepping()) ==> !Stepping()
    {
      hide Core, Steady, EventOk, TextAddress, AllSafe, AllMarked, Lasting, Running, ChainOk, Kept, NoneStartUp, StartUpEnds, AllKeepMarks, NoTrapUpTo;
      hide SignalStops, RunsOnFromBreakpoint, RunsOnTo, NeverIn, SameStep, HitStops, StepEnds, StepGoesOn;
      removeOnFollowingStep := false;
      RunningFrom();
      RunningCore();
      RunningSafe();
      NoneYet(events);
      ghost var from := |log|;
      var i := 0;
      while i < |events|
        invariant 0 <= i <= |events|
        invariant Running() && Core() && alive && marksGood == old(marksGood) && spoiled == old(spoiled)
        invariant |log| == from + i && Carried() && MarksLast()
        invariant marksGood ==> AllKeepMarks(log, from)
        invariant old(trapExpected) <= 1 && !old(runningInShell) ==> trapExpected <= 1 && !runningInShell && NoneStartUp(log, from)
        invariant old(trapExpected) <= 2 ==> StartUpEnds(log, from, events) && StartUpNow(events, i)
        invariant !old(Stepping()) ==> !Stepping()
      {
        ghost var was := log;
        NoTrapNext(events, i);
        var what := TakeStop(events[i]);
        assert log[..from] == log[..|was|][..from];
        MarksOn(was, log, from);
        if what.Break? {
          return true;
        }
        RunningCore();
        RunningMarks();
        LogGrows(was, log, from, events);
        i := i + 1;
      }
      stopped := false;
    }

    lemma MarksOn(was: seq<Resumption>, now: seq<Resumption>, from: nat)
      requires from <= |was| <= |now| && now[..|was|] == was
      ensures AllKeepMarks(was, from) && AllKeepMarks(now, |was|) ==> AllKeepMarks(now, from)
    {
      hide AllMarked;
      assert forall i :: 0 <= i < |was| ==> now[i] == now[..|was|][i];
    }

    /** After i of the stops: how far start-up has come. */
    ghost predicate StartUpNow(events: seq<Stop>, i: nat)
      reads `trapExpected, `runningInShell
    {
      trapExpected <= 2 && (i > 0 ==> trapExpected <= 1) && (runningInShell || trapExpected > 1 ==> NoTrapUpTo(events, i - 1))
    }

    lemma NoneYet(events: seq<Stop>)
      ensures NoneStartUp(log, |log|) && StartUpEnds(log, |log|, events) && AllKeepMarks(log, |log|) && NoTrapUpTo(events, -1)
    {
    }

    lemma NoTrapNext(events: seq<Stop>, i: nat)
      requires i < |events|
      ensures NoTrapUpTo(events, i - 1) && (i > 0 ==> !IsTrap(events[i])) ==> NoTrapUpTo(events, i)
    {
    }

    lemma RunningFrom()
      requires Core() && Steady() && !removeOnFollowingStep
      requires stepRangeEnd != 0 ==> stepRangeStart != 0 && TextAddress(prev.pc, table.mem.Keys)
      requires (trapExpected != 0 ==> !breakpointsInserted) && (stepAddress != 0 && trapExpected == 0 ==> breakpointsInserted)
      ensures Running()
    {
    }

    lemma RunningMarks()
      requires Running()
      ensures marksGood ==> AllMarked(table.chain)
    {
    }

    // ----- the debugger in control -----

    /** Between commands: nothing is inserted. */
    ghost predicate Settled()
      reads table`chain, table`mem, `breakpointsInserted, `stepIn, `log
    {
      ChainOk(table.chain, table.mem) && !breakpointsInserted && !stepIn && AllSafe(log)
    }

    /** And so memory is as it would be without breakpoints. */
    ghost predicate Idle()
      reads table`chain, table`mem, table`clean, `breakpointsInserted, `stepIn, `log
    {
      Settled() && table.mem == table.clean
    }

    /** Where normal_stop is about to leave memory as it would be without breakpoints: by what the code has to
        hand, the word it will write over the step-resume address is the one already there. */
    predicate StopRestores()
      reads table`mem, `breakpointsInserted, `stepAddress, `stepDuplicate, `stepShadow
    {
      breakpointsInserted || !OwnStep() || (stepAddress in table.mem && stepShadow == table.mem[stepAddress])
    }

    /** What a stop leaves in memory: at the step-resume address its shadow, elsewhere the program's own words. */
    ghost predicate Restored()
      reads table`mem, table`clean, `stepAddress, `stepDuplicate, `stepShadow, `stepWasIn
    {
      && table.mem == (if OwnStep() then table.clean[stepAddress := stepShadow] else table.clean)
      && (OwnStep() ==> stepAddress in table.clean) && (stepWasIn ==> table.mem == table.clean)
    }

    /** normal_stop.  The step-resume breakpoint is removed whether or not it is in memory; where it
        has not been since it was set, what is written over its word is the shadow of another.  What is
        to be deleted at a stop is, dead or alive. */
    method NormalStop()
      requires if alive then Core() else ChainOk(table.chain, table.mem) && AllSafe(log)
      modifies table`chain, table`mem, this`stepIn, this`breakpointsInserted
      ensures Settled() && table.mem.Keys == old(table.mem).Keys
      ensures table.chain == AutoDelete(Out(old(table.chain)), stopBreakpoint, table.breakpointCommands == [])
      ensures old(Lasting(table.chain)) ==> Lasting(table.chain)
      ensures alive ==> Restored() && (table.mem == table.clean <==> old(StopRestores()))
    {
      hide Rescan, AutoDelete, OneFirst, Mapped, NumbersOk, AllSafe, Lasting, Restored, StopRestores, Core;
      OutLasts(table.chain);
      if alive {
        TakeAllOut();
      } else {
        stepIn := false;
        assert table.chain == Out(table.chain);
      }
      breakpointsInserted := false;
      AutoDeleteKeepsOk(table.chain, stopBreakpoint, table.breakpointCommands == [], table.mem);
      if Lasting(table.chain) { AutoDeleteLasts(table.chain, stopBreakpoint, table.breakpointCommands == []); }
      table.BreakpointAutoDelete(stopBreakpoint);
    }

    lemma OutLasts(chain: Chain)
      ensures Lasting(chain) ==> Lasting(Out(chain))
    {
      SameButInsertedLasts(chain, Out(chain));
    }

    method TakeAllOut()
      requires Core()
      modifies table`chain, table`mem, this`stepIn
      ensures ChainOk(table.chain, table.mem) && table.mem.Keys == old(table.mem).Keys && !stepIn && AllSafe(log)
      ensures table.chain == Out(old(table.chain))
      ensures Restored() && (table.mem == table.clean <==> old(StopRestores()))
    {
      hide Synced, OneFirst, Mapped, NumbersOk, Aligned, AllIn, AllSafe, NoneAt, SameButInserted;
      StopExactly();
      if OwnStep() && !stepWasIn {
        NothingInserted(table.chain, table.mem, table.clean);
      }
      RemoveStepBreakpoint();
      if breakpointsInserted {
        TakeBreakpointsOut();
        NothingInserted(table.chain, table.mem, table.clean);
      } else {
        assert table.chain == Out(table.chain);
        if !OwnStep() || stepWasIn {
          NothingInserted(table.chain, table.mem, table.clean);
        } else {
          MappedStill(old(table.mem));
        }
      }
    }

    lemma StopExactly()
      requires Core()
      ensures StopRestores() <==> stepWasIn || !OwnStep() || (stepAddress in table.clean && stepShadow == table.clean[stepAddress])
      ensures table.clean.Keys == table.mem.Keys && (OwnStep() ==> stepAddress in table.clean)
    {
      hide OneFirst, Mapped, NumbersOk, Aligned, AllIn, AllSafe, NoneAt;
      if !breakpointsInserted {
        NothingInserted(table.chain, table.mem, table.clean);
      }
    }

    lemma MappedStill(was: Memory)
      requires Mapped(table.chain, was) && was.Keys == table.mem.Keys
      ensures Mapped(table.chain, table.mem)
    {
    }

    method ClearProceedStatus()
      requires Settled()
      modifies table`chain, table`mem, table`breakpointCommands, this`trapExpected, this`stepRangeStart, this`stepRangeEnd, this`stepFrameAddress,
               this`stepOverCalls, this`stepAddress, this`stepWasIn, this`stopAfterTrap, this`stopAfterAttach
      ensures Settled() && trapExpected == 0 && stepRangeEnd == 0 && stepAddress == 0 && !stepWasIn && !stopAfterTrap && !stopAfterAttach
      ensures table.chain == AutoDelete(old(table.chain), 0, true) && table.mem == old(table.mem)
      ensures old(Lasting(table.chain)) ==> Lasting(table.chain)
    {
      hide Settled, AutoDelete, Lasting;
      if Lasting(table.chain) { AutoDeleteLasts(table.chain, 0, true); }
      trapExpected, stepRangeStart, stepRangeEnd, stepFrameAddress, stepOverCalls := 0, 0, 0, 0, -1;
      stepAddress, stepWasIn, stopAfterTrap, stopAfterAttach := 0, false, false, false;
      ClearBreakpointCommands();
    }

    method ClearBreakpointCommands()
      requires Settled()
      modifies table`chain, table`mem, table`breakpointCommands
      ensures Settled() && table.chain == AutoDelete(old(table.chain), 0, true) && table.mem == old(table.mem)
    {
      hide OneFirst, Mapped, NumbersOk, Rescan, AllSafe, AutoDelete;
      table.breakpointCommands := [];
      AutoDeleteKeepsOk(table.chain, 0, true, table.mem);
      table.BreakpointAutoDelete(0);
    }

    lemma IdleIsOut()
      requires Idle() && stepAddress == 0 && !stepWasIn && (marksGood ==> AllMarked(table.chain))
      ensures Core() && Steady() && !breakpointsInserted
    {
    }

    /** start_remote: the target stands waiting, with nothing of the debugger's in it. */
    method StartRemote()
      requires Idle()
      modifies this, table
      ensures Idle() && alive && trapExpected == 0 && stepRangeEnd == 0 && stepAddress == 0 && !stepWasIn
      ensures !stopAfterTrap && !stopAfterAttach && !runningInShell && log == old(log)
      ensures stepShadow == old(stepShadow) && removeOnFollowingStep == old(removeOnFollowingStep)
      ensures table.chain == AutoDelete(old(table.chain), 0, true) && table.mem == old(table.mem) && table.clean == old(table.clean)
    {
      hide AutoDelete, OneFirst, Mapped, NumbersOk, Aligned, AllSafe;
      ClearProceedStatus();
      runningInShell, alive, breakpointsInserted := false, true, false;
      ghost var was := table.chain;
      table.MarkBreakpointsOut();
      assert table.chain == was;
    }

    /** proceed: step off a breakpoint that is where the inferior stands, or put the breakpoints in;
        resume; and see the run through. */
    method Proceed(addr: int, signal: int, passSignal: bool, step: int, here: Place, events: seq<Stop>) returns (stopped: bool)
      requires Idle() && alive && trapExpected == 0 && stepAddress == 0 && !stepWasIn
      requires stepRangeEnd != 0 ==> stepRangeStart != 0
      requires TextAddress(here.pc, table.mem.Keys) && forall i :: 0 <= i < |events| ==> EventOk(events[i], table.mem.Keys)
      modifies this, table
      ensures Carried() && MarksLast() && spoiled == old(spoiled) && |log| > |old(log)|
      ensures log[|old(log)|].over <==>
        addr == -1 && !old(pcChanged) && Here(old(table.chain), Align(here.pc))
      ensures log[|old(log)|].step <==> step != 0 || log[|old(log)|].over
      ensures !log[|old(log)|].startUp && (!old(runningInShell) ==> NoneStartUp(log, |old(log)|) && !runningInShell)
      ensures AllMarked(old(table.chain)) ==> AllKeepMarks(log, |old(log)|)
      ensures (stopped ==> Settled()) && (stopped && alive ==> Restored()) && (!stopped ==> alive)
      ensures !old(Stepping()) ==> !Stepping()
    {
      hide Idle, Settled, ChainOk, AutoDelete, Core, Steady, EventOk, TextAddress, AllSafe, AllMarked, Lasting, Here,
           NoneStartUp, AllKeepMarks, Kept, Restored;
      ghost var before := log;
      SetForth(addr, signal, passSignal, step, here);
      ghost var start := log;
      stopped := WaitAndStop(events);
      assert log[..|before|] == log[..|start|][..|before|] == before;
      assert log[|before|] == log[..|start|][|before|];
      FirstLikeRest(log, start, before);
    }

    /** As far as the first resumption. */
    method SetForth(addr: int, signal: int, passSignal: bool, step: int, here: Place)
      requires Idle() && trapExpected == 0 && stepAddress == 0 && !stepWasIn
      modifies table`chain, table`mem, this`breakpointsInserted, this`trapExpected, this`stopAfterTrap, this`stopSignal, this`prev, this`log,
               this`marksGood
      ensures Core() && Steady() && table.mem.Keys == old(table.mem).Keys && prev == here && trapExpected <= 1
      ensures (trapExpected != 0 ==> !breakpointsInserted) && marksGood == AllMarked(old(table.chain))
      ensures |log| == |old(log)| + 1 && log[..|old(log)|] == old(log) && !log[|old(log)|].startUp
      ensures log[|old(log)|].over <==> addr == -1 && !pcChanged && Here(old(table.chain), Align(here.pc))
      ensures log[|old(log)|].step <==> step != 0 || log[|old(log)|].over
      ensures marksGood ==> AllMarked(log[|old(log)|].chain)
      ensures old(Lasting(table.chain)) ==> Lasting(table.chain) && AllMarked(log[|old(log)|].chain)
    {
      hide Idle, Core, Steady, AllMarked, Lasting, SameButInserted;
      marksGood := AllMarked(table.chain);
      var onBreakpoint := table.BreakpointHereP(here.pc);
      assert onBreakpoint == Here(table.chain, Align(here.pc));
      hide Here;
      IdleIsOut();
      ghost var chain := table.chain;
      StartOff(addr == -1 && !pcChanged && onBreakpoint, signal, passSignal, step, here);
      SteadyMarks();
      SameButInsertedLasts(chain, table.chain);
      LastingMarks(table.chain);
    }

    lemma LastingMarks(chain: Chain)
      ensures Lasting(chain) ==> AllMarked(chain)
    {
    }

    lemma FirstLikeRest(now: seq<Resumption>, start: seq<Resumption>, before: seq<Resumption>)
      requires |start| == |before| + 1 && |now| >= |start| && now[..|start|] == start
      ensures AllMarked(start[|before|].chain) && AllKeepMarks(now, |start|) ==> AllKeepMarks(now, |before|)
      ensures !start[|before|].startUp && NoneStartUp(now, |start|) ==> NoneStartUp(now, |before|)
    {
      assert now[|before|] == now[..|start|][|before|];
    }

    /** The first resumption. */
    method StartOff(oneproc: bool, signal: int, passSignal: bool, step: int, here: Place)
      requires Core() && Steady() && stepAddress == 0 && !breakpointsInserted && trapExpected == 0
      modifies table`chain, table`mem, this`breakpointsInserted, this`trapExpected, this`stopAfterTrap, this`stopSignal, this`prev, this`log
      ensures Core() && Steady() && table.mem.Keys == old(table.mem).Keys && prev == here
      ensures breakpointsInserted == !oneproc && (trapExpected == if oneproc then 1 else 0)
      ensures SameButInserted(old(table.chain), table.chain)
      ensures |log| == |old(log)| + 1 && log[..|old(log)|] == old(log) && log[|old(log)|].chain == table.chain
      ensures log[|old(log)|].step == (oneproc || step != 0) && log[|old(log)|].over == oneproc && !log[|old(log)|].startUp
      ensures stopAfterTrap == (old(stopAfterTrap) || step < 0)
    {
      hide Core, Steady, SameButInserted;
      stopAfterTrap := stopAfterTrap || step < 0;
      SetOff(oneproc);
      stopSignal := if signal >= 0 then signal else if passSignal then stopSignal else 0;
      Resume(oneproc || step != 0, false, here);
    }

    /** wait_for_inferior and normal_stop. */
    method WaitAndStop(events: seq<Stop>) returns (stopped: bool)
      requires Core() && Steady() && alive && (stepRangeEnd != 0 ==> stepRangeStart != 0 && TextAddress(prev.pc, table.mem.Keys))
      requires (trapExpected != 0 ==> !breakpointsInserted) && (stepAddress != 0 && trapExpected == 0 ==> breakpointsInserted)
      requires forall i :: 0 <= i < |events| ==> EventOk(events[i], table.mem.Keys)
      modifies this, table
      ensures Carried() && MarksLast() && spoiled == old(spoiled) && marksGood == old(marksGood)
      ensures marksGood ==> AllKeepMarks(log, |old(log)|)
      ensures old(trapExpected) <= 1 && !old(runningInShell) ==> NoneStartUp(log, |old(log)|) && !runningInShell
      ensures old(trapExpected) <= 2 ==> StartUpEnds(log, |old(log)|, events)
      ensures (stopped ==> Settled()) && (stopped && alive ==> Restored()) && (!stopped ==> alive)
      ensures !old(Stepping()) ==> !Stepping()
    {
      hide Core, Steady, EventOk, TextAddress, AllSafe, AllMarked, Lasting, Settled, ChainOk, AllKeepMarks, NoneStartUp, StartUpEnds, OwnStep,
           AutoDelete, Out, Kept, Restored, StopRestores;
      stopped := WaitForInferior(events);
      if stopped {
        NormalStop();
      }
    }

    /** Step over the breakpoint underfoot, or run with breakpoints in. */
    method SetOff(oneproc: bool)
      requires Core() && Steady() && stepAddress == 0 && !breakpointsInserted && trapExpected == 0
      modifies table`chain, table`mem, this`breakpointsInserted, this`trapExpected
      ensures Core() && Steady() && table.mem.Keys == old(table.mem).Keys
      ensures breakpointsInserted == !oneproc && (trapExpected == if oneproc then 1 else 0)
      ensures SameButInserted(old(table.chain), table.chain)
    {
      if oneproc {
        trapExpected := 1;
      } else {
        hide Synced, OneFirst, Mapped, NumbersOk, Aligned, AllIn, AllSafe, NoneAt, SameButInserted, Steady;
        PutBreakpointsIn();
      }
    }

    lemma SteadyMarks()
      requires Steady()
      ensures marksGood ==> AllMarked(table.chain)
    {
    }

    /** start_inferior, the program being run by a shell: two traps come before its own first
        instruction. */
    method StartInferior(events: seq<Stop>) returns (stopped: bool)
      requires Idle() && trapExpected == 0 && stepAddress == 0 && !stepWasIn && stepRangeEnd == 0
      requires forall i :: 0 <= i < |events| ==> EventOk(events[i], table.mem.Keys)
      modifies this, table
      ensures Carried() && MarksLast() && spoiled == old(spoiled) && !Stepping()
      ensures StartUpEnds(log, |old(log)|, events)
      ensures AllMarked(old(table.chain)) ==> AllKeepMarks(log, |old(log)|)
      ensures (stopped ==> Settled()) && (stopped && alive ==> Restored()) && (!stopped ==> alive)
    {
      hide Idle, Settled, ChainOk, Core, Steady, EventOk, AllSafe, AllMarked, Lasting, Safe, SameButInserted, StartUpEnds, AllKeepMarks,
           NoneStartUp, Kept, Restored;
      marksGood := AllMarked(table.chain);
      IdleIsOut();
      trapExpected, runningInShell, breakpointsInserted, alive := 2, false, false, true;
      stopped := WaitAndStop(events);
    }

    // ----- a session -----

    lemma IdleWhenClean()
      requires Settled() && table.mem == table.clean
      ensures Idle()
    {
    }

    lemma IdleIsSettled()
      requires Idle()
      ensures Settled() && AllSafe(log) && ChainOk(table.chain, table.mem) && table.mem == table.clean
    {
    }

    lemma SettledParts()
      requires Settled()
      ensures ChainOk(table.chain, table.mem) && AllSafe(log) && !breakpointsInserted && !stepIn
    {
    }

    lemma SettledWhole()
      requires ChainOk(table.chain, table.mem) && AllSafe(log) && !breakpointsInserted && !stepIn
      ensures Settled()
    {
    }

    /** The stepping commands, continue and jump: the last state cleared, the range to step through set,
        and off.  Where the stop leaves a stale word behind, that is what the program has from then on. */
    method GoOn(g: Action) returns (stopped: bool)
      requires g.Go? && ActionOk(g, table.mem.Keys) && Idle() && alive
      modifies this, table
      ensures Carried() && MarksLast() && |log| > |old(log)|
      ensures (stopped ==> Settled() && (alive ==> Idle())) && (!stopped ==> alive)
      ensures !old(runningInShell) ==> NoneStartUp(log, |old(log)|) && !runningInShell
      ensures spoiled == old(spoiled) || (stopped && alive && OwnStep() && spoiled == old(spoiled) + {stepAddress})
      ensures g.rangeEnd == 0 ==> spoiled == old(spoiled)
    {
      hide Idle, Settled, AllSafe, AutoDelete, ChainOk, EventOk, TextAddress, AllMarked, Lasting, AllKeepMarks, NoneStartUp, Kept, Restored;
      IdleIsSettled();
      ClearProceedStatus();
      IdleWhenClean();
      stepRangeStart, stepRangeEnd, stepFrameAddress, stepOverCalls := g.rangeStart, g.rangeEnd, g.frame, g.overCalls;
      stopped := Proceed(g.addr, g.signal, g.passSignal, g.step, g.here, g.events);
      if stopped && alive {
        Reconcile();
      }
    }

    /** Any stale word is the program's own from here on, and its address noted. */
    ghost method Reconcile()
      requires Settled() && Restored()
      modifies table`clean, this`spoiled
      ensures Idle() && (old(Kept()) ==> Kept())
      ensures spoiled == if table.mem == old(table.clean) then old(spoiled) else old(spoiled) + {stepAddress}
      ensures table.mem != old(table.clean) ==> OwnStep()
    {
      hide ChainOk, AllSafe;
      if table.mem != table.clean {
        spoiled := spoiled + {stepAddress};
        table.clean := table.mem;
      }
    }

    /** The run command: whatever ran before is gone, and memory holds the program's image. */
    method StartAgain(image: Memory, events: seq<Stop>) returns (stopped: bool)
      requires Settled() && image.Keys == table.mem.Keys && forall i :: 0 <= i < |events| ==> EventOk(events[i], image.Keys)
      modifies this, table
      ensures Carried() && MarksLast() && Kept()
      ensures (stopped ==> Settled() && (alive ==> Idle())) && (!stopped ==> alive)
      ensures StartUpEnds(log, |old(log)|, events) && spoiled == {}
    {
      hide Settled, AllSafe, AutoDelete, ChainOk, EventOk, AllMarked, Lasting, AllKeepMarks, StartUpEnds, Restored;
      ClearProceedStatus();
      SettledParts();
      ImageOk(image);
      table.mem, table.clean, untouched, spoiled := image, image, image, {};
      SettledWhole();
      IdleWhenClean();
      assert Kept();
      hide Idle, Kept;
      stopped := StartInferior(events);
      if stopped && alive {
        Reconcile();
      }
    }

    lemma ImageOk(image: Memory)
      requires ChainOk(table.chain, table.mem) && image.Keys == table.mem.Keys
      ensures ChainOk(table.chain, image)
    {
      hide OneFirst, NumbersOk, Aligned, NoneInserted;
    }

    /** A whole session: any sequence of breakpoint commands, runs and restarts, from the debugger's own
        start on or any point between commands.  Every resumption in it is safe, and where the shell is
        not being run none is for start-up.  Between runs every word but the spoiled ones is as if the
        debugger had never written to the program, and only stepping spoils any.  Without temporary
        breakpoints, no free resumption misses an enabled breakpoint or the step-resume address. */
    method Session(actions: seq<Action>, last: int) returns (stopped: bool, newLast: int)
      requires Settled() && (alive ==> Idle()) && 0 <= last < SILENT - |actions|
      requires forall i :: 0 <= i < |actions| ==> ActionOk(actions[i], table.mem.Keys)
      modifies this, table
      ensures Carried() && (stopped ==> Settled() && (alive ==> Idle()))
      ensures stopped && alive && old(Kept()) ==> forall a :: a in table.mem && a !in spoiled ==> table.mem[a] == untouched[a]
      ensures (forall i :: 0 <= i < |actions| ==> !Steps(actions[i])) ==> spoiled <= old(spoiled)
      ensures old(Lasting(table.chain)) && (forall i :: 0 <= i < |actions| ==> LastingAction(actions[i])) ==>
        Lasting(table.chain) && AllMeetAll(log, |old(log)|)
      ensures !old(runningInShell) && (forall i :: 0 <= i < |actions| ==> !actions[i].Start?) ==> NoneStartUp(log, |old(log)|)
    {
      stopped, newLast := ActAll(actions, last);
      if old(Lasting(table.chain)) && forall i :: 0 <= i < |actions| ==> LastingAction(actions[i]) {
        hide AllSafe, AllKeepMarks, AllMeetAll;
        FreeRunsMeetEveryBreakpoint(log, |old(log)|);
      }
    }

    method ActAll(actions: seq<Action>, last: int) returns (stopped: bool, newLast: int)
      requires Settled() && (alive ==> Idle()) && 0 <= last < SILENT - |actions|
      requires forall i :: 0 <= i < |actions| ==> ActionOk(actions[i], table.mem.Keys)
      modifies this, table
      ensures Carried() && (stopped ==> Settled() && (alive ==> Idle()))
      ensures (forall i :: 0 <= i < |actions| ==> !Steps(actions[i])) ==> spoiled <= old(spoiled)
      ensures (forall i :: 0 <= i < |actions| ==> LastingAction(actions[i])) ==> MarksLast()
      ensures !old(runningInShell) && (forall i :: 0 <= i < |actions| ==> !actions[i].Start?) ==> NoneStartUp(log, |old(log)|)
    {
      hide Settled, Idle, AllSafe, ChainOk, NoneStartUp, Apply, StartUpEnds, ActionOk, Kept, Lasting, AllKeepMarks, LastingAction, Steps;
      stopped, newLast := true, last;
      SettledParts();
      NoneYet([]);
      var i := 0;
      while i < |actions|
        invariant 0 <= i <= |actions| && 0 <= newLast < SILENT - |actions| + i && stopped
        invariant Settled() && (alive ==> Idle()) && Carried()
        invariant (forall k :: 0 <= k < |actions| ==> !Steps(actions[k])) ==> spoiled <= old(spoiled)
        invariant (forall k :: 0 <= k < |actions| ==> LastingAction(actions[k])) ==> MarksLast()
        invariant !old(runningInShell) && (forall k :: 0 <= k < |actions| ==> !actions[k].Start?) ==>
          NoneStartUp(log, |old(log)|) && !runningInShell
      {
        ghost var was := log;
        stopped, newLast := Act(actions[i], newLast);
        LogLonger(old(log), was, log);
        MarksOn(was, log, |old(log)|);
        if !stopped {
          return;
        }
        i := i + 1;
      }
    }

    lemma LogLonger(before: seq<Resumption>, was: seq<Resumption>, now: seq<Resumption>)
      requires |before| <= |was| <= |now| && was[..|before|] == before && now[..|was|] == was
      ensures now[..|before|] == before
      ensures NoneStartUp(was, |before|) && NoneStartUp(now, |was|) ==> NoneStartUp(now, |before|)
    {
      assert now[..|before|] == now[..|was|][..|before|];
      assert forall i :: 0 <= i < |was| ==> now[i] == now[..|was|][i];
    }

    /** One command, run or restart.  Without a program, a run is refused. */
    method Act(action: Action, last: int) returns (stopped: bool, newLast: int)
      requires Settled() && (alive ==> Idle()) && ActionOk(action, table.mem.Keys) && 0 <= last < SILENT - 1
      modifies this, table
      ensures Carried() && (stopped ==> Settled() && (alive ==> Idle())) && 0 <= newLast <= last + 1
      ensures !old(runningInShell) && !action.Start? ==> NoneStartUp(log, |old(log)|) && !runningInShell
      ensures !Steps(action) ==> spoiled <= old(spoiled)
      ensures LastingAction(action) ==> MarksLast()
      ensures action.Give? ==> table.chain == Apply(old(table.chain), last, action.command) && table.mem == old(table.mem) && log == old(log)
    {
      hide Settled, Idle, AllSafe, ChainOk, NoneStartUp, Apply, StartUpEnds, EventOk, TextAddress, Kept, Lasting, AllKeepMarks, LastingCommand;
      stopped, newLast := true, last;
      SettledParts();
      NoneYet([]);
      if action.Give? {
        if alive { IdleIsSettled(); }
        if LastingAction(action) && Lasting(table.chain) { CommandLasts(table.chain, last, action.command); }
        newLast := table.Execute(last, action.command);
        SettledWhole();
        if alive { IdleWhenClean(); }
      } else if action.Start? {
        stopped := StartAgain(action.image, action.events);
        newLast := if table.chain == [] then 0 else last;
      } else if alive {
        stopped := GoOn(action);
        newLast := if table.chain == [] then 0 else last;
      }
    }
  }

  /** What the user asks for: a breakpoint command, a run from where the program stands, or a new run. */
  datatype Action =
    | Give(command: Command)
    | Go(addr: int, signal: int, passSignal: bool, step: int, rangeStart: int, rangeEnd: int, frame: int, overCalls: int,
         here: Place, events: seq<Stop>)
    | Start(image: Memory, events: seq<Stop>)

  /** A run through a range of addresses. */
  predicate Steps(a: Action) {
    a.Go? && a.rangeEnd != 0
  }

  predicate LastingAction(a: Action) {
    a.Give? ==> LastingCommand(a.command)
  }

  predicate ActionOk(a: Action, words: set<int>) {
    match a
    case Give(c) => CommandOk(c, words)
    case Go(_, _, _, _, rangeStart, rangeEnd, _, _, here, events) =>
      (rangeEnd != 0 ==> rangeStart != 0) && TextAddress(here.pc, words) && forall i :: 0 <= i < |events| ==> EventOk(events[i], words)
    case Start(image, events) => image.Keys == words && forall i :: 0 <= i < |events| ==> EventOk(events[i], words)
  }

  /** A program to be debugged, with a breakpoint at 0x200. */
  method OneBreakpoint(word: int) returns (c: Controller)
    ensures fresh(c) && fresh(c.table) && c.Idle() && c.alive
    ensures c.table.mem == map[0x100 := 1, 0x104 := word, 0x200 := 2] && c.stepShadow == 0
    ensures c.table.chain == [Breakpoint(1, 0x200, Enabled, 0, 0, false, false, [])]
    ensures c.trapExpected == 0 && !c.stopAfterTrap && !c.stopAfterAttach && !c.runningInShell && c.stepAddress == 0 && !c.stepWasIn
    ensures !c.removeOnFollowingStep
  {
    hide Apply, AutoDelete;
    var table := new BreakpointTable(map[0x100 := 1, 0x104 := word, 0x200 := 2]);
    var last := table.Execute(0, Set(0x200, false));
    OneSet();
    c := new Controller(table);
    c.StartRemote();
  }

  /** It stands at 0x100, about to be stepped from there. */
  method AboutToStep(word: int) returns (c: Controller)
    ensures fresh(c) && fresh(c.table) && c.Core() && c.Steady() && c.alive && !c.breakpointsInserted
    ensures c.table.mem == c.table.clean == map[0x100 := 1, 0x104 := word, 0x200 := 2] && c.stepShadow == 0
    ensures c.table.chain == [Breakpoint(1, 0x200, Enabled, 0, 0, false, false, [])]
    ensures c.trapExpected == 0 && !c.stopAfterTrap && !c.stopAfterAttach && !c.runningInShell && c.stepAddress == 0 && !c.removeOnFollowingStep
    ensures c.stepRangeStart == 0x100 && c.stepRangeEnd == 0x104 && c.stepOverCalls == 1
  {
    hide Controller.Idle, Controller.Core, Controller.Steady, AllMarked;
    c := OneBreakpoint(word);
    c.IdleIsSettled();
    c.stepRangeStart, c.stepRangeEnd, c.stepOverCalls, c.marksGood := 0x100, 0x104, 1, false;
    c.IdleIsOut();
  }

  method StepFrom0x100(word: int) returns (c: Controller)
    ensures fresh(c) && fresh(c.table) && c.Running() && c.alive && c.table.mem.Keys == {0x100, 0x104, 0x200}
    ensures c.table.clean == map[0x100 := 1, 0x104 := word, 0x200 := 2] && c.stepShadow == 0
    ensures SameButInserted([Breakpoint(1, 0x200, Enabled, 0, 0, false, false, [])], c.table.chain)
    ensures c.trapExpected == 0 && !c.stopAfterTrap && !c.stopAfterAttach && !c.runningInShell && c.stepAddress == 0
    ensures c.stepRangeStart == 0x100 && c.stepRangeEnd == 0x104 && c.stepOverCalls == 1 && c.prev == Place(0x100, 0x1000, 0x100, false)
  {
    hide Controller.Core, Controller.Steady, Controller.Running, SameButInserted;
    c := AboutToStep(word);
    assert TextAddress(0x100, c.table.mem.Keys);
    hide TextAddress;
    c.StartOff(false, -1, true, 1, Place(0x100, 0x1000, 0x100, false));
    c.RunningFrom();
  }

  /** The step has called the function at 0x200. */
  method CallFrom0x100(word: int) returns (c: Controller)
    ensures fresh(c) && fresh(c.table) && c.Running() && c.alive && c.table.mem.Keys == {0x100, 0x104, 0x200}
    ensures c.table.clean == map[0x100 := 1, 0x104 := word, 0x200 := 2] && !c.stopAfterAttach
    ensures c.stepAddress == 0x104 && c.stepShadow == 0 && !c.stepWasIn && !c.stepDuplicate
  {
    hide Controller.Running, Controller.Core, StopStatus, Lasting;
    c := StepFrom0x100(word);
    OnlyOne(c.table.chain);
    hide SameButInserted;
    var call := Stopped(SIGTRAP, Place(0x200, 0x1000, 0x200, false), 1, {}, true, map[], false, true, 0x104, 0x200);
    var what := c.TakeStop(call);
    assert !Here(c.table.chain, 0x104);
  }

  /** Stepping from 0x100 into a function at 0x200 that is to be stepped over, and whose first instruction
      has a breakpoint with a false condition: the breakpoints are out when the step-resume breakpoint is
      set at the return address, 0x104.  A signal that stops the program before they are back in leaves
      there a word that was never in the program. */
  method SetButNeverIn(word: int) returns (c: Controller)
    requires word != 0
    ensures c.alive && c.table.mem == map[0x100 := 1, 0x104 := 0, 0x200 := 2]
    ensures c.table.clean == map[0x100 := 1, 0x104 := word, 0x200 := 2]
  {
    hide Controller.Running, Controller.Core, AutoDelete, Lasting, Out;
    c := CallFrom0x100(word);
    var interrupt := Stopped(2, Place(0x200, 0x1000, 0x200, false), 1, {}, true, map[], false, true, 0x104, 0x200);
    var what := c.TakeStop(interrupt);
    c.NormalStop();
  }

  lemma OneSet()
    ensures var chain := Apply([], 0, Set(0x200, false));
      && chain == [Breakpoint(1, 0x200, Enabled, 0, 0, false, false, [])]
      && AutoDelete(chain, 0, true) == chain
  {
    var chain := Apply([], 0, Set(0x200, false));
    assert chain == [Breakpoint(1, 0x200, Enabled, 0, 0, false, false, [])];
    assert Find(chain, MOMENTARY) == 1 + Find(chain[1..], MOMENTARY) == 1;
  }

  lemma OnlyOne(chain: Chain)
    requires SameButInserted([Breakpoint(1, 0x200, Enabled, 0, 0, false, false, [])], chain)
    ensures StopStatus(chain, 0x200, {}, 0).1 == -1 && |chain| == 1 && chain[0].address == 0x200
  {
    assert StopStatus(chain, 0x200, {}, 1) == (chain, 0, []);
  }
}
