/** breakpoint.c: the breakpoint chain, its duplicate marks, and the words it patches in the target. */
module Breakpoints {
  import opened Wrappers

  datatype Enable = Disabled | Enabled | Temporary | Delete

  datatype Breakpoint = Breakpoint(
    number: int,
    address: int,
    enable: Enable,
    ignoreCount: nat,
    shadow: int,            // what was at the address, while inserted
    inserted: bool,
    duplicate: bool,        // not the first enabled breakpoint at its address
    commands: seq<string>)

  type Chain = seq<Breakpoint>
  type Memory = map<int, int>   // words, by address

  const BREAK_INSN: int := 0xF000D081
  const SILENT: int := 0x1000000
  const MOMENTARY: int := -3

  predicate On(b: Breakpoint) { !b.enable.Disabled? }

  predicate OnAt(b: Breakpoint, a: int) { On(b) && b.address == a }

  // ----- duplicate marks -----

  /** An enabled breakpoint before the i-th has the i-th's address. */
  predicate Earlier(chain: Chain, i: nat)
    requires i < |chain|
  {
    exists j :: 0 <= j < i && OnAt(chain[j], chain[i].address)
  }

  predicate MarkedRight(chain: Chain, i: nat)
    requires i < |chain|
  {
    On(chain[i]) ==> (chain[i].duplicate <==> Earlier(chain, i))
  }

  /** The invariant: exactly the first enabled breakpoint at each address is not a duplicate. */
  predicate AllMarked(chain: Chain) {
    forall i :: 0 <= i < |chain| ==> MarkedRight(chain, i)
  }

  predicate MarkedExcept(chain: Chain, a: int) {
    forall i :: 0 <= i < |chain| && chain[i].address != a ==> MarkedRight(chain, i)
  }

  /** The half of it that keeps a word from being patched twice. */
  predicate OneFirst(chain: Chain) {
    forall i, j :: 0 <= i < j < |chain| && On(chain[i]) && OnAt(chain[j], chain[i].address) ==> chain[j].duplicate
  }

  /** Where any breakpoint is enabled, one that is not a duplicate comes first, and only one. */
  lemma {:induction false} FirstStandsForAll(chain: Chain, i: nat) returns (first: nat)
    requires AllMarked(chain) && i < |chain| && On(chain[i])
    ensures first <= i && OnAt(chain[first], chain[i].address) && !chain[first].duplicate
    ensures forall j :: 0 <= j < |chain| && OnAt(chain[j], chain[i].address) ==> first <= j && (!chain[j].duplicate ==> j == first)
  {
    if Earlier(chain, i) {
      var j :| 0 <= j < i && OnAt(chain[j], chain[i].address);
      first := FirstStandsForAll(chain, j);
    } else {
      first := i;
      assert MarkedRight(chain, i);
      forall j | 0 <= j < |chain| && OnAt(chain[j], chain[i].address)
        ensures first <= j && (!chain[j].duplicate ==> j == first)
      {
        assert MarkedRight(chain, j);
        assert j > i ==> OnAt(chain[i], chain[j].address);
      }
    }
  }

  /** check_duplicates: the marks at address `a` made right, the others left alone. */
  function Rescan(chain: Chain, a: int): (r: Chain)
    ensures |r| == |chain|
  {
    seq(|chain|, i requires 0 <= i < |chain| =>
      if OnAt(chain[i], a) then chain[i].(duplicate := Earlier(chain, i)) else chain[i])
  }

  lemma RescanMarks(chain: Chain, a: int)
    requires MarkedExcept(chain, a)
    ensures AllMarked(Rescan(chain, a))
  {
    var r := Rescan(chain, a);
    forall i | 0 <= i < |r|
      ensures MarkedRight(r, i)
    {
      EarlierLike(chain, r, i);
      if chain[i].address != a {
        assert MarkedRight(chain, i);
      }
    }
  }

  /** What is earlier depends only on addresses and which breakpoints are enabled. */
  lemma EarlierLike(chain: Chain, r: Chain, i: nat)
    requires |r| == |chain| && i < |r|
    requires forall j :: 0 <= j <= i ==> r[j].address == chain[j].address && (j < i ==> (On(r[j]) <==> On(chain[j])))
    ensures Earlier(r, i) <==> Earlier(chain, i)
  {
    if Earlier(r, i) {
      var j :| 0 <= j < i && OnAt(r[j], r[i].address);
      assert OnAt(chain[j], chain[i].address);
    }
    if Earlier(chain, i) {
      var j :| 0 <= j < i && OnAt(chain[j], chain[i].address);
      assert OnAt(r[j], r[i].address);
    }
  }

  // ----- the commands, on chains -----

  /** The position of the breakpoint with this number, or the length if there is none. */
  function Find(chain: Chain, number: int): (i: nat)
    ensures i <= |chain| && (i < |chain| ==> chain[i].number == number)
    ensures forall j :: 0 <= j < i ==> chain[j].number != number
  {
    if chain == [] || chain[0].number == number then 0 else 1 + Find(chain[1..], number)
  }

  function Fresh(number: int, pc: int): Breakpoint {
    Breakpoint(number, Align(pc), Enabled, 0, 0, false, false, [])
  }

  function SetRaw(chain: Chain, number: int, pc: int): Chain {
    Rescan(chain + [Fresh(number, pc)], Align(pc))
  }

  function Without(chain: Chain, i: nat): Chain
    requires i < |chain|
  {
    chain[..i] + chain[i + 1..]
  }

  function DeleteAt(chain: Chain, i: nat): Chain
    requires i < |chain|
  {
    Rescan(Without(chain, i), chain[i].address)
  }

  function EnableAt(chain: Chain, i: nat, enable: Enable): Chain
    requires i < |chain|
  {
    Rescan(chain[i := chain[i].(enable := enable)], chain[i].address)
  }

  /** Every breakpoint at address `a` deleted, in chain order. */
  function ClearAt(chain: Chain, a: int, from: nat): Chain
    requires from <= |chain|
    decreases |chain| - from
  {
    if from == |chain| then chain
    else if chain[from].address == a then ClearAt(DeleteAt(chain, from), a, from)
    else ClearAt(chain, a, from + 1)
  }

  datatype Command =
    | Set(pc: int, temporary: bool)
    | SetMomentary(pc: int)
    | DeleteNumber(number: int)
    | Clear(pc: int)
    | SetEnable(number: int, enable: Enable)   // enable, disable, enable once, enable delete

  /** A breakpoint just set is given its mode afterwards; the mode is never Disabled. */
  function SetMode(chain: Chain, enable: Enable): Chain
    requires chain != []
  {
    chain[|chain| - 1 := chain[|chain| - 1].(enable := enable)]
  }

  function Apply(chain: Chain, last: int, command: Command): Chain {
    match command
    case Set(pc, temporary) =>
      var r := SetRaw(chain, last + 1, pc);
      if temporary then SetMode(r, Temporary) else r
    case SetMomentary(pc) => SetMode(SetRaw(chain, MOMENTARY, pc), Enable.Delete)
    case DeleteNumber(n) => var i := Find(chain, n); if i == |chain| then chain else DeleteAt(chain, i)
    case Clear(pc) => ClearAt(chain, Align(pc), 0)
    case SetEnable(n, e) => var i := Find(chain, n); if i == |chain| then chain else EnableAt(chain, i, e)
  }

  /** The number last given out; it starts again once the last breakpoint is deleted. */
  function LastNumber(was: Chain, last: int, command: Command, now: Chain): int {
    if command.Set? then last + 1 else if |now| < |was| && now == [] then 0 else last
  }

  function ApplyAll(chain: Chain, last: int, commands: seq<Command>): Chain
    decreases |commands|
  {
    if commands == [] then chain
    else
      var r := Apply(chain, last, commands[0]);
      ApplyAll(r, LastNumber(chain, last, commands[0], r), commands[1..])
  }

  /** Deleted once the program has stopped: the breakpoint that stopped it, if set to be, and a
      momentary one, unless the breakpoint that stopped it left commands to be done. */
  function AutoDelete(chain: Chain, bnum: int, momentary: bool): Chain {
    var i := Find(chain, bnum);
    var c := if bnum != 0 && i < |chain| && chain[i].enable.Delete? then DeleteAt(chain, i) else chain;
    var j := Find(c, MOMENTARY);
    if momentary && j < |c| then DeleteAt(c, j) else c
  }

  lemma AutoDeleteMarks(chain: Chain, bnum: int, momentary: bool)
    requires AllMarked(chain)
    ensures AllMarked(AutoDelete(chain, bnum, momentary))
  {
    hide AllMarked, Rescan;
    var i := Find(chain, bnum);
    if bnum != 0 && i < |chain| && chain[i].enable.Delete? { DeleteMarks(chain, i); }
    var c := if bnum != 0 && i < |chain| && chain[i].enable.Delete? then DeleteAt(chain, i) else chain;
    if Find(c, MOMENTARY) < |c| { DeleteMarks(c, Find(c, MOMENTARY)); }
  }

  lemma SetRawMarks(chain: Chain, number: int, pc: int)
    requires AllMarked(chain)
    ensures AllMarked(SetRaw(chain, number, pc))
  {
    var r := chain + [Fresh(number, pc)];
    forall i | 0 <= i < |r| && r[i].address != Align(pc)
      ensures MarkedRight(r, i)
    {
      assert MarkedRight(chain, i);
      PrefixEarlier(chain, r, i);
    }
    RescanMarks(r, Align(pc));
  }

  lemma PrefixEarlier(chain: Chain, r: Chain, i: nat)
    requires i < |chain| <= |r| && r[..|chain|] == chain
    ensures Earlier(r, i) <==> Earlier(chain, i)
  {
    assert forall j :: 0 <= j < |chain| ==> r[j] == r[..|chain|][j];
    if Earlier(r, i) {
      var j :| 0 <= j < i && OnAt(r[j], r[i].address);
      assert OnAt(chain[j], chain[i].address);
    }
    if Earlier(chain, i) {
      var j :| 0 <= j < i && OnAt(chain[j], chain[i].address);
      assert OnAt(r[j], r[i].address);
    }
  }

  lemma SetModeMarks(chain: Chain, enable: Enable)
    requires chain != [] && AllMarked(chain) && On(chain[|chain| - 1]) && !enable.Disabled?
    ensures AllMarked(SetMode(chain, enable))
  {
    var r := SetMode(chain, enable);
    forall i | 0 <= i < |r|
      ensures MarkedRight(r, i)
    {
      assert MarkedRight(chain, i);
      EarlierLike(chain, r, i);
    }
  }

  lemma DeleteMarks(chain: Chain, i: nat)
    requires i < |chain| && AllMarked(chain)
    ensures AllMarked(DeleteAt(chain, i))
  {
    var r := Without(chain, i);
    var a := chain[i].address;
    forall k | 0 <= k < |r| && r[k].address != a
      ensures MarkedRight(r, k)
    {
      var old' := if k < i then k else k + 1;
      assert r[k] == chain[old'] && MarkedRight(chain, old');
      if Earlier(chain, old') {
        var j :| 0 <= j < old' && OnAt(chain[j], chain[old'].address);
        var j' := if j < i then j else j - 1;
        assert r[j'] == chain[j];
        assert OnAt(r[j'], r[k].address);
      }
      if Earlier(r, k) {
        var j' :| 0 <= j' < k && OnAt(r[j'], r[k].address);
        var j := if j' < i then j' else j' + 1;
        assert r[j'] == chain[j];
        assert OnAt(chain[j], chain[old'].address);
      }
    }
    RescanMarks(r, a);
  }

  lemma EnableMarks(chain: Chain, i: nat, enable: Enable)
    requires i < |chain| && AllMarked(chain)
    ensures AllMarked(EnableAt(chain, i, enable))
  {
    var r := chain[i := chain[i].(enable := enable)];
    var a := chain[i].address;
    forall k | 0 <= k < |r| && r[k].address != a
      ensures MarkedRight(r, k)
    {
      assert MarkedRight(chain, k);
      if Earlier(chain, k) {
        var j :| 0 <= j < k && OnAt(chain[j], chain[k].address);
        assert OnAt(r[j], r[k].address);
      }
      if Earlier(r, k) {
        var j :| 0 <= j < k && OnAt(r[j], r[k].address);
        assert OnAt(chain[j], chain[k].address);
      }
    }
    RescanMarks(r, a);
  }

  lemma {:induction false} ClearMarks(chain: Chain, a: int, from: nat)
    requires from <= |chain| && AllMarked(chain)
    ensures AllMarked(ClearAt(chain, a, from))
    decreases |chain| - from
  {
    if from < |chain| {
      if chain[from].address == a {
        DeleteMarks(chain, from);
        ClearMarks(DeleteAt(chain, from), a, from);
      } else {
        ClearMarks(chain, a, from + 1);
      }
    }
  }

  lemma {:induction false} ClearEmpties(chain: Chain, a: int, from: nat)
    requires from <= |chain| && forall i :: 0 <= i < from ==> chain[i].address != a
    ensures forall i :: 0 <= i < |ClearAt(chain, a, from)| ==> ClearAt(chain, a, from)[i].address != a
    decreases |chain| - from
  {
    if from < |chain| {
      if chain[from].address == a {
        ClearEmpties(DeleteAt(chain, from), a, from);
      } else {
        ClearEmpties(chain, a, from + 1);
      }
    }
  }

  lemma CommandMarks(chain: Chain, last: int, command: Command)
    requires AllMarked(chain)
    ensures AllMarked(Apply(chain, last, command))
  {
    hide AllMarked, Rescan;
    match command
    case Set(pc, temporary) =>
      SetRawMarks(chain, last + 1, pc);
      SetRawOn(chain, last + 1, pc);
      if temporary { SetModeMarks(SetRaw(chain, last + 1, pc), Temporary); }
    case SetMomentary(pc) =>
      SetRawMarks(chain, MOMENTARY, pc);
      SetRawOn(chain, MOMENTARY, pc);
      SetModeMarks(SetRaw(chain, MOMENTARY, pc), Enable.Delete);
    case DeleteNumber(n) => if Find(chain, n) < |chain| { DeleteMarks(chain, Find(chain, n)); }
    case Clear(pc) => ClearMarks(chain, Align(pc), 0);
    case SetEnable(n, e) => if Find(chain, n) < |chain| { EnableMarks(chain, Find(chain, n), e); }
  }

  lemma SetRawOn(chain: Chain, number: int, pc: int)
    ensures var r := SetRaw(chain, number, pc); r != [] && On(r[|r| - 1]) && r[|r| - 1].address == Align(pc)
  {
  }

  /** Over any sequence of commands from an empty chain the marks are right. */
  lemma {:induction false} CommandsKeepMarks(chain: Chain, last: int, commands: seq<Command>)
    requires AllMarked(chain)
    ensures AllMarked(ApplyAll(chain, last, commands))
    decreases |commands|
  {
    if commands != [] {
      CommandMarks(chain, last, commands[0]);
      var r := Apply(chain, last, commands[0]);
      CommandsKeepMarks(r, LastNumber(chain, last, commands[0], r), commands[1..]);
    }
  }

  /** The weaker half is kept by deletion too, whatever the marks were. */
  lemma DeleteKeepsOneFirst(chain: Chain, i: nat)
    requires i < |chain| && OneFirst(chain)
    ensures OneFirst(DeleteAt(chain, i))
  {
    var w := Without(chain, i);
    var r := DeleteAt(chain, i);
    forall p, q | 0 <= p < q < |r| && On(r[p]) && OnAt(r[q], r[p].address)
      ensures r[q].duplicate
    {
      var p', q' := if p < i then p else p + 1, if q < i then q else q + 1;
      assert w[p] == chain[p'] && w[q] == chain[q'];
      assert OnAt(chain[q'], chain[p'].address);
      if w[q].address == chain[i].address {
        assert OnAt(w[p], w[q].address);
      }
    }
  }

  // ----- marks that last -----

  /** The marks are right, and no breakpoint is set for a single stop only, so that none can go off
      and leave them wrong. */
  predicate Lasting(chain: Chain) {
    AllMarked(chain) && NoneTemporary(chain)
  }

  predicate NoneTemporary(chain: Chain) {
    forall i :: 0 <= i < |chain| ==> !chain[i].enable.Temporary?
  }

  predicate LastingCommand(command: Command) {
    && (command.Set? ==> !command.temporary)
    && (command.SetEnable? ==> !command.enable.Temporary?)
  }

  lemma DeleteKeepsModes(chain: Chain, i: nat)
    requires i < |chain| && NoneTemporary(chain)
    ensures NoneTemporary(DeleteAt(chain, i))
  {
  }

  lemma {:induction false} ClearKeepsModes(chain: Chain, a: int, from: nat)
    requires from <= |chain| && NoneTemporary(chain)
    ensures NoneTemporary(ClearAt(chain, a, from))
    decreases |chain| - from
  {
    if from < |chain| {
      if chain[from].address == a {
        DeleteKeepsModes(chain, from);
        ClearKeepsModes(DeleteAt(chain, from), a, from);
      } else {
        ClearKeepsModes(chain, a, from + 1);
      }
    }
  }

  lemma CommandLasts(chain: Chain, last: int, command: Command)
    requires Lasting(chain) && LastingCommand(command)
    ensures Lasting(Apply(chain, last, command))
  {
    CommandMarks(chain, last, command);
    hide AllMarked;
    match command
    case Clear(pc) => ClearKeepsModes(chain, Align(pc), 0);
    case DeleteNumber(n) => if Find(chain, n) < |chain| { DeleteKeepsModes(chain, Find(chain, n)); }
    case _ =>
  }

  lemma AutoDeleteLasts(chain: Chain, bnum: int, momentary: bool)
    requires Lasting(chain)
    ensures Lasting(AutoDelete(chain, bnum, momentary))
  {
    AutoDeleteMarks(chain, bnum, momentary);
    hide AllMarked, Rescan, NoneTemporary;
    var i := Find(chain, bnum);
    if bnum != 0 && i < |chain| && chain[i].enable.Delete? { DeleteKeepsModes(chain, i); }
    var c := if bnum != 0 && i < |chain| && chain[i].enable.Delete? then DeleteAt(chain, i) else chain;
    if Find(c, MOMENTARY) < |c| { DeleteKeepsModes(c, Find(c, MOMENTARY)); }
  }

  // ----- what each command does -----

  /** The same breakpoint, its duplicate mark aside. */
  predicate Same(b: Breakpoint, c: Breakpoint) {
    c == b.(duplicate := c.duplicate)
  }

  /** The i-th is the first breakpoint numbered n, or there is none and i is the length. */
  predicate FirstNumbered(chain: Chain, n: int, i: nat) {
    i <= |chain| && (i < |chain| ==> chain[i].number == n) && forall j :: 0 <= j < i ==> chain[j].number != n
  }

  lemma FoundFirst(chain: Chain, n: int, i: nat)
    requires FirstNumbered(chain, n, i)
    ensures Find(chain, n) == i
  {
  }

  /** enable, disable, enable once and enable delete: the first breakpoint of the number gets the mode, and
      nothing else changes. */
  lemma EnableDoes(chain: Chain, last: int, n: int, mode: Enable, i: nat)
    requires FirstNumbered(chain, n, i)
    ensures var r := Apply(chain, last, SetEnable(n, mode));
      && |r| == |chain| && (forall j :: 0 <= j < |r| && j != i ==> Same(chain[j], r[j]))
      && (i < |chain| ==> Same(chain[i].(enable := mode), r[i])) && (i == |chain| ==> r == chain)
  {
    FoundFirst(chain, n, i);
  }

  /** delete: that one goes, and no other. */
  lemma DeleteDoes(chain: Chain, last: int, n: int, i: nat)
    requires FirstNumbered(chain, n, i)
    ensures var r := Apply(chain, last, DeleteNumber(n));
      && (i == |chain| ==> r == chain)
      && (i < |chain| ==> |r| == |chain| - 1 && forall j :: 0 <= j < |r| ==> Same(chain[if j < i then j else j + 1], r[j]))
  {
    FoundFirst(chain, n, i);
  }

  /** break and tbreak: one more at the end, enabled, with the next number, at the word of the address. */
  lemma SetDoes(chain: Chain, last: int, pc: int, temporary: bool)
    ensures var r := Apply(chain, last, Set(pc, temporary));
      && |r| == |chain| + 1 && (forall j :: 0 <= j < |chain| ==> Same(chain[j], r[j]))
      && Same(Breakpoint(last + 1, pc - pc % 4, if temporary then Temporary else Enabled, 0, 0, false, false, []), r[|chain|])
  {
  }

  lemma SetMomentaryDoes(chain: Chain, last: int, pc: int)
    ensures var r := Apply(chain, last, SetMomentary(pc));
      && |r| == |chain| + 1 && (forall j :: 0 <= j < |chain| ==> Same(chain[j], r[j]))
      && Same(Breakpoint(-3, pc - pc % 4, Enable.Delete, 0, 0, false, false, []), r[|chain|])
  {
  }

  /** The breakpoints elsewhere than at `a`, unmarked. */
  function Elsewhere(chain: Chain, a: int): Chain {
    if chain == [] then []
    else
      var n := |chain| - 1;
      Elsewhere(chain[..n], a) + (if chain[n].address == a then [] else [chain[n].(duplicate := false)])
  }

  lemma {:induction false} ElsewhereBoth(c: Chain, d: Chain, a: int)
    ensures Elsewhere(c + d, a) == Elsewhere(c, a) + Elsewhere(d, a)
    decreases |d|
  {
    if d == [] {
      assert c + d == c;
    } else {
      var n := |d| - 1;
      assert (c + d)[..|c + d| - 1] == c + d[..n];
      ElsewhereBoth(c, d[..n], a);
    }
  }

  lemma {:induction false} ElsewhereSame(c: Chain, d: Chain, a: int)
    requires |c| == |d| && forall i :: 0 <= i < |c| ==> Same(c[i], d[i])
    ensures Elsewhere(c, a) == Elsewhere(d, a)
  {
    if c != [] {
      ElsewhereSame(c[..|c| - 1], d[..|d| - 1], a);
    }
  }

  /** What is elsewhere is not affected by deleting one breakpoint at the address. */
  lemma ElsewhereDeleted(chain: Chain, i: nat)
    requires i < |chain|
    ensures Elsewhere(DeleteAt(chain, i), chain[i].address) == Elsewhere(chain, chain[i].address)
  {
    hide Elsewhere, Rescan, DeleteAt, Same;
    var a, b, rest := chain[i].address, [chain[i]], chain[i + 1..];
    WithoutSame(chain, i);
    ElsewhereSame(chain[..i] + rest, DeleteAt(chain, i), a);
    ElsewhereBoth(chain[..i], rest, a);
    Parted(chain, i);
    ElsewhereBoth(chain[..i], b + rest, a);
    ElsewhereBoth(b, rest, a);
    NotElsewhere(chain[i]);
  }

  lemma Parted(chain: Chain, i: nat)
    requires i < |chain|
    ensures chain == chain[..i] + ([chain[i]] + chain[i + 1..])
  {
  }

  lemma NotElsewhere(b: Breakpoint)
    ensures Elsewhere([b], b.address) == []
  {
    assert [b][..0] == [];
  }

  lemma WithoutSame(chain: Chain, i: nat)
    requires i < |chain|
    ensures var w, r := chain[..i] + chain[i + 1..], DeleteAt(chain, i); |r| == |w| && forall k :: 0 <= k < |r| ==> Same(w[k], r[k])
  {
  }

  /** clear: none at the address is left, and all the others are, in their order. */
  lemma {:induction false} ClearDoes(chain: Chain, a: int, from: nat)
    requires from <= |chain| && forall i :: 0 <= i < from ==> chain[i].address != a
    ensures Elsewhere(ClearAt(chain, a, from), a) == Elsewhere(chain, a)
    ensures forall i :: 0 <= i < |ClearAt(chain, a, from)| ==> ClearAt(chain, a, from)[i].address != a
    decreases |chain| - from
  {
    ClearEmpties(chain, a, from);
    if from < |chain| {
      if chain[from].address == a {
        ElsewhereDeleted(chain, from);
        ClearDoes(DeleteAt(chain, from), a, from);
      } else {
        ClearDoes(chain, a, from + 1);
      }
    }
  }

  /** The chain with the i-th breakpoint gone, or the same if i is its length. */
  predicate Lacks(was: Chain, now: Chain, i: nat) {
    i <= |was| && if i == |was| then now == was else |now| == |was| - 1 && forall j :: 0 <= j < |now| ==> Same(was[if j < i then j else j + 1], now[j])
  }

  /** At a stop: the breakpoint that stopped the program goes if its mode is delete, and then the first momentary
      one if no commands wait; no other. */
  lemma AutoDeleteDoes(chain: Chain, bnum: int, momentary: bool, i: nat) returns (mid: Chain, j: nat)
    requires FirstNumbered(chain, bnum, i)
    ensures Lacks(chain, mid, if bnum != 0 && i < |chain| && chain[i].enable == Enable.Delete then i else |chain|)
    ensures FirstNumbered(mid, -3, j)
    ensures Lacks(mid, AutoDelete(chain, bnum, momentary), if momentary then j else |mid|)
  {
    hide DeleteAt, Find, Same;
    FoundFirst(chain, bnum, i);
    if i < |chain| { DeleteLacks(chain, i); }
    mid := if bnum != 0 && i < |chain| && chain[i].enable.Delete? then DeleteAt(chain, i) else chain;
    j := Find(mid, MOMENTARY);
    if j < |mid| { DeleteLacks(mid, j); }
  }

  lemma DeleteLacks(chain: Chain, i: nat)
    requires i < |chain|
    ensures Lacks(chain, DeleteAt(chain, i), i)
  {
  }

  // ----- a hit -----

  /** What a hit does to the breakpoint that stops the program: one set for a single stop goes off,
      and the marks at its address are not looked at again. */
  function Hit(chain: Chain, i: nat): Chain
    requires i < |chain|
  {
    if chain[i].enable.Temporary? then chain[i := chain[i].(enable := Disabled)] else chain
  }

  /** The marks survive the hit exactly when the breakpoint was not a temporary one standing for
      others at its address. */
  lemma HitKeepsMarksExactly(chain: Chain, i: nat)
    requires i < |chain| && On(chain[i]) && AllMarked(chain)
    ensures AllMarked(Hit(chain, i)) <==>
      !chain[i].enable.Temporary? || chain[i].duplicate || forall j :: i < j < |chain| ==> !OnAt(chain[j], chain[i].address)
  {
    var r := Hit(chain, i);
    if chain[i].enable.Temporary? {
      var a := chain[i].address;
      assert MarkedRight(chain, i);
      if !chain[i].duplicate && exists j :: i < j < |chain| && OnAt(chain[j], a) {
        var j := NextOn(chain, i);
        assert MarkedRight(chain, j) && OnAt(chain[i], chain[j].address);
        forall k | 0 <= k < j
          ensures !OnAt(r[k], r[j].address)
        {
          assert k < i ==> !OnAt(chain[k], chain[i].address);
        }
        assert !MarkedRight(r, j);
      } else {
        HitKeeps(chain, i);
      }
    }
  }

  lemma NextOn(chain: Chain, i: nat) returns (j: nat)
    requires i < |chain| && exists j :: i < j < |chain| && OnAt(chain[j], chain[i].address)
    ensures i < j < |chain| && OnAt(chain[j], chain[i].address)
    ensures forall k :: i < k < j ==> !OnAt(chain[k], chain[i].address)
  {
    j := i + 1;
    while !OnAt(chain[j], chain[i].address)
      invariant i < j < |chain|
      invariant forall k :: i < k < j ==> !OnAt(chain[k], chain[i].address)
      invariant exists m :: j <= m < |chain| && OnAt(chain[m], chain[i].address)
      decreases |chain| - j
    {
      j := j + 1;
    }
  }

  lemma HitKeeps(chain: Chain, i: nat)
    requires i < |chain| && On(chain[i]) && AllMarked(chain) && chain[i].enable.Temporary?
    requires chain[i].duplicate || forall j :: i < j < |chain| ==> !OnAt(chain[j], chain[i].address)
    ensures AllMarked(Hit(chain, i))
  {
    var r := Hit(chain, i);
    assert MarkedRight(chain, i);
    forall k | 0 <= k < |r|
      ensures MarkedRight(r, k)
    {
      assert MarkedRight(chain, k);
      if On(r[k]) && Earlier(chain, k) {
        var j :| 0 <= j < k && OnAt(chain[j], chain[k].address);
        if j == i {
          j :| 0 <= j < i && OnAt(chain[j], chain[i].address);
        }
        assert OnAt(r[j], r[k].address);
      }
      if Earlier(r, k) {
        var j :| 0 <= j < k && OnAt(r[j], r[k].address);
        assert OnAt(chain[j], chain[k].address);
      }
    }
  }

  /** Some enabled breakpoint at the i-th's address is not a duplicate, and so will be inserted. */
  predicate Covered(chain: Chain, i: nat)
    requires i < |chain|
  {
    exists k :: 0 <= k < |chain| && OnAt(chain[k], chain[i].address) && !chain[k].duplicate
  }

  /** Under the same condition, every breakpoint still enabled after the hit will have its word patched. */
  lemma HitKeepsCoverExactly(chain: Chain, i: nat)
    requires i < |chain| && On(chain[i]) && AllMarked(chain)
    ensures var r := Hit(chain, i);
      (forall j :: 0 <= j < |r| && On(r[j]) ==> Covered(r, j)) <==>
      (!chain[i].enable.Temporary? || chain[i].duplicate || forall j :: i < j < |chain| ==> !OnAt(chain[j], chain[i].address))
  {
    HitKeepsMarksExactly(chain, i);
    var r := Hit(chain, i);
    if AllMarked(r) {
      forall j | 0 <= j < |r| && On(r[j])
        ensures Covered(r, j)
      {
        var first := FirstStandsForAll(r, j);
      }
    } else {
      var j := NextOn(chain, i);
      assert MarkedRight(chain, i);
      assert forall k :: 0 <= k < i ==> !OnAt(chain[k], chain[i].address);
      forall k | 0 <= k < |r| && OnAt(r[k], r[j].address)
        ensures r[k].duplicate
      {
        assert MarkedRight(chain, k) && OnAt(chain[i], chain[k].address);
      }
      assert !Covered(r, j);
    }
  }

  /** Either way no word is patched twice. */
  lemma HitKeepsOneFirst(chain: Chain, i: nat)
    requires i < |chain| && OneFirst(chain)
    ensures OneFirst(Hit(chain, i))
  {
    var r := Hit(chain, i);
    forall p, q | 0 <= p < q < |r| && On(r[p]) && OnAt(r[q], r[p].address)
      ensures r[q].duplicate
    {
      assert On(chain[p]) && OnAt(chain[q], chain[p].address);
    }
  }

  // ----- the target's words -----

  predicate Inserted(chain: Chain, a: int) {
    exists i :: 0 <= i < |chain| && chain[i].inserted && chain[i].address == a
  }

  predicate NoneInserted(chain: Chain) {
    forall i :: 0 <= i < |chain| ==> !chain[i].inserted
  }

  /** Memory is `clean` but for a breakpoint instruction at each inserted breakpoint and in the
      `others`, and each inserted breakpoint's shadow is the clean word. */
  ghost predicate Synced(chain: Chain, mem: Memory, clean: Memory, others: set<int>) {
    && mem.Keys == clean.Keys
    && (forall i :: 0 <= i < |chain| && chain[i].inserted ==>
          chain[i].address in clean && chain[i].shadow == clean[chain[i].address] && chain[i].address !in others)
    && (forall i, j :: 0 <= i < j < |chain| && chain[i].inserted && chain[j].inserted ==> chain[i].address != chain[j].address)
    && (forall a :: a in mem ==> mem[a] == if a in others || Inserted(chain, a) then BREAK_INSN else clean[a])
  }

  lemma NothingInserted(chain: Chain, mem: Memory, clean: Memory)
    requires Synced(chain, mem, clean, {}) && NoneInserted(chain)
    ensures mem == clean
  {
    forall a | a in mem
      ensures mem[a] == clean[a]
    {
      assert !Inserted(chain, a);
    }
  }

  /** Every word where an enabled breakpoint stands for its address holds a breakpoint instruction. */
  predicate AllIn(chain: Chain, mem: Memory) {
    forall i :: 0 <= i < |chain| && On(chain[i]) && !chain[i].duplicate ==>
      chain[i].address in mem && mem[chain[i].address] == BREAK_INSN
  }

  /** With the marks right, that is every enabled breakpoint's word. */
  lemma AllEnabledIn(chain: Chain, mem: Memory, i: nat)
    requires AllMarked(chain) && AllIn(chain, mem) && i < |chain| && On(chain[i])
    ensures chain[i].address in mem && mem[chain[i].address] == BREAK_INSN
  {
    var first := FirstStandsForAll(chain, i);
  }

  predicate Mapped(chain: Chain, mem: Memory) {
    forall i :: 0 <= i < |chain| ==> chain[i].address in mem
  }

  predicate NumbersOk(chain: Chain) {
    forall i :: 0 <= i < |chain| ==> 0 < chain[i].number < SILENT || chain[i].number == MOMENTARY
  }

  predicate Aligned(chain: Chain) {
    forall i :: 0 <= i < |chain| ==> chain[i].address % 4 == 0
  }

  // ----- chains between runs -----

  predicate ChainOk(chain: Chain, mem: Memory) {
    OneFirst(chain) && Mapped(chain, mem) && NumbersOk(chain) && Aligned(chain) && NoneInserted(chain)
  }

  /** Breakpoints at different addresses patch words that do not overlap. */
  lemma PatchesDisjoint(chain: Chain, mem: Memory, i: nat, j: nat)
    requires ChainOk(chain, mem) && i < |chain| && j < |chain| && chain[i].address != chain[j].address
    ensures chain[i].address + 4 <= chain[j].address || chain[j].address + 4 <= chain[i].address
  {
  }

  predicate OneFirstExcept(chain: Chain, a: int) {
    forall i, j :: 0 <= i < j < |chain| && On(chain[i]) && OnAt(chain[j], chain[i].address) && chain[i].address != a ==>
      chain[j].duplicate
  }

  lemma RescanKeepsOk(chain: Chain, a: int, mem: Memory)
    requires OneFirstExcept(chain, a) && Mapped(chain, mem) && NumbersOk(chain) && Aligned(chain) && NoneInserted(chain)
    ensures ChainOk(Rescan(chain, a), mem)
  {
    var r := Rescan(chain, a);
    forall p, q | 0 <= p < q < |r| && On(r[p]) && OnAt(r[q], r[p].address)
      ensures r[q].duplicate
    {
      assert OnAt(chain[p], chain[q].address);
    }
  }

  lemma SetKeepsOk(chain: Chain, number: int, pc: int, mem: Memory)
    requires ChainOk(chain, mem) && Align(pc) in mem && (0 < number < SILENT || number == MOMENTARY)
    ensures ChainOk(SetRaw(chain, number, pc), mem)
  {
    RescanKeepsOk(chain + [Fresh(number, pc)], Align(pc), mem);
  }

  lemma SetModeKeepsOk(chain: Chain, enable: Enable, mem: Memory)
    requires ChainOk(chain, mem) && chain != [] && On(chain[|chain| - 1]) && !enable.Disabled?
    ensures ChainOk(SetMode(chain, enable), mem)
  {
    var r := SetMode(chain, enable);
    forall p, q | 0 <= p < q < |r| && On(r[p]) && OnAt(r[q], r[p].address)
      ensures r[q].duplicate
    {
      assert On(chain[p]) && OnAt(chain[q], chain[p].address);
    }
  }

  lemma DeleteKeepsOk(chain: Chain, i: nat, mem: Memory)
    requires i < |chain| && ChainOk(chain, mem)
    ensures ChainOk(DeleteAt(chain, i), mem)
  {
    DeleteKeepsOneFirst(chain, i);
    hide OneFirst;
    var r := DeleteAt(chain, i);
    forall k | 0 <= k < |r|
      ensures var b := chain[if k < i then k else k + 1]; r[k] == b.(duplicate := r[k].duplicate)
    {
    }
  }

  lemma EnableKeepsOk(chain: Chain, i: nat, enable: Enable, mem: Memory)
    requires i < |chain| && ChainOk(chain, mem)
    ensures ChainOk(EnableAt(chain, i, enable), mem)
  {
    RescanKeepsOk(chain[i := chain[i].(enable := enable)], chain[i].address, mem);
  }

  lemma {:induction false} ClearKeepsOk(chain: Chain, a: int, from: nat, mem: Memory)
    requires from <= |chain| && ChainOk(chain, mem)
    ensures ChainOk(ClearAt(chain, a, from), mem)
    decreases |chain| - from
  {
    if from < |chain| {
      if chain[from].address == a {
        DeleteKeepsOk(chain, from, mem);
        ClearKeepsOk(DeleteAt(chain, from), a, from, mem);
      } else {
        ClearKeepsOk(chain, a, from + 1, mem);
      }
    }
  }

  /** The address given is one where the program has a word. */
  predicate CommandOk(command: Command, words: set<int>) {
    command.Set? || command.SetMomentary? ==> Align(command.pc) in words
  }

  lemma {:induction false} CommandKeepsOk(chain: Chain, last: int, command: Command, mem: Memory)
    requires ChainOk(chain, mem) && CommandOk(command, mem.Keys) && 0 <= last < SILENT - 1
    ensures ChainOk(Apply(chain, last, command), mem)
  {
    hide ChainOk, Rescan;
    match command
    case Set(pc, temporary) =>
      SetKeepsOk(chain, last + 1, pc, mem);
      SetRawOn(chain, last + 1, pc);
      if temporary { SetModeKeepsOk(SetRaw(chain, last + 1, pc), Temporary, mem); }
    case SetMomentary(pc) =>
      SetKeepsOk(chain, MOMENTARY, pc, mem);
      SetRawOn(chain, MOMENTARY, pc);
      SetModeKeepsOk(SetRaw(chain, MOMENTARY, pc), Enable.Delete, mem);
    case DeleteNumber(n) => if Find(chain, n) < |chain| { DeleteKeepsOk(chain, Find(chain, n), mem); }
    case Clear(pc) => ClearKeepsOk(chain, Align(pc), 0, mem);
    case SetEnable(n, e) => if Find(chain, n) < |chain| { EnableKeepsOk(chain, Find(chain, n), e, mem); }
  }

  /** Whatever commands are given, the chain is fit to run the program with. */
  lemma {:induction false} CommandsKeepOk(chain: Chain, last: int, commands: seq<Command>, mem: Memory)
    requires ChainOk(chain, mem) && 0 <= last < SILENT - |commands|
    requires forall i :: 0 <= i < |commands| ==> CommandOk(commands[i], mem.Keys)
    ensures ChainOk(ApplyAll(chain, last, commands), mem)
    decreases |commands|
  {
    hide ChainOk, Apply, CommandOk;
    if commands != [] {
      CommandKeepsOk(chain, last, commands[0], mem);
      var r := Apply(chain, last, commands[0]);
      CommandsKeepOk(r, LastNumber(chain, last, commands[0], r), commands[1..], mem);
    }
  }

  lemma AutoDeleteKeepsOk(chain: Chain, bnum: int, momentary: bool, mem: Memory)
    requires ChainOk(chain, mem)
    ensures ChainOk(AutoDelete(chain, bnum, momentary), mem)
  {
    hide ChainOk, Rescan;
    var i := Find(chain, bnum);
    if bnum != 0 && i < |chain| && chain[i].enable.Delete? { DeleteKeepsOk(chain, i, mem); }
    var c := if bnum != 0 && i < |chain| && chain[i].enable.Delete? then DeleteAt(chain, i) else chain;
    if Find(c, MOMENTARY) < |c| { DeleteKeepsOk(c, Find(c, MOMENTARY), mem); }
  }

  // ----- deletion while inserted -----

  function DeleteMem(chain: Chain, mem: Memory, i: nat): Memory
    requires i < |chain|
  {
    if chain[i].inserted then mem[chain[i].address := chain[i].shadow] else mem
  }

  /** The words as ClearAt leaves them. */
  function ClearMem(chain: Chain, mem: Memory, a: int, from: nat): Memory
    requires from <= |chain|
    decreases |chain| - from
  {
    if from == |chain| then mem
    else if chain[from].address == a then ClearMem(DeleteAt(chain, from), DeleteMem(chain, mem, from), a, from)
    else ClearMem(chain, mem, a, from + 1)
  }

  lemma DeleteKeepsSynced(chain: Chain, mem: Memory, clean: Memory, others: set<int>, i: nat)
    requires i < |chain| && Synced(chain, mem, clean, others)
    ensures Synced(DeleteAt(chain, i), DeleteMem(chain, mem, i), clean, others)
  {
    var r := DeleteAt(chain, i);
    forall k | 0 <= k < |r|
      ensures var b := chain[if k < i then k else k + 1]; r[k] == b.(duplicate := r[k].duplicate)
    {
    }
    forall a
      ensures Inserted(r, a) <==> Inserted(chain, a) && !(chain[i].inserted && a == chain[i].address)
    {
      InsertedWithout(chain, r, i, a);
    }
  }

  lemma InsertedWithout(chain: Chain, r: Chain, i: nat, a: int)
    requires i < |chain| && |r| == |chain| - 1
    requires forall k :: 0 <= k < |r| ==> var b := chain[if k < i then k else k + 1]; r[k] == b.(duplicate := r[k].duplicate)
    requires forall p, q :: 0 <= p < q < |chain| && chain[p].inserted && chain[q].inserted ==> chain[p].address != chain[q].address
    ensures Inserted(r, a) <==> Inserted(chain, a) && !(chain[i].inserted && a == chain[i].address)
  {
    if Inserted(r, a) {
      var k :| 0 <= k < |r| && r[k].inserted && r[k].address == a;
      var k' := if k < i then k else k + 1;
      assert chain[k'].inserted && chain[k'].address == a;
    }
    if Inserted(chain, a) && !(chain[i].inserted && a == chain[i].address) {
      var k :| 0 <= k < |chain| && chain[k].inserted && chain[k].address == a;
      var k' := if k < i then k else k - 1;
      assert r[k'].inserted && r[k'].address == a;
    }
  }

  /** Clearing while the breakpoints are in puts back just the words of those cleared. */
  lemma {:induction false} ClearKeepsSynced(chain: Chain, mem: Memory, clean: Memory, others: set<int>, a: int, from: nat)
    requires from <= |chain| && Synced(chain, mem, clean, others)
    ensures Synced(ClearAt(chain, a, from), ClearMem(chain, mem, a, from), clean, others)
    decreases |chain| - from
  {
    hide Synced;
    if from < |chain| {
      if chain[from].address == a {
        DeleteKeepsSynced(chain, mem, clean, others, from);
        ClearKeepsSynced(DeleteAt(chain, from), DeleteMem(chain, mem, from), clean, others, a, from);
      } else {
        ClearKeepsSynced(chain, mem, clean, others, a, from + 1);
      }
    }
  }

  lemma {:induction false} ClearOutKeepsMem(chain: Chain, mem: Memory, a: int, from: nat)
    requires from <= |chain| && NoneInserted(chain)
    ensures ClearMem(chain, mem, a, from) == mem
    decreases |chain| - from
  {
    if from < |chain| {
      if chain[from].address == a {
        ClearOutKeepsMem(DeleteAt(chain, from), mem, a, from);
      } else {
        ClearOutKeepsMem(chain, mem, a, from + 1);
      }
    }
  }

  // ----- what the chain says about a stop -----

  /** A hit counts if the breakpoint's frame and condition allow it (its number is in `passes`);
      then an ignore count is used up first. */
  function StopStatus(chain: Chain, pc: int, passes: set<int>, i: nat): (r: (Chain, int, seq<string>))
    requires i <= |chain|
    ensures |r.0| == |chain|
    decreases |chain| - i
  {
    if i == |chain| then (chain, 0, [])
    else if !OnAt(chain[i], Align(pc)) then StopStatus(chain, pc, passes, i + 1)
    else if chain[i].number !in passes then Going(StopStatus(chain, pc, passes, i + 1))
    else if chain[i].ignoreCount > 0 then
      Going(StopStatus(chain[i := chain[i].(ignoreCount := chain[i].ignoreCount - 1)], pc, passes, i + 1))
    else if chain[i].commands != [] && chain[i].commands[0] == "silent" then
      (Hit(chain, i), if chain[i].number > 0 then SILENT + chain[i].number else chain[i].number - SILENT, chain[i].commands[1..])
    else (Hit(chain, i), chain[i].number, chain[i].commands)
  }

  /** Having passed over a breakpoint, the answer is -1 unless a later one stops. */
  function Going(r: (Chain, int, seq<string>)): (s: (Chain, int, seq<string>))
    ensures s.0 == r.0
  {
    if r.1 == 0 then (r.0, -1, r.2) else r
  }

  /** The breakpoint stops the program there. */
  predicate Stops(b: Breakpoint, pc: int, passes: set<int>) {
    On(b) && b.address == pc - pc % 4 && b.number in passes && b.ignoreCount == 0
  }

  /** It would, but for its ignore count. */
  predicate Ignored(b: Breakpoint, pc: int, passes: set<int>) {
    On(b) && b.address == pc - pc % 4 && b.number in passes && b.ignoreCount > 0
  }

  /** A breakpoint passed over: one is off its ignore count, if that is what held it back. */
  predicate PassedOver(b: Breakpoint, c: Breakpoint, pc: int, passes: set<int>) {
    c == if Ignored(b, pc, passes) then b.(ignoreCount := b.ignoreCount - 1) else b
  }

  /** With none that stops, all are passed over, and the answer tells whether any was enabled there. */
  lemma {:induction false} StatusOfNone(chain: Chain, pc: int, passes: set<int>, i: nat)
    requires i <= |chain| && forall j :: i <= j < |chain| ==> !Stops(chain[j], pc, passes)
    ensures var r := StopStatus(chain, pc, passes, i);
      && (forall j :: 0 <= j < |chain| ==> if j < i then r.0[j] == chain[j] else PassedOver(chain[j], r.0[j], pc, passes))
      && r.1 == (if exists j :: i <= j < |chain| && OnAt(chain[j], pc - pc % 4) then -1 else 0)
    decreases |chain| - i
  {
    if i < |chain| {
      var on := OnAt(chain[i], pc - pc % 4);
      var next := if Ignored(chain[i], pc, passes) then chain[i := chain[i].(ignoreCount := chain[i].ignoreCount - 1)] else chain;
      StatusOfNone(next, pc, passes, i + 1);
      assert forall j :: i < j < |chain| ==> next[j] == chain[j];
    }
  }

  /** The first that stops does: those before it are passed over, it goes off if it was for one stop only, and
      those after it are not looked at.  The answer is its number, coded if it is silent. */
  lemma {:induction false} StatusOfFirst(chain: Chain, pc: int, passes: set<int>, i: nat, k: nat)
    requires i <= k < |chain| && Stops(chain[k], pc, passes) && forall j :: i <= j < k ==> !Stops(chain[j], pc, passes)
    requires NumbersOk(chain)
    ensures var r := StopStatus(chain, pc, passes, i);
      && (forall j :: 0 <= j < |chain| && j != k ==> if i <= j < k then PassedOver(chain[j], r.0[j], pc, passes) else r.0[j] == chain[j])
      && r.0[k] == chain[k].(enable := if chain[k].enable == Temporary then Disabled else chain[k].enable)
      && var silent := chain[k].commands != [] && chain[k].commands[0] == "silent";
      && r.1 == (if !silent then chain[k].number else if chain[k].number > 0 then 0x1000000 + chain[k].number else chain[k].number - 0x1000000)
      && r.2 == (if silent then chain[k].commands[1..] else chain[k].commands)
    decreases k - i
  {
    if i < k {
      var next := if Ignored(chain[i], pc, passes) then chain[i := chain[i].(ignoreCount := chain[i].ignoreCount - 1)] else chain;
      assert forall j :: i < j < |chain| ==> next[j] == chain[j];
      StatusOfFirst(next, pc, passes, i + 1, k);
    }
  }

  /** Only ignore counts and one enable mode change. */
  predicate Alike(was: Chain, now: Chain) {
    |was| == |now| && forall i :: 0 <= i < |was| ==>
      now[i] == was[i].(ignoreCount := now[i].ignoreCount, enable := now[i].enable)
      && (now[i].enable == was[i].enable || (was[i].enable.Temporary? && now[i].enable.Disabled?))
  }

  lemma {:induction false} StatusKeeps(chain: Chain, pc: int, passes: set<int>, i: nat)
    requires i <= |chain|
    ensures Alike(chain, StopStatus(chain, pc, passes, i).0)
    decreases |chain| - i
  {
    if i < |chain| && OnAt(chain[i], Align(pc)) && chain[i].number in passes && chain[i].ignoreCount > 0 {
      StatusKeeps(chain[i := chain[i].(ignoreCount := chain[i].ignoreCount - 1)], pc, passes, i + 1);
    } else if i < |chain| && (!OnAt(chain[i], Align(pc)) || chain[i].number !in passes) {
      StatusKeeps(chain, pc, passes, i + 1);
    }
  }

  /** Not stopping changes no enable mode. */
  lemma {:induction false} GoingKeepsModes(chain: Chain, pc: int, passes: set<int>, i: nat)
    requires i <= |chain| && NumbersOk(chain)
    ensures var r := StopStatus(chain, pc, passes, i);
      (r.1 == 0 || r.1 == -1 ==> forall k :: 0 <= k < |chain| ==> r.0[k].enable == chain[k].enable)
      && r.1 != -SILENT - 1
    decreases |chain| - i
  {
    if i < |chain| && OnAt(chain[i], Align(pc)) && chain[i].number in passes && chain[i].ignoreCount > 0 {
      GoingKeepsModes(chain[i := chain[i].(ignoreCount := chain[i].ignoreCount - 1)], pc, passes, i + 1);
    } else if i < |chain| && (!OnAt(chain[i], Align(pc)) || chain[i].number !in passes) {
      GoingKeepsModes(chain, pc, passes, i + 1);
    }
  }

  lemma AlikeKeeps(was: Chain, now: Chain, mem: Memory, clean: Memory, others: set<int>)
    requires Alike(was, now)
    ensures Synced(was, mem, clean, others) ==> Synced(now, mem, clean, others)
    ensures OneFirst(was) ==> OneFirst(now)
    ensures NoneInserted(was) ==> NoneInserted(now)
    ensures AllIn(was, mem) ==> AllIn(now, mem)
    ensures Mapped(was, mem) ==> Mapped(now, mem)
    ensures NumbersOk(was) ==> NumbersOk(now)
  {
    if OneFirst(was) {
      forall p, q | 0 <= p < q < |now| && On(now[p]) && OnAt(now[q], now[p].address)
        ensures now[q].duplicate
      {
        assert On(was[p]) && OnAt(was[q], was[p].address);
      }
    }
    if Synced(was, mem, clean, others) {
      forall a
        ensures Inserted(now, a) <==> Inserted(was, a)
      {
        if Inserted(now, a) {
          var i :| 0 <= i < |now| && now[i].inserted && now[i].address == a;
          assert was[i].inserted && was[i].address == a;
        }
        if Inserted(was, a) {
          var i :| 0 <= i < |was| && was[i].inserted && was[i].address == a;
          assert now[i].inserted && now[i].address == a;
        }
      }
    }
  }

  /** The chain and the target it patches. */
  class BreakpointTable {
    var chain: Chain
    var mem: Memory
    var breakpointCommands: seq<string>
    ghost var clean: Memory       // what memory would hold had nothing been inserted, stale words left in it included

    constructor (mem: Memory)
      ensures chain == [] && this.mem == mem && clean == mem && breakpointCommands == []
    {
      this.mem, this.clean, chain, breakpointCommands := mem, mem, [], [];
    }

    method CheckDuplicates(address: int)
      modifies this`chain
      ensures chain == Rescan(old(chain), Align(address))
    {
      ghost var was := chain;
      var count, i := 0, 0;
      while i < |chain|
        invariant 0 <= i <= |chain| == |was|
        invariant forall k :: 0 <= k < i ==> chain[k] == Rescan(was, Align(address))[k]
        invariant forall k :: i <= k < |chain| ==> chain[k] == was[k]
        invariant count == 0 <==> forall j :: 0 <= j < i ==> !OnAt(was[j], Align(address))
        invariant count >= 0
      {
        if On(chain[i]) && chain[i].address == Align(address) {
          count := count + 1;
          chain := chain[i := chain[i].(duplicate := count > 1)];
        }
        i := i + 1;
      }
    }

    method SetRawBreakpoint(number: int, pc: int)
      modifies this`chain
      ensures chain == SetRaw(old(chain), number, pc)
    {
      chain := chain + [Fresh(number, pc)];
      CheckDuplicates(pc);
    }

    /** set_breakpoint: the mode is given after the marks have been made. */
    method SetBreakpoint(last: int, pc: int, tempflag: bool)
      modifies this`chain
      ensures chain == Apply(old(chain), last, Set(pc, tempflag))
    {
      SetRawBreakpoint(last + 1, pc);
      if tempflag {
        chain := chain[|chain| - 1 := chain[|chain| - 1].(enable := Temporary)];
      }
    }

    method SetMomentaryBreakpoint(pc: int)
      modifies this`chain
      ensures chain == Apply(old(chain), 0, SetMomentary(pc))
    {
      SetRawBreakpoint(MOMENTARY, pc);
      chain := chain[|chain| - 1 := chain[|chain| - 1].(enable := Enable.Delete)];
    }

    /** An inserted breakpoint's word is put back before it goes. */
    method DeleteBreakpoint(i: nat)
      requires i < |chain| && chain[i].address % 4 == 0
      modifies this`chain, this`mem
      ensures chain == DeleteAt(old(chain), i)
      ensures mem == if old(chain)[i].inserted then old(mem)[old(chain)[i].address := old(chain)[i].shadow] else old(mem)
    {
      var bpt := chain[i];
      if bpt.inserted {
        mem := mem[bpt.address := bpt.shadow];
      }
      chain := chain[..i] + chain[i + 1..];
      CheckDuplicates(bpt.address);
    }

    method SetEnableMode(i: nat, enable: Enable)
      requires i < |chain| && chain[i].address % 4 == 0
      modifies this`chain
      ensures chain == EnableAt(old(chain), i, enable)
    {
      chain := chain[i := chain[i].(enable := enable)];
      CheckDuplicates(chain[i].address);
    }

    method FindNumber(number: int) returns (i: nat)
      ensures i == Find(chain, number)
    {
      i := 0;
      while i < |chain| && chain[i].number != number
        invariant 0 <= i <= |chain| && Find(chain, number) == i + Find(chain[i..], number)
      {
        assert chain[i..][1..] == chain[i + 1..];
        i := i + 1;
      }
    }

    /** The delete command, for one number. */
    method DeleteCommand(number: int)
      requires forall i :: 0 <= i < |chain| ==> chain[i].address % 4 == 0
      modifies this`chain, this`mem
      ensures chain == Apply(old(chain), 0, DeleteNumber(number))
      ensures NoneInserted(old(chain)) ==> mem == old(mem)
    {
      var i := FindNumber(number);
      if i < |chain| {
        DeleteBreakpoint(i);
      }
    }

    /** The enable, disable, enable once and enable delete commands, for one number. */
    method EnableCommand(number: int, enable: Enable)
      requires forall i :: 0 <= i < |chain| ==> chain[i].address % 4 == 0
      modifies this`chain
      ensures chain == Apply(old(chain), 0, SetEnable(number, enable))
    {
      var i := FindNumber(number);
      if i < |chain| {
        SetEnableMode(i, enable);
      }
    }

    method BreakpointAutoDelete(bnum: int)
      requires NoneInserted(chain) && forall i :: 0 <= i < |chain| ==> chain[i].address % 4 == 0
      modifies this`chain, this`mem
      ensures chain == AutoDelete(old(chain), bnum, breakpointCommands == []) && mem == old(mem)
    {
      if bnum != 0 {
        var i := FindNumber(bnum);
        if i < |chain| && chain[i].enable.Delete? {
          DeleteBreakpoint(i);
        }
      }
      if breakpointCommands == [] {
        var i := FindNumber(MOMENTARY);
        if i < |chain| {
          DeleteBreakpoint(i);
        }
      }
    }

    /** The clear command, for one address. */
    method ClearBreakpoints(pc: int)
      modifies this`chain, this`mem
      ensures chain == ClearAt(old(chain), Align(pc), 0) && mem == ClearMem(old(chain), old(mem), Align(pc), 0)
    {
      var i := 0;
      while i < |chain|
        invariant 0 <= i <= |chain|
        invariant ClearAt(chain, Align(pc), i) == ClearAt(old(chain), Align(pc), 0)
        invariant ClearMem(chain, mem, Align(pc), i) == ClearMem(old(chain), old(mem), Align(pc), 0)
        decreases |chain| - i
      {
        if chain[i].address == Align(pc) {
          DeleteBreakpoint(i);
        } else {
          i := i + 1;
        }
      }
    }

    /** A command given between runs touches no word of the program. */
    method Execute(last: int, command: Command) returns (newLast: int)
      requires ChainOk(chain, mem) && CommandOk(command, mem.Keys) && 0 <= last < SILENT - 1
      modifies this`chain, this`mem
      ensures chain == Apply(old(chain), last, command) && mem == old(mem) && ChainOk(chain, mem)
      ensures newLast == LastNumber(old(chain), last, command, chain)
    {
      CommandKeepsOk(chain, last, command, mem);
      var before := |chain|;
      match command {
        case Set(pc, temporary) => SetBreakpoint(last, pc, temporary);
        case SetMomentary(pc) => SetMomentaryBreakpoint(pc);
        case DeleteNumber(n) => DeleteCommand(n);
        case Clear(pc) =>
          ClearOutKeepsMem(chain, mem, Align(pc), 0);
          ClearBreakpoints(pc);
        case SetEnable(n, e) => EnableCommand(n, e);
      }
      newLast := if command.Set? then last + 1 else if |chain| < before && chain == [] then 0 else last;
    }

    method BreakpointHereP(pc: int) returns (here: bool)
      ensures here <==> exists i :: 0 <= i < |chain| && OnAt(chain[i], Align(pc))
    {
      var i := 0;
      while i < |chain|
        invariant 0 <= i <= |chain|
        invariant forall j :: 0 <= j < i ==> !OnAt(chain[j], Align(pc))
      {
        if OnAt(chain[i], Align(pc)) {
          return true;
        }
        i := i + 1;
      }
      here := false;
    }

    /** Patch the word of every enabled breakpoint that stands for its address.  Some `others` may be
        patched already, at none of these addresses. */
    method InsertBreakpoints(ghost others: set<int>)
      requires NoneInserted(chain) && OneFirst(chain) && Mapped(chain, mem) && Synced(chain, mem, clean, others)
      requires forall i :: 0 <= i < |chain| && On(chain[i]) ==> chain[i].address !in others
      modifies this`chain, this`mem
      ensures |chain| == |old(chain)| && mem.Keys == old(mem).Keys
      ensures forall i :: 0 <= i < |chain| ==>
        chain[i] == if On(old(chain)[i]) && !old(chain)[i].duplicate
          then old(chain)[i].(inserted := true, shadow := clean[old(chain)[i].address]) else old(chain)[i]
      ensures Synced(chain, mem, clean, others) && AllIn(chain, mem)
    {
      var i := 0;
      while i < |chain|
        invariant 0 <= i <= |chain| == |old(chain)| && mem.Keys == old(mem).Keys
        invariant forall k :: 0 <= k < i ==>
          chain[k] == if On(old(chain)[k]) && !old(chain)[k].duplicate
            then old(chain)[k].(inserted := true, shadow := clean[old(chain)[k].address]) else old(chain)[k]
        invariant forall k :: i <= k < |chain| ==> chain[k] == old(chain)[k]
        invariant Synced(chain, mem, clean, others)
      {
        if On(chain[i]) && !chain[i].inserted && !chain[i].duplicate {
          InsertOne(i, others);
        }
        i := i + 1;
      }
    }

    method InsertOne(i: nat, ghost others: set<int>)
      requires i < |chain| && !chain[i].inserted && chain[i].address in mem && chain[i].address !in others
      requires !Inserted(chain, chain[i].address) && Synced(chain, mem, clean, others)
      modifies this`chain, this`mem
      ensures chain == old(chain)[i := old(chain)[i].(inserted := true, shadow := clean[old(chain)[i].address])]
      ensures mem == old(mem)[old(chain)[i].address := BREAK_INSN] && Synced(chain, mem, clean, others)
    {
      ghost var was := chain;
      var a := chain[i].address;
      chain := chain[i := chain[i].(shadow := mem[a])];
      mem := mem[a := BREAK_INSN];
      chain := chain[i := chain[i].(inserted := true)];
      assert chain[i].inserted && chain[i].address == a;
      forall b | b in mem && b != a
        ensures Inserted(chain, b) <==> Inserted(was, b)
      {
        InsertedElsewhere(was, chain, i, b);
      }
    }

    /** Put back every inserted breakpoint's word. */
    method RemoveBreakpoints(ghost others: set<int>)
      requires Synced(chain, mem, clean, others)
      modifies this`chain, this`mem
      ensures |chain| == |old(chain)| && forall i :: 0 <= i < |chain| ==> chain[i] == old(chain)[i].(inserted := false)
      ensures NoneInserted(chain) && Synced(chain, mem, clean, others)
    {
      var i := 0;
      while i < |chain|
        invariant 0 <= i <= |chain| == |old(chain)|
        invariant forall k :: 0 <= k < i ==> chain[k] == old(chain)[k].(inserted := false)
        invariant forall k :: i <= k < |chain| ==> chain[k] == old(chain)[k]
        invariant Synced(chain, mem, clean, others)
      {
        if chain[i].inserted {
          ghost var was := chain;
          var a := chain[i].address;
          mem := mem[a := chain[i].shadow];
          chain := chain[i := chain[i].(inserted := false)];
          assert !Inserted(chain, a);
          forall b | b in mem && b != a
            ensures Inserted(chain, b) <==> Inserted(was, b)
          {
            InsertedElsewhere(was, chain, i, b);
          }
        }
        i := i + 1;
      }
    }

    method MarkBreakpointsOut()
      modifies this`chain
      ensures |chain| == |old(chain)| && forall i :: 0 <= i < |chain| ==> chain[i] == old(chain)[i].(inserted := false)
    {
      var i := 0;
      while i < |chain|
        invariant 0 <= i <= |chain| == |old(chain)|
        invariant forall k :: 0 <= k < i ==> chain[k] == old(chain)[k].(inserted := false)
        invariant forall k :: i <= k < |chain| ==> chain[k] == old(chain)[k]
      {
        chain := chain[i := chain[i].(inserted := false)];
        i := i + 1;
      }
    }

    method BreakpointStopStatus(pc: int, passes: set<int>) returns (status: int)
      requires NumbersOk(chain)
      modifies this`chain, this`breakpointCommands
      ensures var r := StopStatus(old(chain), pc, passes, 0);
        chain == r.0 && status == r.1
        && breakpointCommands == if status == 0 || status == -1 then old(breakpointCommands) else r.2
    {
      ghost var whole := StopStatus(chain, pc, passes, 0);
      var cont, i := 0, 0;
      while i < |chain|
        invariant 0 <= i <= |chain| && (cont == 0 || cont == -1) && NumbersOk(chain)
        invariant breakpointCommands == old(breakpointCommands)
        invariant var r := StopStatus(chain, pc, passes, i); whole == if cont == 0 then r else Going(r)
      {
        if OnAt(chain[i], Align(pc)) {
          if chain[i].number !in passes {
            cont := -1;
          } else if chain[i].ignoreCount > 0 {
            chain := chain[i := chain[i].(ignoreCount := chain[i].ignoreCount - 1)];
            cont := -1;
          } else {
            var b := chain[i];
            if b.enable.Temporary? {
              chain := chain[i := b.(enable := Disabled)];
            }
            breakpointCommands := b.commands;
            if breakpointCommands != [] && breakpointCommands[0] == "silent" {
              breakpointCommands := breakpointCommands[1..];
              return if b.number > 0 then SILENT + b.number else b.number - SILENT;
            }
            return b.number;
          }
        }
        i := i + 1;
      }
      status := cont;
    }
  }

  lemma InsertedElsewhere(was: Chain, now: Chain, i: nat, b: int)
    requires i < |was| && was[i].address != b && |now| == |was|
    requires now == was[i := now[i]] && now[i].address == was[i].address
    ensures Inserted(now, b) <==> Inserted(was, b)
  {
    if Inserted(was, b) {
      var k :| 0 <= k < |was| && was[k].inserted && was[k].address == b;
      assert now[k].inserted && now[k].address == b;
    }
    if Inserted(now, b) {
      var k :| 0 <= k < |now| && now[k].inserted && now[k].address == b;
      assert was[k].inserted && was[k].address == b;
    }
  }

  lemma TwoSet()
    ensures var first := Apply([], 0, Set(0x100, true));
      Apply(first, 1, Set(0x100, false)) ==
        [Breakpoint(1, 0x100, Temporary, 0, 0, false, false, []), Breakpoint(2, 0x100, Enabled, 0, 0, false, true, [])]
  {
    var one := Apply([], 0, Set(0x100, true));
    assert one == [Breakpoint(1, 0x100, Temporary, 0, 0, false, false, [])];
    assert OnAt((one + [Fresh(2, 0x100)])[0], 0x100);
  }

  /** A temporary breakpoint set at 0x100, and then a lasting one there: once the temporary one has been
      hit, the other is enabled, and inserting the breakpoints leaves its word as it was. */
  method TemporaryHidesTheNext(word: int) returns (table: BreakpointTable)
    requires word != BREAK_INSN
    ensures |table.chain| == 2 && OnAt(table.chain[1], 0x100) && table.chain[1].number == 2
    ensures table.mem == map[0x100 := word] && !table.chain[1].inserted
  {
    hide Apply;
    table := new BreakpointTable(map[0x100 := word]);
    table.SetBreakpoint(0, 0x100, true);
    table.SetBreakpoint(1, 0x100, false);
    TwoSet();
    ghost var chain := table.chain;
    var status := table.BreakpointStopStatus(0x100, {1, 2});
    assert status == 1 && table.chain == Hit(chain, 0);
    table.InsertBreakpoints({});
    assert !Inserted(table.chain, 0x100);
  }
}
