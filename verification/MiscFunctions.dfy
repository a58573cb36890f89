/** Loader symbols: recorded in bunches, condensed into one vector sorted by address, and searched. */
module MiscFunctions {
  import opened Wrappers

  /** A loader symbol; addresses are unsigned 32-bit. */
  datatype MiscFunction = MiscFunction(name: string, address: int)

  const MISC_BUNCH_SIZE: nat := 127
  const TWO31: int := 0x8000_0000
  const TWO32: int := 0x1_0000_0000

  // ----- recording -----

  /** Bunches, the one being filled first.  A bunch has room for MISC_BUNCH_SIZE symbols, used or not. */
  datatype Bunches = NoBunch | Bunch(next: Bunches, contents: seq<MiscFunction>)

  predicate Full(b: Bunches) {
    b.Bunch? ==> |b.contents| == MISC_BUNCH_SIZE && Full(b.next)
  }

  /** The symbols in the bunches, of which the first has `index`, as condense_misc_bunches meets them. */
  function Collected(b: Bunches, index: nat): seq<MiscFunction>
    requires Full(b) && index <= MISC_BUNCH_SIZE
  {
    match b
    case NoBunch => []
    case Bunch(next, contents) => contents[..index] + Collected(next, MISC_BUNCH_SIZE)
  }

  // ----- sorting -----

  predicate Sorted(v: seq<MiscFunction>) {
    forall i, j :: 0 <= i < j < |v| ==> v[i].address <= v[j].address
  }

  function Insert(f: MiscFunction, v: seq<MiscFunction>): seq<MiscFunction> {
    if v == [] || f.address <= v[0].address then [f] + v else [v[0]] + Insert(f, v[1..])
  }

  /** Stands for the C library's qsort. */
  function QSort(v: seq<MiscFunction>): seq<MiscFunction> {
    if v == [] then [] else Insert(v[0], QSort(v[1..]))
  }

  /** No symbol is below the address. */
  predicate AtLeast(a: int, v: seq<MiscFunction>) {
    forall i :: 0 <= i < |v| ==> a <= v[i].address
  }

  lemma SortedCons(x: MiscFunction, rest: seq<MiscFunction>)
    ensures Sorted([x] + rest) <==> Sorted(rest) && AtLeast(x.address, rest)
  {
    var v := [x] + rest;
    if Sorted(v) {
      forall i, j | 0 <= i < j < |rest|
        ensures rest[i].address <= rest[j].address
      {
        assert rest[i] == v[i + 1] && rest[j] == v[j + 1];
      }
      forall j | 0 <= j < |rest|
        ensures x.address <= rest[j].address
      {
        assert v[0] == x && rest[j] == v[j + 1];
      }
    }
  }

  lemma {:induction false} InsertAtLeast(a: int, f: MiscFunction, v: seq<MiscFunction>)
    requires a <= f.address && AtLeast(a, v)
    ensures AtLeast(a, Insert(f, v))
  {
    if v != [] && f.address > v[0].address {
      InsertAtLeast(a, f, v[1..]);
    }
  }

  lemma {:induction false} InsertSorts(f: MiscFunction, v: seq<MiscFunction>)
    requires Sorted(v)
    ensures Sorted(Insert(f, v)) && multiset(Insert(f, v)) == multiset{f} + multiset(v)
  {
    if v == [] || f.address <= v[0].address {
      SortedCons(f, v);
    } else {
      var first, rest := v[0], v[1..];
      assert v == [first] + rest;
      hide Sorted, AtLeast;
      SortedCons(first, rest);
      InsertSorts(f, rest);
      InsertAtLeast(first.address, f, rest);
      SortedCons(first, Insert(f, rest));
    }
  }

  lemma {:induction false} QSortSorts(v: seq<MiscFunction>)
    ensures Sorted(QSort(v)) && multiset(QSort(v)) == multiset(v)
  {
    if v != [] {
      QSortSorts(v[1..]);
      InsertSorts(v[0], QSort(v[1..]));
      assert v == [v[0]] + v[1..];
    }
  }

  /** The vector's names are without the compiler's leading underscore. */
  function Strip(f: MiscFunction): MiscFunction {
    if f.name != [] && f.name[0] == '_' then f.(name := f.name[1..]) else f
  }

  /** One leading underscore goes, if there is one, and nothing else. */
  lemma StripLeaves(f: MiscFunction)
    ensures Strip(f).address == f.address
    ensures f.name == "_" + Strip(f).name || (Strip(f) == f && !(f.name != [] && f.name[0] == '_'))
  {
  }

  function StripAll(v: seq<MiscFunction>): (r: seq<MiscFunction>)
    ensures |r| == |v|
  {
    seq(|v|, i requires 0 <= i < |v| => Strip(v[i]))
  }

  lemma StripJoins(x: seq<MiscFunction>, y: seq<MiscFunction>)
    ensures StripAll(x + y) == StripAll(x) + StripAll(y)
  {
  }

  /** Filling one more place of the first bunch adds that symbol. */
  lemma OneCollected(b: Bunches, now: Bunches, index: nat, f: MiscFunction)
    requires b.Bunch? && Full(b) && index < MISC_BUNCH_SIZE && now == b.(contents := b.contents[index := f])
    ensures Full(now) && |Collected(now, index + 1)| == |Collected(b, index)| + 1
    ensures multiset(StripAll(Collected(now, index + 1))) == multiset(StripAll(Collected(b, index))) + multiset{Strip(f)}
  {
    var x, y := b.contents[..index], Collected(b.next, MISC_BUNCH_SIZE);
    assert now.contents[..index + 1] == x + [f];
    assert Collected(now, index + 1) == x + [f] + y && Collected(b, index) == x + y;
    hide Collected, Full;
    StripJoins(x + [f], y);
    StripJoins(x, [f]);
    StripJoins(x, y);
    assert StripAll([f]) == [Strip(f)];
  }

  lemma FreshBunch(b: Bunches, spare: seq<MiscFunction>)
    requires Full(b) && |spare| == MISC_BUNCH_SIZE
    ensures Full(Bunch(b, spare)) && Collected(Bunch(b, spare), 0) == Collected(b, MISC_BUNCH_SIZE)
  {
  }

  class Recorder {
    var bunches: Bunches
    var index: nat                          // places used in the first bunch
    var count: nat
    ghost var recorded: seq<MiscFunction>   // everything recorded, as it will be named

    ghost predicate Valid()
      reads this
    {
      && Full(bunches) && index <= MISC_BUNCH_SIZE && (bunches.NoBunch? ==> index == MISC_BUNCH_SIZE)
      && multiset(StripAll(Collected(bunches, index))) == multiset(recorded)
      && count == |recorded| == |Collected(bunches, index)|
    }

    constructor ()
      ensures Valid() && recorded == []
    {
      bunches, index, count, recorded := NoBunch, MISC_BUNCH_SIZE, 0, [];
    }

    method RecordMiscFunction(name: string, address: int)
      requires Valid()
      modifies this
      ensures Valid() && recorded == old(recorded) + [Strip(MiscFunction(name, address))]
    {
      hide Collected, Full, StripAll;
      var f := MiscFunction(name, address);
      if index == MISC_BUNCH_SIZE {
        var spare := seq(MISC_BUNCH_SIZE, _ => f);
        FreshBunch(bunches, spare);
        bunches := Bunch(bunches, spare);
        index := 0;
      }
      AllPlaces(bunches);
      var filled := bunches.(contents := bunches.contents[index := f]);
      OneCollected(bunches, filled, index, f);
      bunches := filled;
      index := index + 1;
      count := count + 1;
      recorded := recorded + [Strip(f)];
    }

    /** Everything recorded, and for an incrementally linked file what was there before, as one vector
        sorted by address. */
    method CondenseMiscBunches(inclink: bool, existing: seq<MiscFunction>) returns (vector: seq<MiscFunction>)
      requires Valid()
      modifies `index
      ensures Sorted(vector) && multiset(vector) == multiset(recorded) + multiset(if inclink then existing else [])
    {
      hide Collected, StripAll, QSort, Sorted;
      var start := if inclink then existing else [];
      vector := CopyBunches(start);
      QSortSorts(vector);
      vector := QSort(vector);
    }

    method CopyBunches(start: seq<MiscFunction>) returns (vector: seq<MiscFunction>)
      requires Valid()
      modifies `index
      ensures vector == start + StripAll(Collected(old(bunches), old(index)))
    {
      ghost var all := Collected(bunches, index);
      vector := start;
      ghost var done: seq<MiscFunction> := [];
      var bunch := bunches;
      assert start + StripAll(done) == start && done + all == all;
      hide StripAll, Valid;
      while bunch.Bunch?
        invariant Full(bunch) && index <= MISC_BUNCH_SIZE
        invariant vector == start + StripAll(done) && all == done + Collected(bunch, index)
        decreases bunch
      {
        ghost var here, rest := bunch.contents[..index], Collected(bunch.next, MISC_BUNCH_SIZE);
        StripJoins(done, here);
        assert done + (here + rest) == done + here + rest;
        assert start + StripAll(done) + StripAll(here) == start + (StripAll(done) + StripAll(here));
        vector := CopyBunch(vector, bunch.contents, index);
        done := done + here;
        bunch := bunch.next;
        index := MISC_BUNCH_SIZE;
      }
      assert all == done;
    }

    method CopyBunch(vector: seq<MiscFunction>, contents: seq<MiscFunction>, used: nat) returns (r: seq<MiscFunction>)
      requires used <= |contents|
      ensures r == vector + StripAll(contents[..used])
    {
      r := vector;
      var i := 0;
      while i < used
        invariant 0 <= i <= used && r == vector + StripAll(contents[..i])
      {
        r := r + [Strip(contents[i])];
        i := i + 1;
      }
    }
  }

  lemma AllPlaces(b: Bunches)
    requires Full(b) && b.Bunch?
    ensures |b.contents| == MISC_BUNCH_SIZE
  {
  }

  // ----- searching -----

  /** A 32-bit difference read as signed. */
  function Signed(x: int): (r: int)
    ensures -TWO31 <= r < TWO31 && (r - x) % TWO32 == 0
  {
    (x + TWO31) % TWO32 - TWO31
  }

  /** Which way a probe at address `a` sends the search for `pc`: right exactly when the two are less
      than 2^31 apart, or `pc` just 2^31 above. */
  lemma ProbeRightExactly(a: int, pc: int)
    requires 0 <= a < TWO32 && 0 <= pc < TWO32
    ensures (Signed(a - pc) == 0 <==> a == pc)
    ensures (Signed(a - pc) > 0 <==> a > pc) <==> -TWO31 <= a - pc < TWO31
  {
  }

  predicate Addresses(v: seq<MiscFunction>) {
    forall i :: 0 <= i < |v| ==> 0 <= v[i].address < TWO32
  }

  /** One turn of the search's loop, from lo and hi; both become the probe's place if it is exact. */
  function Turn(v: seq<MiscFunction>, pc: int, lo: nat, hi: nat): (nat, nat)
    requires lo <= hi < |v|
  {
    var new' := (lo + hi) / 2;
    var distance := Signed(v[new'].address - pc);
    if distance == 0 then (new', new') else if distance > 0 then (lo, new') else (new', hi)
  }

  /** The loop allowed at most `turns` turns: its answer, or None if it has not ended by then. */
  function Search(v: seq<MiscFunction>, pc: int, lo: nat, hi: nat, turns: nat): Option<nat>
    requires lo <= hi < |v|
    decreases turns
  {
    if turns == 0 then None
    else if Signed(v[(lo + hi) / 2].address - pc) == 0 then Some((lo + hi) / 2)
    else
      var (lo', hi') := Turn(v, pc, lo, hi);
      if hi' - lo' == 1 then Some(lo') else Search(v, pc, lo', hi', turns - 1)
  }

  function SearchAll(v: seq<MiscFunction>, pc: int, turns: nat): Option<nat>
    requires v != []
  {
    Search(v, pc, 0, |v| - 1, turns)
  }

  predicate InRange(v: seq<MiscFunction>, pc: int) {
    v != [] && v[0].address <= pc <= v[|v| - 1].address
  }

  /** The symbol is at or below the address with none in between, except that at the very last
      symbol's address it may be the one before. */
  predicate Right(v: seq<MiscFunction>, pc: int, r: int) {
    && 0 <= r < |v| && v[r].address <= pc
    && (v[r].address != pc ==>
          r + 1 < |v| && pc <= v[r + 1].address && (pc == v[r + 1].address ==> r + 1 == |v| - 1))
  }

  ghost predicate EndsRightly(v: seq<MiscFunction>, pc: int)
    requires v != []
  {
    exists turns: nat :: SearchAll(v, pc, turns).Some? && Right(v, pc, SearchAll(v, pc, turns).value)
  }

  /** The first symbol probed is less than 2^31 above the lowest one and at most that far below the
      highest. */
  predicate HalvesNarrow(v: seq<MiscFunction>) {
    v != [] ==>
      var m := (|v| - 1) / 2;
      v[m].address - v[0].address < TWO31 && v[|v| - 1].address - v[m].address <= TWO31
  }

  /** The search stands between two places with the address between theirs, and no probe left to it
      can turn the wrong way. */
  predicate OnCourse(v: seq<MiscFunction>, pc: int, lo: nat, hi: nat) {
    && lo < hi < |v| && v[lo].address <= pc <= v[hi].address && (hi == |v| - 1 || pc < v[hi].address)
    && v[hi].address - v[lo].address <= TWO31 && (v[lo].address < pc || v[hi].address - v[lo].address < TWO31)
  }

  /** One turn keeps on course, or has found the address. */
  lemma TurnKeepsCourse(v: seq<MiscFunction>, pc: int, lo: nat, hi: nat)
    requires Sorted(v) && Addresses(v) && 0 <= pc < TWO32 && OnCourse(v, pc, lo, hi)
    ensures var new' := (lo + hi) / 2;
      var (lo', hi') := Turn(v, pc, lo, hi);
      if Signed(v[new'].address - pc) == 0 then v[new'].address == pc
      else OnCourse(v, pc, lo', hi') && (if hi - lo > 1 then hi' - lo' < hi - lo else hi' - lo' == 1)
  {
    var new' := (lo + hi) / 2;
    assert lo < new' ==> v[lo].address <= v[new'].address;
    assert new' < hi ==> v[new'].address <= v[hi].address;
    ProbeRightExactly(v[new'].address, pc);
  }

  lemma {:induction false} CourseEnds(v: seq<MiscFunction>, pc: int, lo: nat, hi: nat, turns: nat)
    requires Sorted(v) && Addresses(v) && 0 <= pc < TWO32 && OnCourse(v, pc, lo, hi) && turns >= hi - lo
    ensures Search(v, pc, lo, hi, turns).Some? && Right(v, pc, Search(v, pc, lo, hi, turns).value)
    decreases hi - lo
  {
    hide Sorted, Addresses;
    TurnKeepsCourse(v, pc, lo, hi);
    var (lo', hi') := Turn(v, pc, lo, hi);
    if Signed(v[(lo + hi) / 2].address - pc) != 0 && hi' - lo' != 1 {
      CourseEnds(v, pc, lo', hi', turns - 1);
    }
  }

  /** The first turn of a search whose halves are narrow, over the whole vector. */
  lemma FirstTurn(v: seq<MiscFunction>, pc: int)
    requires Sorted(v) && Addresses(v) && HalvesNarrow(v) && InRange(v, pc)
    ensures var n := |v| - 1;
      var (lo, hi) := Turn(v, pc, 0, n);
      if Signed(v[n / 2].address - pc) == 0 then v[n / 2].address == pc else OnCourse(v, pc, lo, hi)
  {
    var m := (|v| - 1) / 2;
    assert 0 < m ==> v[0].address <= v[m].address;
    assert m < |v| - 1 ==> v[m].address <= v[|v| - 1].address;
    ProbeRightExactly(v[m].address, pc);
  }

  lemma NarrowEnds(v: seq<MiscFunction>, pc: int)
    requires Sorted(v) && Addresses(v) && HalvesNarrow(v) && InRange(v, pc)
    ensures EndsRightly(v, pc)
  {
    FirstTurn(v, pc);
    var n := |v| - 1;
    var (lo, hi) := Turn(v, pc, 0, n);
    if Signed(v[n / 2].address - pc) != 0 && hi - lo != 1 {
      CourseEnds(v, pc, lo, hi, |v|);
    }
    assert SearchAll(v, pc, |v| + 1).Some?;
  }

  /** Once below the place sought the search never comes back up to it. */
  lemma {:induction false} StaysBelow(v: seq<MiscFunction>, pc: int, lo: nat, hi: nat, turns: nat)
    requires Sorted(v) && Addresses(v) && 0 <= pc < TWO32 && lo <= hi < |v| && v[hi].address < pc
    ensures var r := Search(v, pc, lo, hi, turns); r.Some? ==> !Right(v, pc, r.value)
    decreases turns
  {
    if turns > 0 {
      var new' := (lo + hi) / 2;
      assert new' < hi ==> v[new'].address <= v[hi].address;
      ProbeRightExactly(v[new'].address, pc);
      var (lo', hi') := Turn(v, pc, lo, hi);
      assert lo' < hi ==> v[lo'].address <= v[hi].address;
      assert hi' < hi ==> v[hi'].address <= v[hi].address;
      if hi' - lo' != 1 {
        StaysBelow(v, pc, lo', hi', turns - 1);
      }
    }
  }

  /** Nor, once above it, back down. */
  lemma {:induction false} StaysAbove(v: seq<MiscFunction>, pc: int, lo: nat, hi: nat, turns: nat)
    requires Sorted(v) && Addresses(v) && 0 <= pc < TWO32 && lo <= hi < |v| && pc < v[lo].address
    ensures var r := Search(v, pc, lo, hi, turns); r.Some? ==> !Right(v, pc, r.value)
    decreases turns
  {
    if turns > 0 {
      var new' := (lo + hi) / 2;
      assert lo < new' ==> v[lo].address <= v[new'].address;
      ProbeRightExactly(v[new'].address, pc);
      var (lo', hi') := Turn(v, pc, lo, hi);
      assert lo < lo' ==> v[lo].address <= v[lo'].address;
      if hi' - lo' != 1 {
        StaysAbove(v, pc, lo', hi', turns - 1);
      }
    }
  }

  /** Sought at the lowest symbol's own address, a vector with a wide lower half is searched in vain. */
  lemma WideLowerFails(v: seq<MiscFunction>, turns: nat)
    requires Sorted(v) && Addresses(v) && v != [] && v[(|v| - 1) / 2].address - v[0].address >= TWO31
    ensures var r := SearchAll(v, v[0].address, turns); r.Some? ==> !Right(v, v[0].address, r.value)
  {
    var n := |v| - 1;
    var m := n / 2;
    assert m < n ==> v[m].address <= v[n].address;
    ProbeRightExactly(v[m].address, v[0].address);
    if turns > 0 && n - m != 1 {
      StaysAbove(v, v[0].address, m, n, turns - 1);
    }
  }

  /** And at the highest's, one with a wide upper half. */
  lemma WideUpperFails(v: seq<MiscFunction>, turns: nat)
    requires Sorted(v) && Addresses(v) && v != [] && v[|v| - 1].address - v[(|v| - 1) / 2].address > TWO31
    ensures var pc := v[|v| - 1].address; var r := SearchAll(v, pc, turns); r.Some? ==> !Right(v, pc, r.value)
  {
    var n := |v| - 1;
    var m := n / 2;
    assert 0 < m ==> v[0].address <= v[m].address;
    ProbeRightExactly(v[m].address, v[n].address);
    if turns > 0 && m != 1 {
      StaysBelow(v, v[n].address, 0, m, turns - 1);
    }
  }

  lemma WideFails(v: seq<MiscFunction>) returns (pc: int)
    requires Sorted(v) && Addresses(v) && !HalvesNarrow(v)
    ensures InRange(v, pc) && !EndsRightly(v, pc)
  {
    hide Right, SearchAll;
    var n := |v| - 1;
    var low := v[n / 2].address - v[0].address >= TWO31;
    pc := if low then v[0].address else v[n].address;
    assert 0 < n ==> v[0].address <= v[n].address;
    forall turns: nat
      ensures var r := SearchAll(v, pc, turns); r.Some? ==> !Right(v, pc, r.value)
    {
      if low { WideLowerFails(v, turns); } else { WideUpperFails(v, turns); }
    }
  }

  /** For every address in a sorted vector's range the search ends at the right place, exactly when the
      vector's halves are narrow. */
  lemma SearchRightExactly(v: seq<MiscFunction>)
    requires Sorted(v) && Addresses(v) && v != []
    ensures (forall pc :: InRange(v, pc) ==> EndsRightly(v, pc)) <==> HalvesNarrow(v)
  {
    if HalvesNarrow(v) {
      forall pc | InRange(v, pc)
        ensures EndsRightly(v, pc)
      {
        NarrowEnds(v, pc);
      }
    } else {
      var pc := WideFails(v);
    }
  }

  /** What one turn does to the search, from the whole vector or on course. */
  lemma TurnOfSearch(v: seq<MiscFunction>, pc: int, lo: nat, hi: nat, turns: nat)
    requires Sorted(v) && Addresses(v) && 0 <= pc < TWO32 && turns > 0
    requires if lo == 0 && hi == |v| - 1 then HalvesNarrow(v) && InRange(v, pc) else OnCourse(v, pc, lo, hi)
    ensures var new' := (lo + hi) / 2;
      var (lo', hi') := Turn(v, pc, lo, hi);
      if Signed(v[new'].address - pc) == 0 then
        Right(v, pc, new') && Search(v, pc, lo, hi, turns) == Some(new')
      else
        && OnCourse(v, pc, lo', hi') && (hi' - lo' == 1 || hi' - lo' < hi - lo)
        && Search(v, pc, lo, hi, turns) == if hi' - lo' == 1 then Some(lo') else Search(v, pc, lo', hi', turns - 1)
  {
    if lo == 0 && hi == |v| - 1 {
      FirstTurn(v, pc);
    } else {
      TurnKeepsCourse(v, pc, lo, hi);
    }
  }

  lemma NextToEachOther(v: seq<MiscFunction>, pc: int, lo: nat)
    requires OnCourse(v, pc, lo, lo + 1)
    ensures Right(v, pc, lo)
  {
  }

  /** find_pc_misc_function: -1 if the address is outside the vector's range, else the right place. */
  method FindPcMiscFunction(v: seq<MiscFunction>, pc: int) returns (r: int)
    requires Sorted(v) && Addresses(v) && 0 <= pc < TWO32 && HalvesNarrow(v)
    ensures r == -1 <==> !InRange(v, pc)
    ensures InRange(v, pc) ==> Right(v, pc, r) && SearchAll(v, pc, |v| + 1) == Some(r)
  {
    hide Sorted, Addresses, Search, Right, HalvesNarrow;
    var lo, hi := 0, |v| - 1;
    if hi < 0 {
      return -1;
    }
    if pc < v[0].address || pc > v[hi].address {
      return -1;
    }
    ghost var left := |v| + 1;
    var first := true;
    while first || hi - lo != 1
      invariant 0 <= lo <= hi < |v| && hi - lo < left
      invariant if first then lo == 0 && hi == |v| - 1 && left == |v| + 1 else OnCourse(v, pc, lo, hi)
      invariant SearchAll(v, pc, |v| + 1) == if first || hi - lo != 1 then Search(v, pc, lo, hi, left) else Some(lo)
      decreases first, hi - lo
    {
      TurnOfSearch(v, pc, lo, hi, left);
      var new' := (lo + hi) / 2;
      var distance := Signed(v[new'].address - pc);
      if distance == 0 {
        return new';
      } else if distance > 0 {
        hi := new';
      } else {
        lo := new';
      }
      first := false;
      left := left - 1;
    }
    r := lo;
    NextToEachOther(v, pc, lo);
  }

  /** With two symbols more than 2^31 apart the search goes round for ever at the upper one's address. */
  lemma {:induction false} SearchNeverEnds(v: seq<MiscFunction>, turns: nat)
    requires |v| == 2 && Sorted(v) && Addresses(v) && v[1].address - v[0].address > TWO31
    ensures Search(v, v[1].address, 0, 1, turns).None? && Search(v, v[1].address, 0, 0, turns).None?
  {
    if turns > 0 {
      SearchNeverEnds(v, turns - 1);
    }
  }
}
