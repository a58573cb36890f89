/** Line numbers: one table for each source file merged into a compilation, the table of the current
    one living in global variables. */
module LineTables {

  datatype Entry = Entry(line: int, pc: int)

  const DUMMY_LINE: int := 0xffff
  const FIRST_LENGTH: nat := 1000

  /** What the symbols say, in their order. */
  datatype Event = Start(name: string) | Line(line: int, pc: int)

  function Current(events: seq<Event>): string {
    if events == [] then ""
    else
      var last := events[|events| - 1];
      if last.Start? then last.name else Current(events[..|events| - 1])
  }

  /** The lines recorded while `name` was current, less the dummy ones. */
  function LinesOf(events: seq<Event>, name: string): seq<Entry> {
    if events == [] then []
    else
      var before, last := events[..|events| - 1], events[|events| - 1];
      var lines := LinesOf(before, name);
      if last.Line? && last.line != DUMMY_LINE && Current(before) == name then lines + [Entry(last.line, last.pc)] else lines
  }

  /** The same for all files at once, in step with the events. */
  function Tables(events: seq<Event>): map<string, seq<Entry>> {
    if events == [] then map[]
    else
      var before, last := events[..|events| - 1], events[|events| - 1];
      After(Tables(before), Current(before), last)
  }

  function After(tables: map<string, seq<Entry>>, current: string, e: Event): map<string, seq<Entry>> {
    match e
    case Start(name) => if name in tables then tables else tables[name := []]
    case Line(line, pc) =>
      if line != DUMMY_LINE && current in tables then tables[current := tables[current] + [Entry(line, pc)]] else tables
  }

  lemma {:induction false} TablesAreLines(events: seq<Event>, name: string)
    requires events != [] && events[0].Start?
    ensures Current(events) in Tables(events)
    ensures name in Tables(events) <==> Start(name) in events
    ensures LinesOf(events, name) == if name in Tables(events) then Tables(events)[name] else []
  {
    var before, last := events[..|events| - 1], events[|events| - 1];
    assert events == before + [last];
    if before != [] {
      TablesAreLines(before, name);
    } else {
      assert events == [last];
    }
  }

  lemma TablesStep(events: seq<Event>, e: Event)
    ensures Tables(events + [e]) == After(Tables(events), Current(events), e)
    ensures Current(events + [e]) == if e.Start? then e.name else Current(events)
  {
    assert (events + [e])[..|events|] == events;
  }

  class Subfile {
    const name: string
    var lineVector: array<Entry>
    var index: nat
    var length: nat

    constructor (name: string, lineVector: array<Entry>)
      ensures this.name == name && this.lineVector == lineVector && index == 0 && length == lineVector.Length
    {
      this.name, this.lineVector, index, length := name, lineVector, 0, lineVector.Length;
    }
  }

  // ----- subfiles and what they hold -----

  /** A subfile that is put away holds its lines. */
  ghost predicate Put(s: Subfile, recorded: map<string, seq<Entry>>)
    reads s, s.lineVector
  {
    && s.name in recorded
    && s.index < s.length == s.lineVector.Length && s.lineVector[..s.index] == recorded[s.name]
  }

  /** No two subfiles share a table. */
  ghost predicate Apart(s: Subfile, t: Subfile)
    reads s, t
  {
    s.lineVector != t.lineVector
  }

  ghost predicate AllApart(subs: seq<Subfile>)
    reads subs
  {
    forall i, j :: 0 <= i < j < |subs| ==> Apart(subs[i], subs[j])
  }

  /** One subfile for each name, `at` telling where. */
  ghost predicate Names(subs: seq<Subfile>, recorded: map<string, seq<Entry>>, at: map<string, nat>) {
    && at.Keys == recorded.Keys
    && (forall n :: n in at ==> at[n] < |subs| && subs[at[n]].name == n)
    && forall i :: 0 <= i < |subs| ==> subs[i].name in at && at[subs[i].name] == i
  }

  ghost predicate PutAll(subs: seq<Subfile>, recorded: map<string, seq<Entry>>)
    reads subs, set i | 0 <= i < |subs| :: subs[i].lineVector
  {
    forall i :: 0 <= i < |subs| ==> Put(subs[i], recorded)
  }

  lemma NamesWith(subs: seq<Subfile>, recorded: map<string, seq<Entry>>, at: map<string, nat>, s: Subfile)
    requires Names(subs, recorded, at) && s.name !in recorded
    ensures Names(subs + [s], recorded[s.name := []], at[s.name := |subs|])
  {
  }

  lemma ApartWith(subs: seq<Subfile>, s: Subfile)
    requires AllApart(subs) && forall i :: 0 <= i < |subs| ==> subs[i].lineVector != s.lineVector
    ensures AllApart(subs + [s])
  {
  }

  lemma PutWith(subs: seq<Subfile>, recorded: map<string, seq<Entry>>, s: Subfile)
    requires PutAll(subs, recorded) && s.name !in recorded && s.index == 0 < s.length == s.lineVector.Length
    ensures PutAll(subs + [s], recorded[s.name := []])
  {
    var more := recorded[s.name := []];
    assert s.lineVector[..0] == [];
    forall i | 0 <= i < |subs|
      ensures Put(subs[i], more)
    {
      assert Put(subs[i], recorded);
    }
  }

  class LineRecorder {
    var subfiles: seq<Subfile>        // the newest last
    var current: Subfile
    var lineVector: array<Entry>      // the current subfile's, with its index and length
    var index: nat
    var length: nat
    var stack: seq<string>            // the subfiles that includes interrupted
    ghost var events: seq<Event>
    ghost var recorded: map<string, seq<Entry>>
    ghost var at: map<string, nat>    // where each name is among the subfiles

    /** The current subfile's lines are where the globals say. */
    ghost predicate Out()
      reads `current, current, `lineVector, lineVector, `index, `length, `recorded
    {
      && current.lineVector == lineVector && index < length == lineVector.Length
      && current.name in recorded && lineVector[..index] == recorded[current.name]
    }

    /** Every subfile's lines are in place; `recorded` says which they are. */
    ghost predicate Shape()
      reads `subfiles, `current, `lineVector, `index, `length, `recorded, `at, subfiles, current, lineVector,
            set i | 0 <= i < |subfiles| :: subfiles[i].lineVector
    {
      && current in subfiles && Out() && AllApart(subfiles) && Names(subfiles, recorded, at)
      && forall i :: 0 <= i < |subfiles| && subfiles[i] != current ==> Put(subfiles[i], recorded)
    }

    ghost predicate Valid()
      reads this, subfiles, current, lineVector, set i | 0 <= i < |subfiles| :: subfiles[i].lineVector
    {
      Shape() && current.name == Current(events) && recorded == Tables(events)
    }

    /** start_symtab's part: the file itself is its first subfile. */
    constructor (name: string)
      ensures Valid() && events == [Start(name)] && stack == []
    {
      var table := new Entry[FIRST_LENGTH](_ => Entry(0, 0));
      var s := new Subfile(name, table);
      subfiles, current, lineVector, index, length, stack := [s], s, table, 0, FIRST_LENGTH, [];
      events, recorded, at := [Start(name)], map[name := []], map[name := 0];
      new;
      assert events[..0] == [];
      assert subfiles[0].name == name;
    }

    /** Between putting the current table away and bringing one out, every table is put away. */
    ghost predicate AllPut()
      reads `subfiles, `recorded, `at, subfiles, set i | 0 <= i < |subfiles| :: subfiles[i].lineVector
    {
      AllApart(subfiles) && Names(subfiles, recorded, at) && PutAll(subfiles, recorded)
    }

    /** start_subfile: the current table is put away and the other one brought out. */
    method StartSubfile(name: string)
      requires Valid()
      modifies this, current
      ensures Valid() && events == old(events) + [Start(name)] && stack == old(stack)
    {
      hide Shape, AllPut, Tables, Current;
      PutAway();
      Switch(name);
      TablesStep(events, Start(name));
      events := events + [Start(name)];
    }

    method PutAway()
      requires Shape()
      modifies current
      ensures AllPut()
    {
      current.index := index;
      current.length := length;
      forall i, j | 0 <= i < j < |subfiles|
        ensures Apart(subfiles[i], subfiles[j])
      {
        assert old(Apart(subfiles[i], subfiles[j]));
      }
      forall i | 0 <= i < |subfiles|
        ensures Put(subfiles[i], recorded)
      {
        if subfiles[i] != current {
          OtherTable(i);
          assert old(Put(subfiles[i], recorded));
        }
      }
    }

    method Switch(name: string)
      requires AllPut()
      modifies `subfiles, `current, `lineVector, `index, `length, `recorded, `at
      ensures Shape() && current.name == name && recorded == if name in old(recorded) then old(recorded) else old(recorded)[name := []]
    {
      var i := FindSubfile(name);
      if i < |subfiles| {
        BringOut(i);
      } else {
        AddSubfile(name);
      }
    }

    method FindSubfile(name: string) returns (i: nat)
      requires AllPut()
      ensures i <= |subfiles| && (i < |subfiles| ==> subfiles[i].name == name && name in recorded)
      ensures i == |subfiles| ==> name !in recorded
    {
      var n := |subfiles|;
      while n > 0 && subfiles[n - 1].name != name
        invariant 0 <= n <= |subfiles|
        invariant forall j :: n <= j < |subfiles| ==> subfiles[j].name != name
      {
        n := n - 1;
      }
      i := if n > 0 then n - 1 else |subfiles|;
    }

    method BringOut(i: nat)
      requires AllPut() && i < |subfiles|
      modifies `current, `lineVector, `index, `length
      ensures Shape() && current == subfiles[i]
    {
      hide AllApart, Names, Put;
      var s := subfiles[i];
      PutParts(s);
      lineVector, index, length, current := s.lineVector, s.index, s.length, s;
    }

    lemma PutParts(s: Subfile)
      requires Put(s, recorded)
      ensures s.name in recorded && s.index < s.length == s.lineVector.Length && s.lineVector[..s.index] == recorded[s.name]
    {
    }

    method AddSubfile(name: string)
      requires AllPut() && name !in recorded
      modifies `subfiles, `current, `lineVector, `index, `length, `recorded, `at
      ensures Shape() && current.name == name && recorded == old(recorded)[name := []]
    {
      hide AllPut, Shape;
      var table := new Entry[FIRST_LENGTH](_ => Entry(0, 0));
      var s := new Subfile(name, table);
      Enlist(s);
      BringOut(|subfiles| - 1);
    }

    /** A new subfile on the list, with an empty table. */
    method Enlist(s: Subfile)
      requires AllPut() && s.name !in recorded && s.index == 0 < s.length == s.lineVector.Length
      requires forall i :: 0 <= i < |subfiles| ==> subfiles[i] != s && subfiles[i].lineVector != s.lineVector
      modifies `subfiles, `recorded, `at
      ensures AllPut() && subfiles == old(subfiles) + [s] && recorded == old(recorded)[s.name := []]
    {
      hide AllApart, Names, PutAll, Put, Apart;
      NamesWith(subfiles, recorded, at, s);
      ApartWith(subfiles, s);
      PutWith(subfiles, recorded, s);
      at := at[s.name := |subfiles|];
      subfiles := subfiles + [s];
      recorded := recorded[s.name := []];
    }

    /** record_line: the table is doubled, and so moved, when it is nearly full. */
    method RecordLine(line: int, pc: int)
      requires Valid()
      modifies this, current, lineVector
      ensures Valid() && events == old(events) + [Line(line, pc)] && stack == old(stack)
    {
      hide Shape, Tables, Current;
      TablesStep(events, Line(line, pc));
      CurrentKnown();
      if line != DUMMY_LINE {
        if index + 1 >= length {
          Double();
        }
        Append(Entry(line, pc));
      }
      events := events + [Line(line, pc)];
    }

    lemma CurrentKnown()
      requires Shape()
      ensures current.name in recorded && index < length
    {
    }

    method Append(e: Entry)
      requires Shape() && index + 1 < length && current.name in recorded
      modifies `index, `recorded, lineVector
      ensures Shape() && recorded == old(recorded)[current.name := old(recorded)[current.name] + [e]]
    {
      hide Put, AllApart, Names;
      Write(e);
      OthersStill(recorded[current.name] + [e]);
      index := index + 1;
      recorded := recorded[current.name := recorded[current.name] + [e]];
    }

    /** New lines for the current subfile leave the others' as they are. */
    lemma OthersStill(lines: seq<Entry>)
      requires current in subfiles && AllApart(subfiles) && Names(subfiles, recorded, at) && current.name in recorded
      requires forall i :: 0 <= i < |subfiles| && subfiles[i] != current ==> Put(subfiles[i], recorded)
      ensures Names(subfiles, recorded[current.name := lines], at)
      ensures forall i :: 0 <= i < |subfiles| && subfiles[i] != current ==> Put(subfiles[i], recorded[current.name := lines])
    {
      forall i | 0 <= i < |subfiles| && subfiles[i] != current
        ensures Put(subfiles[i], recorded[current.name := lines])
      {
        OtherTable(i);
      }
    }

    /** The entry goes in the current table, which no other subfile has. */
    method Write(e: Entry)
      requires Shape() && index + 1 < length
      modifies lineVector
      ensures lineVector[..index + 1] == old(lineVector[..index]) + [e] && AllApart(subfiles)
      ensures forall i :: 0 <= i < |subfiles| && subfiles[i] != current ==> Put(subfiles[i], recorded)
    {
      ghost var lines := lineVector[..index];
      lineVector[index] := e;
      assert lineVector[..index + 1] == lines + [e];
      hide Put, Apart;
      forall i | 0 <= i < |subfiles| && subfiles[i] != current
        ensures Put(subfiles[i], recorded)
      {
        OtherTable(i);
        assert old(Put(subfiles[i], recorded));
      }
    }

    lemma OtherTable(i: nat)
      requires current in subfiles && AllApart(subfiles) && Names(subfiles, recorded, at) && i < |subfiles| && subfiles[i] != current
      ensures subfiles[i].lineVector != current.lineVector && subfiles[i].name != current.name
    {
      var c :| 0 <= c < |subfiles| && subfiles[c] == current;
      assert c < i ==> Apart(subfiles[c], subfiles[i]);
      assert i < c ==> Apart(subfiles[i], subfiles[c]);
    }

    method Double()
      requires Shape()
      modifies `length, `lineVector, current
      ensures Shape() && fresh(lineVector) && length == 2 * old(length)
    {
      var bigger := CopyTable(2 * length);
      Replace(bigger);
    }

    method CopyTable(size: nat) returns (bigger: array<Entry>)
      requires length == lineVector.Length <= size
      ensures fresh(bigger) && bigger.Length == size && bigger[..length] == lineVector[..]
    {
      bigger := new Entry[size](_ => Entry(0, 0));
      var i := 0;
      while i < length
        invariant 0 <= i <= length && bigger[..i] == lineVector[..i]
      {
        bigger[i] := lineVector[i];
        i := i + 1;
      }
    }

    method Replace(bigger: array<Entry>)
      requires Shape() && bigger.Length == 2 * length && bigger[..length] == lineVector[..]
      requires forall i :: 0 <= i < |subfiles| ==> subfiles[i].lineVector != bigger
      modifies `length, `lineVector, current
      ensures Shape() && lineVector == bigger && length == 2 * old(length)
    {
      assert bigger[..index] == bigger[..length][..index] == lineVector[..index];
      length := 2 * length;
      lineVector := bigger;
      current.lineVector := bigger;
      forall i, j | 0 <= i < j < |subfiles|
        ensures Apart(subfiles[i], subfiles[j])
      {
        assert old(Apart(subfiles[i], subfiles[j]));
      }
      forall i | 0 <= i < |subfiles| && subfiles[i] != current
        ensures Put(subfiles[i], recorded)
      {
        assert old(Put(subfiles[i], recorded));
      }
    }

    /** N_BINCL and N_EINCL: an include interrupts the current subfile and then goes back to it. */
    method BeginInclude(name: string)
      requires Valid()
      modifies this, current
      ensures Valid() && events == old(events) + [Start(name)] && stack == [Current(old(events))] + old(stack)
    {
      stack := [current.name] + stack;
      StartSubfile(name);
    }

    method EndInclude()
      requires Valid() && stack != []
      modifies this, current
      ensures Valid() && events == old(events) + [Start(old(stack)[0])] && stack == old(stack)[1..]
    {
      var name := stack[0];
      stack := stack[1..];
      StartSubfile(name);
    }

    /** The line tables of end_symtab: every subfile's holds just the lines recorded for it. */
    method EndSymtab() returns (tables: seq<(string, seq<Entry>)>)
      requires Valid() && events != [] && events[0].Start?
      modifies current
      ensures forall i :: 0 <= i < |tables| ==> tables[i].1 == LinesOf(events, tables[i].0)
      ensures forall i, j :: 0 <= i < j < |tables| ==> tables[i].0 != tables[j].0
      ensures forall name :: Start(name) in events ==> exists i :: 0 <= i < |tables| && tables[i].0 == name
    {
      hide Shape;
      PutAway();
      tables := CollectTables();
      forall j | 0 <= j < |tables|
        ensures tables[j].1 == LinesOf(events, tables[j].0)
      {
        TablesAreLines(events, tables[j].0);
      }
      forall name | Start(name) in events
        ensures exists j :: 0 <= j < |tables| && tables[j].0 == name
      {
        TablesAreLines(events, name);
      }
    }

    method CollectTables() returns (tables: seq<(string, seq<Entry>)>)
      requires AllPut()
      ensures forall j :: 0 <= j < |tables| ==> tables[j].0 in recorded && tables[j].1 == recorded[tables[j].0]
      ensures forall i, j :: 0 <= i < j < |tables| ==> tables[i].0 != tables[j].0
      ensures forall name :: name in recorded ==> exists j :: 0 <= j < |tables| && tables[j].0 == name
    {
      tables := [];
      var i := 0;
      while i < |subfiles|
        invariant 0 <= i <= |subfiles| && |tables| == i
        invariant forall j :: 0 <= j < i ==>
          tables[j].0 == subfiles[j].name && tables[j].0 in recorded && tables[j].1 == recorded[tables[j].0]
      {
        var s := subfiles[i];
        assert Put(s, recorded);
        tables := tables + [(s.name, s.lineVector[..s.index])];
        i := i + 1;
      }
      forall name | name in recorded
        ensures exists j :: 0 <= j < |tables| && tables[j].0 == name
      {
        assert tables[at[name]].0 == name;
      }
    }
  }
}
