/** Lexical blocks of a source file: their tree, the order in which a blockvector lists them, and
    block_for_pc's search of that vector. */
module Blocks {
  import opened Wrappers

  /** A block with the blocks directly inside it, in the order of the source. */
  datatype Block = Block(name: string, syms: seq<string>, start: int, end: int, kids: Forest)
  datatype Forest = Empty | Then(before: Forest, last: Block)

  /** A block before the blocks inside it, siblings in order. */
  function Preorder(b: Block): (r: seq<Block>)
    ensures r != [] && r[0] == b
  {
    [b] + PreorderAll(b.kids)
  }

  function PreorderAll(f: Forest): seq<Block> {
    match f
    case Empty => []
    case Then(before, last) => PreorderAll(before) + ([last] + PreorderAll(last.kids))
  }

  function Join(f: Forest, g: Forest): Forest {
    match g
    case Empty => f
    case Then(before, last) => Then(Join(f, before), last)
  }

  predicate Contains(b: Block, pc: int) {
    b.start <= pc < b.end
  }

  /** Blocks lie inside their containing block and siblings follow one another. */
  predicate Nested(b: Block)
    decreases b
  {
    NestedAll(b.start, b.end, b.kids)
  }

  predicate NestedAll(start: int, end: int, f: Forest)
    decreases f
  {
    match f
    case Empty => start <= end
    case Then(before, last) => NestedAll(start, last.start, before) && Nested(last) && last.end <= end
  }

  /** The smallest block containing `pc`, going down the tree. */
  function Innermost(b: Block, pc: int): Option<Block> {
    if !Contains(b, pc) then None
    else
      var inside := InnermostOf(b.kids, pc);
      if inside.Some? then inside else Some(b)
  }

  function InnermostOf(f: Forest, pc: int): Option<Block> {
    match f
    case Empty => None
    case Then(before, last) =>
      var r := Innermost(last, pc);
      if r.Some? then r else InnermostOf(before, pc)
  }

  // ----- the order of the vector -----

  predicate Ascending(bs: seq<Block>) {
    forall i, j :: 0 <= i < j < |bs| ==> bs[i].start <= bs[j].start
  }

  predicate Within(start: int, end: int, bs: seq<Block>) {
    forall i :: 0 <= i < |bs| ==> start <= bs[i].start <= bs[i].end <= end
  }

  /** Listed in preorder, nested blocks have ascending starting addresses. */
  lemma {:induction false} PreorderAscends(b: Block)
    requires Nested(b)
    ensures Ascending(Preorder(b)) && Within(b.start, b.end, Preorder(b)) && b.start <= b.end
    decreases b
  {
    PreorderAllAscends(b.start, b.end, b.kids);
  }

  lemma {:induction false} PreorderAllAscends(start: int, end: int, f: Forest)
    requires NestedAll(start, end, f)
    ensures Ascending(PreorderAll(f)) && Within(start, end, PreorderAll(f)) && start <= end
    decreases f
  {
    match f
    case Empty =>
    case Then(before, last) =>
      PreorderAllAscends(start, last.start, before);
      PreorderAscends(last);
  }

  // ----- the last block listed that contains an address -----

  /** `k` is the last place in `v` where a block contains `pc`. */
  predicate LastContaining(v: seq<Block>, pc: int, k: nat) {
    k < |v| && Contains(v[k], pc) && NoneAfter(v, pc, k + 1)
  }

  predicate NoneAfter(v: seq<Block>, pc: int, k: nat) {
    forall j :: k <= j < |v| ==> !Contains(v[j], pc)
  }

  lemma {:induction false} InnermostIsLast(b: Block, pc: int) returns (k: nat)
    requires Nested(b) && Contains(b, pc)
    ensures LastContaining(Preorder(b), pc, k) && Innermost(b, pc) == Some(Preorder(b)[k])
    decreases b
  {
    var r := InnermostOfIsLast(b.start, b.end, b.kids, pc);
    k := if r.Some? then 1 + r.value else 0;
    var v, inside := Preorder(b), PreorderAll(b.kids);
    forall j | k < j < |v|
      ensures !Contains(v[j], pc)
    {
      assert v[j] == inside[j - 1];
    }
  }

  lemma {:induction false} InnermostOfIsLast(start: int, end: int, f: Forest, pc: int) returns (k: Option<nat>)
    requires NestedAll(start, end, f)
    ensures k.Some? <==> InnermostOf(f, pc).Some?
    ensures var v := PreorderAll(f);
      if k.Some? then LastContaining(v, pc, k.value) && InnermostOf(f, pc) == Some(v[k.value]) else NoneAfter(v, pc, 0)
    decreases f
  {
    k := None;
    if f.Then? {
      PreorderAscends(f.last);
      if Contains(f.last, pc) {
        var m := InnermostIsLast(f.last, pc);
        k := Some(|PreorderAll(f.before)| + m);
      } else {
        k := InnermostOfIsLast(start, f.last.start, f.before, pc);
      }
    }
  }

  /** What that means: of all blocks containing the address, it lies within every other. */
  lemma {:induction false} InnermostIsSmallest(b: Block, pc: int, other: Block)
    requires Nested(b) && other in Preorder(b) && Contains(other, pc)
    ensures var r := Innermost(b, pc); r.Some? && Contains(r.value, pc) && other.start <= r.value.start && r.value.end <= other.end
    decreases b
  {
    PreorderAscends(b);
    var k := InnermostIsLast(b, pc);
    assert Innermost(b, pc).value in Preorder(b);
    if other != b {
      assert other in PreorderAll(b.kids);
      SmallestOf(b.start, b.end, b.kids, pc, other);
    }
  }

  lemma {:induction false} SmallestOf(start: int, end: int, f: Forest, pc: int, other: Block)
    requires NestedAll(start, end, f) && other in PreorderAll(f) && Contains(other, pc)
    ensures var r := InnermostOf(f, pc);
      r.Some? && Contains(r.value, pc) && other.start <= r.value.start && r.value.end <= other.end
    decreases f
  {
    PreorderAscends(f.last);
    if other in Preorder(f.last) {
      InnermostIsSmallest(f.last, pc, other);
    } else {
      PreorderAllAscends(start, f.last.start, f.before);
      SmallestOf(start, f.last.start, f.before, pc, other);
    }
  }

  /** A block as it is made; `super` is the index of its superblock, -1 while it has none. */
  datatype Built = Built(name: string, syms: seq<string>, start: int, end: int, super: int)

  predicate Is(built: Built, b: Block) {
    built.name == b.name && built.syms == b.syms && built.start == b.start && built.end == b.end
  }

  /** A blockvector with the blocks of a file in preorder. */
  predicate Lists(v: seq<Built>, file: Block) {
    |v| == |Preorder(file)| && forall i :: 0 <= i < |v| ==> Is(v[i], Preorder(file)[i])
  }

  // ----- the search -----

  /** block_for_pc within one blockvector, whose first block is known to contain `pc`. */
  method SearchBlocks(v: seq<Built>, pc: int, ghost file: Block) returns (b: Built)
    requires Nested(file) && Lists(v, file) && Contains(file, pc)
    ensures Innermost(file, pc).Some? && Is(b, Innermost(file, pc).value)
  {
    PreorderAscends(file);
    ghost var k := InnermostIsLast(file, pc);
    ghost var p := Preorder(file);
    hide Preorder, Nested, Innermost;
    var bot, top := 0, |v|;
    while top - bot > 1
      invariant 0 <= bot < top <= |v| && p[bot].start <= pc
      invariant top < |v| ==> pc < p[top].start
    {
      var half := (top - bot + 1) / 2;
      assert Is(v[bot + half], p[bot + half]);
      if v[bot + half].start <= pc {
        bot := bot + half;
      } else {
        top := bot + half;
      }
    }
    assert Is(v[bot], p[bot]);
    while v[bot].end <= pc
      invariant k <= bot < top && Is(v[bot], p[bot])
      decreases bot
    {
      bot := bot - 1;
    }
    b := v[bot];
  }

  /** The first file that has the address, and the innermost block there; none if no file has it. */
  function InnermostAnywhere(files: seq<Block>, pc: int): Option<Block> {
    if files == [] then None
    else if Contains(files[0], pc) then Innermost(files[0], pc)
    else InnermostAnywhere(files[1..], pc)
  }

  lemma {:induction false} NoneAnywhere(files: seq<Block>, pc: int)
    requires forall i :: 0 <= i < |files| ==> Nested(files[i])
    ensures InnermostAnywhere(files, pc).None? <==> forall i, b :: 0 <= i < |files| && b in Preorder(files[i]) ==> !Contains(b, pc)
  {
    if files != [] {
      NoneAnywhere(files[1..], pc);
      PreorderAscends(files[0]);
      assert files[0] in Preorder(files[0]) by { assert Preorder(files[0])[0] == files[0]; }
      forall i | 1 <= i < |files|
        ensures files[i] == files[1..][i - 1]
      {
      }
      if InnermostAnywhere(files, pc).None? {
        forall i, b | 0 <= i < |files| && b in Preorder(files[i])
          ensures !Contains(b, pc)
        {
          if i > 0 { assert b in Preorder(files[1..][i - 1]); }
        }
      }
    }
  }

  /** block_for_pc over the symtabs read in. */
  method BlockForPc(symtabs: seq<seq<Built>>, pc: int, ghost files: seq<Block>) returns (b: Option<Built>)
    requires |symtabs| == |files|
    requires forall i :: 0 <= i < |files| ==> Nested(files[i]) && Lists(symtabs[i], files[i])
    ensures b.Some? <==> InnermostAnywhere(files, pc).Some?
    ensures b.Some? ==> Is(b.value, InnermostAnywhere(files, pc).value)
  {
    hide Nested, Innermost;
    var s := 0;
    while s < |symtabs|
      invariant 0 <= s <= |symtabs|
      invariant InnermostAnywhere(files, pc) == InnermostAnywhere(files[s..], pc)
    {
      assert files[s..][0] == files[s] && files[s..][1..] == files[s + 1..];
      assert Is(symtabs[s][0], files[s]);
      if symtabs[s][0].start <= pc && symtabs[s][0].end > pc {
        var found := SearchBlocks(symtabs[s], pc, files[s]);
        return Some(found);
      }
      s := s + 1;
    }
    b := None;
  }
}
