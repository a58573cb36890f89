/** dbxread.c's making of blocks: symbols and finished blocks wait on lists until the scope that
    contains them is closed, and at the end of a file the list of blocks becomes its blockvector. */
module BlockBuilder {
  import opened Blocks
  import opened Wrappers

  // ----- pending symbols -----

  const PENDINGSIZE: nat := 100

  /** A list of symbols in links of PENDINGSIZE, the newest link first. */
  datatype Pending = Nil | Link(next: Pending, symbols: seq<string>)

  function Contents(p: Pending): seq<string> {
    match p
    case Nil => []
    case Link(next, symbols) => Contents(next) + symbols
  }

  /** Only the newest link may have room. */
  predicate Packed(p: Pending) {
    p.Link? ==> 0 < |p.symbols| <= PENDINGSIZE && Packed(p.next) && (p.next.Link? ==> |p.next.symbols| == PENDINGSIZE)
  }

  method AddSymbolToList(symbol: string, listhead: Pending) returns (r: Pending)
    requires Packed(listhead)
    ensures Packed(r) && Contents(r) == Contents(listhead) + [symbol]
  {
    var list := listhead;
    if list.Nil? || |list.symbols| == PENDINGSIZE {
      list := Link(list, []);
    }
    r := list.(symbols := list.symbols + [symbol]);
    assert Contents(r) == Contents(list.next) + (list.symbols + [symbol]);
  }

  /** The symbols copied out of the links, last to first, keep the order in which they were added. */
  method CopySymbols(listhead: Pending) returns (syms: seq<string>)
    ensures syms == Contents(listhead)
  {
    syms := [];
    var next := listhead;
    while next.Link?
      invariant Contents(listhead) == Contents(next) + syms
      decreases next
    {
      ghost var older, all, newer := Contents(next.next), next.symbols, syms;
      syms := CopyLink(next.symbols, syms);
      assert older + all + newer == older + (all + newer);
      next := next.next;
    }
  }

  method CopyLink(symbols: seq<string>, after: seq<string>) returns (syms: seq<string>)
    ensures syms == symbols + after
  {
    syms := after;
    var j := |symbols|;
    while j > 0
      invariant 0 <= j <= |symbols| && syms == symbols[j..] + after
    {
      j := j - 1;
      syms := [symbols[j]] + syms;
    }
  }

  // ----- blocks as built -----

  /** From place `at` on, `order` lists the forest in preorder: each block before the blocks inside it.
      The superblock of each is the one it is directly inside, and `super` for the outermost. */
  predicate Holds(blocks: seq<Built>, order: seq<nat>, at: nat, f: Forest, super: int)
    decreases f
  {
    match f
    case Empty => at <= |order|
    case Then(before, last) =>
      var here := at + |PreorderAll(before)|;
      && here < |order| && order[here] < |blocks|
      && Holds(blocks, order, at, before, super)
      && Is(blocks[order[here]], last) && blocks[order[here]].super == super
      && Holds(blocks, order, here + 1, last.kids, order[here])
  }

  lemma {:induction false} HoldsFits(blocks: seq<Built>, order: seq<nat>, at: nat, f: Forest, super: int)
    requires Holds(blocks, order, at, f, super)
    ensures at + |PreorderAll(f)| <= |order|
    decreases f
  {
    if f.Then? {
      var here := at + |PreorderAll(f.before)|;
      HoldsFits(blocks, order, here + 1, f.last.kids, order[here]);
    }
  }

  lemma {:induction false} HoldsKnown(blocks: seq<Built>, order: seq<nat>, at: nat, f: Forest, super: int, i: nat)
    requires Holds(blocks, order, at, f, super) && at <= i < at + |PreorderAll(f)|
    ensures i < |order| && order[i] < |blocks| && (super >= 0 ==> blocks[order[i]].super >= 0)
    decreases f
  {
    HoldsFits(blocks, order, at, f, super);
    var here := at + |PreorderAll(f.before)|;
    if i < here {
      HoldsKnown(blocks, order, at, f.before, super, i);
    } else if i > here {
      HoldsKnown(blocks, order, here + 1, f.last.kids, order[here], i);
    }
  }

  /** The same blocks, at `to` in another list. */
  predicate Moved(order: seq<nat>, at: nat, now: seq<nat>, to: nat, count: nat) {
    at + count <= |order| && to + count <= |now| && forall j :: to <= j < to + count ==> now[j] == order[j - to + at]
  }

  lemma {:induction false} HoldsMoved(blocks: seq<Built>, order: seq<nat>, at: nat, now: seq<nat>, to: nat, f: Forest, super: int)
    requires Holds(blocks, order, at, f, super) && Moved(order, at, now, to, |PreorderAll(f)|)
    ensures Holds(blocks, now, to, f, super)
    decreases f
  {
    if f.Then? {
      HoldsMoved(blocks, order, at, now, to, f.before, super);
      var m := |PreorderAll(f.before)|;
      assert now[to + m] == order[at + m];
      HoldsMoved(blocks, order, at + m + 1, now, to + m + 1, f.last.kids, order[at + m]);
    }
  }

  /** Only the listed blocks matter. */
  lemma {:induction false} HoldsStill(blocks: seq<Built>, now: seq<Built>, order: seq<nat>, at: nat, f: Forest, super: int)
    requires Holds(blocks, order, at, f, super) && |now| >= |blocks| && at + |PreorderAll(f)| <= |order|
    requires forall i :: at <= i < at + |PreorderAll(f)| && order[i] < |blocks| ==> now[order[i]] == blocks[order[i]]
    ensures Holds(now, order, at, f, super)
    decreases f
  {
    if f.Then? {
      var here := at + |PreorderAll(f.before)|;
      HoldsStill(blocks, now, order, at, f.before, super);
      HoldsStill(blocks, now, order, here + 1, f.last.kids, order[here]);
    }
  }

  /** Where the listed blocks that have no superblock get `b` for one. */
  predicate Adopts(blocks: seq<Built>, now: seq<Built>, order: seq<nat>, at: nat, count: nat, b: nat) {
    && |now| >= |blocks| && at + count <= |order|
    && forall i :: at <= i < at + count && order[i] < |blocks| ==>
        now[order[i]] == if blocks[order[i]].super == -1 then blocks[order[i]].(super := b) else blocks[order[i]]
  }

  lemma AdoptsPart(blocks: seq<Built>, now: seq<Built>, order: seq<nat>, at: nat, count: nat, b: nat, from: nat, some: nat)
    requires Adopts(blocks, now, order, at, count, b) && at <= from && from + some <= at + count
    ensures Adopts(blocks, now, order, from, some, b)
    ensures some == 1 && order[from] < |blocks| ==>
      now[order[from]] == if blocks[order[from]].super == -1 then blocks[order[from]].(super := b) else blocks[order[from]]
  {
  }

  /** Blocks that have superblocks keep them. */
  lemma InsideKept(blocks: seq<Built>, now: seq<Built>, order: seq<nat>, at: nat, f: Forest, super: nat, b: nat)
    requires Holds(blocks, order, at, f, super) && Adopts(blocks, now, order, at, |PreorderAll(f)|, b)
    ensures Holds(now, order, at, f, super)
  {
    forall i | at <= i < at + |PreorderAll(f)|
      ensures order[i] < |blocks| && blocks[order[i]].super >= 0
    {
      HoldsKnown(blocks, order, at, f, super, i);
    }
    hide Holds;
    HoldsStill(blocks, now, order, at, f, super);
  }

  /** Closing a scope makes its block the superblock of the outermost blocks inside and of no others. */
  lemma {:induction false} Adopted(blocks: seq<Built>, now: seq<Built>, order: seq<nat>, at: nat, f: Forest, b: nat)
    requires Holds(blocks, order, at, f, -1) && Adopts(blocks, now, order, at, |PreorderAll(f)|, b) && |now| >= |blocks|
    ensures Holds(now, order, at, f, b)
    decreases f
  {
    hide Adopts, Is;
    if f.Then? {
      var m, k := |PreorderAll(f.before)|, |PreorderAll(f.last.kids)|;
      var here, count := at + m, m + 1 + k;
      assert |PreorderAll(f)| == count;
      AdoptsPart(blocks, now, order, at, count, b, at, m);
      AdoptsPart(blocks, now, order, at, count, b, here, 1);
      AdoptsPart(blocks, now, order, at, count, b, here + 1, k);
      Adopted(blocks, now, order, at, f.before, b);
      InsideKept(blocks, now, order, here + 1, f.last.kids, order[here], b);
      assert Is(now[order[here]], f.last) by { IsStill(blocks[order[here]], f.last, b); }
    }
  }

  lemma IsStill(built: Built, n: Block, b: nat)
    requires Is(built, n)
    ensures Is(built.(super := b), n)
  {
  }

  lemma {:induction false} HoldsBoth(blocks: seq<Built>, order: seq<nat>, at: nat, f: Forest, g: Forest, super: int)
    requires Holds(blocks, order, at, f, super) && Holds(blocks, order, at + |PreorderAll(f)|, g, super)
    ensures Holds(blocks, order, at, Join(f, g), super) && |PreorderAll(Join(f, g))| == |PreorderAll(f)| + |PreorderAll(g)|
    decreases g
  {
    if g.Then? {
      HoldsBoth(blocks, order, at, f, g.before, super);
    }
  }

  // ----- the vector -----

  /** For the i-th block in preorder, where in the vector its containing block is; `base` is where the
      listing starts and `up` where the block containing all of it is. */
  function ParentOf(f: Forest, base: nat, up: int, i: nat): int
    requires i < |PreorderAll(f)|
    decreases f
  {
    var m := |PreorderAll(f.before)|;
    if i < m then ParentOf(f.before, base, up, i)
    else if i == m then up
    else ParentOf(f.last.kids, base + m + 1, base + m, i - m - 1)
  }

  /** The block at `at` in the vector is `b`, and its superblock is at `p`, or it has none if p < 0. */
  ghost predicate PlacedAt(blocks: seq<Built>, vector: seq<nat>, at: nat, b: Block, p: int) {
    && at < |vector| && vector[at] < |blocks| && p < |vector|
    && Is(blocks[vector[at]], b)
    && blocks[vector[at]].super == if p < 0 then -1 else vector[p]
  }

  /** The vector has the blocks in preorder, and the superblock of each is where its containing block
      is listed. */
  lemma {:induction false} VectorIsPreorder(blocks: seq<Built>, vector: seq<nat>, base: nat, f: Forest, super: int, up: int, i: nat)
    requires Holds(blocks, vector, base, f, super) && i < |PreorderAll(f)|
    requires if up < 0 then super == -1 else up < |vector| && vector[up] == super
    ensures PlacedAt(blocks, vector, base + i, PreorderAll(f)[i], ParentOf(f, base, up, i))
    decreases f
  {
    HoldsFits(blocks, vector, base, f, super);
    var m := |PreorderAll(f.before)|;
    if i < m {
      VectorIsPreorder(blocks, vector, base, f.before, super, up, i);
    } else if i > m {
      VectorIsPreorder(blocks, vector, base + m + 1, f.last.kids, vector[base + m], base + m, i - m - 1);
      assert base + m + 1 + (i - m - 1) == base + i;
    }
  }

  // ----- closing a scope -----

  /** `now` is `was` with `b` put in at place p. */
  predicate PutIn(was: seq<nat>, now: seq<nat>, p: nat, b: nat) {
    && p <= |was| && |now| == |was| + 1 && now[p] == b
    && (forall j :: 0 <= j < p ==> now[j] == was[j])
    && (forall j :: p < j < |now| ==> now[j] == was[j - 1])
  }

  /** `now` is `was` with one block more, adopting those listed from place p on. */
  predicate Grown(was: seq<Built>, now: seq<Built>, order: seq<nat>, p: nat, last: Built) {
    && |now| == |was| + 1 && now[|was|] == last
    && forall id :: 0 <= id < |was| ==>
        now[id] == if ListedFrom(order, p, id) && was[id].super == -1 then was[id].(super := |was|) else was[id]
  }

  predicate ListedFrom(order: seq<nat>, p: nat, id: nat) {
    exists j :: p <= j < |order| && order[j] == id
  }

  predicate Distinct(order: seq<nat>) {
    forall i, j :: 0 <= i < j < |order| ==> order[i] != order[j]
  }

  predicate OrderOk(order: seq<nat>, n: nat) {
    Distinct(order) && forall i :: 0 <= i < |order| ==> order[i] < n
  }

  lemma PutInMoves(order: seq<nat>, order': seq<nat>, p: nat, b: nat, at: nat, count: nat)
    requires PutIn(order, order', p, b)
    ensures p <= at && at + count <= |order| ==> Moved(order, at, order', at + 1, count)
    ensures at + count <= p ==> Moved(order, at, order', at, count)
  {
  }

  lemma GrownAdopts(was: seq<Built>, now: seq<Built>, order: seq<nat>, p: nat, last: Built)
    requires Grown(was, now, order, p, last) && p <= |order|
    ensures Adopts(was, now, order, p, |order| - p, |was|)
  {
    forall i | p <= i < |order| && order[i] < |was|
      ensures ListedFrom(order, p, order[i])
    {
    }
  }

  /** The block made for a scope, put where the scope's blocks begin, stands over just those. */
  lemma {:induction false} ScopeClosed(was: seq<Built>, now: seq<Built>, order: seq<nat>, order': seq<nat>, p: nat, f: Forest, b: Block)
    requires Holds(was, order, p, f, -1) && |order| == p + |PreorderAll(f)| && b.kids == f
    requires Grown(was, now, order, p, Built(b.name, b.syms, b.start, b.end, -1)) && PutIn(order, order', p, |was|)
    ensures Holds(now, order', p, Then(Empty, b), -1)
  {
    hide Holds, Moved, Adopts, PutIn, Grown, PreorderAll;
    GrownAdopts(was, now, order, p, Built(b.name, b.syms, b.start, b.end, -1));
    TopPlaced(was, now, order, order', p, Built(b.name, b.syms, b.start, b.end, -1));
    Adopted(was, now, order, p, f, |was|);
    PutInMoves(order, order', p, |was|, p, |PreorderAll(f)|);
    HoldsMoved(now, order, p, order', p + 1, f, |was|);
    AboveAll(now, order', p, f, b, |was|);
  }

  lemma TopPlaced(was: seq<Built>, now: seq<Built>, order: seq<nat>, order': seq<nat>, p: nat, last: Built)
    requires Grown(was, now, order, p, last) && PutIn(order, order', p, |was|)
    ensures p < |order'| && order'[p] == |was| < |now| && now[|was|] == last
  {
  }

  lemma AboveAll(now: seq<Built>, order: seq<nat>, p: nat, f: Forest, b: Block, id: nat)
    requires Holds(now, order, p + 1, f, id) && b.kids == f && p < |order| && order[p] == id < |now|
    requires now[id] == Built(b.name, b.syms, b.start, b.end, -1)
    ensures Holds(now, order, p, Then(Empty, b), -1)
  {
  }

  // ----- what the symbols of a file describe -----

  /** Where define_symbol puts a symbol: typedefs and statics go with the file, wherever they come. */
  datatype Kind = Local | Static | Global
  datatype Symbol = Symbol(name: string, kind: Kind)

  /** The names of one kind, in order. */
  function Of(kind: Kind, ss: seq<Symbol>): seq<string> {
    if ss == [] then []
    else Of(kind, ss[..|ss| - 1]) + (if ss[|ss| - 1].kind == kind then [ss[|ss| - 1].name] else [])
  }

  lemma {:induction false} OfBoth(kind: Kind, ss: seq<Symbol>, ts: seq<Symbol>)
    ensures Of(kind, ss + ts) == Of(kind, ss) + Of(kind, ts)
    decreases |ts|
  {
    if ts == [] {
      assert ss + ts == ss;
    } else {
      var n := |ts| - 1;
      assert (ss + ts)[..|ss + ts| - 1] == ss + ts[..n];
      OfBoth(kind, ss, ts[..n]);
    }
  }

  /** A pair of braces: the symbols before the opening one, the pairs inside, the symbols after those
      and before the closing one.  Addresses are relative to the file's start. */
  datatype Brace = Brace(ahead: seq<Symbol>, start: int, depth: int, inner: Braces, strays: seq<Symbol>, end: int)
  datatype Braces = NoBraces | AndThen(before: Braces, last: Brace)

  /** All the symbols in the order they come. */
  function SymbolsOf(bs: Braces): seq<Symbol> {
    match bs
    case NoBraces => []
    case AndThen(before, last) => SymbolsOf(before) + (last.ahead + SymbolsOf(last.inner) + last.strays)
  }

  /** Braces inside others make a block if any symbols come before them; otherwise the blocks inside
      them belong to the next braces out. */
  function NestedBlocks(bs: Braces, base: int): Forest {
    match bs
    case NoBraces => Empty
    case AndThen(before, last) => Join(NestedBlocks(before, base), OneNested(last, base))
  }

  function OneNested(b: Brace, base: int): Forest {
    var inside := NestedBlocks(b.inner, base);
    var locals := Of(Local, b.ahead);
    if locals == [] then inside
    else Then(Empty, Block("", locals, base + Least(b.start, b.end), base + b.end, inside))
  }

  /** A function; more symbols may follow its last brace. */
  datatype Func = Func(name: string, external: bool, start: int, body: Braces, after: seq<Symbol>)
  datatype Funcs = NoFuncs | AndFunc(before: Funcs, last: Func)

  function OwnSymbol(f: Func): Symbol {
    Symbol(f.name, if f.external then Global else Static)
  }

  function SymbolsOfAll(fs: Funcs): seq<Symbol> {
    match fs
    case NoFuncs => []
    case AndFunc(before, last) => SymbolsOfAll(before) + ([OwnSymbol(last)] + (SymbolsOf(last.body) + last.after))
  }

  /** The symbols before a function's outermost braces stay with the function's own block. */
  function OuterSyms(bs: Braces): seq<string> {
    match bs
    case NoBraces => []
    case AndThen(before, last) => OuterSyms(before) + Of(Local, last.ahead)
  }

  function OuterBlocks(bs: Braces, base: int): Forest {
    match bs
    case NoBraces => Empty
    case AndThen(before, last) => Join(OuterBlocks(before, base), NestedBlocks(last.inner, base))
  }

  function FuncBlock(f: Func, end: int, base: int): Block {
    Block(f.name, OuterSyms(f.body) + Of(Local, f.after), f.start, end, OuterBlocks(f.body, base))
  }

  /** A function ends where the next one starts, and the last one where the file does. */
  function FuncBlocks(fs: Funcs, end: int, base: int): Forest {
    match fs
    case NoFuncs => Empty
    case AndFunc(before, last) => Join(FuncBlocks(before, last.start, base), Then(Empty, FuncBlock(last, end, base)))
  }

  /** The block of global symbols, the block of the file's own symbols inside it, and the functions
      inside that.  Both gather theirs from the whole file, functions' insides too. */
  function FileBlock(before: seq<Symbol>, fs: Funcs, start: int, end: int): Block {
    var all := before + SymbolsOfAll(fs);
    Block("", Of(Global, all), start, end, Then(Empty, Block("", Of(Static, all), start, end, FuncBlocks(fs, end, start))))
  }

  /** What is listed so far for the file and for all files. */
  datatype Filed = Filed(files: Pending, globals: Pending)

  predicate Grew(was: Filed, now: Filed, ss: seq<Symbol>) {
    && Contents(now.files) == Contents(was.files) + Of(Static, ss)
    && Contents(now.globals) == Contents(was.globals) + Of(Global, ss)
  }

  lemma GrewNot(f: Filed)
    ensures Grew(f, f, [])
  {
  }

  lemma GrewThen(a: Filed, b: Filed, c: Filed, ss: seq<Symbol>, ts: seq<Symbol>)
    requires Grew(a, b, ss) && Grew(b, c, ts)
    ensures Grew(a, c, ss + ts)
  {
    OfBoth(Static, ss, ts);
    OfBoth(Global, ss, ts);
  }

  // ----- the scanner -----

  class PendingBlock {
    const block: nat
    var next: PendingBlock?

    constructor (block: nat)
      ensures this.block == block
    {
      this.block := block;
    }
  }

  /** The blocks of the cells. */
  ghost function Order(cells: seq<PendingBlock>): (r: seq<nat>)
    ensures |r| == |cells| && forall i :: 0 <= i < |cells| ==> r[i] == cells[i].block
  {
    seq(|cells|, i requires 0 <= i < |cells| => cells[i].block)
  }

  /** The cell with `p` cells from itself to the end of the list, null for 0. */
  ghost function Cell(cells: seq<PendingBlock>, p: nat): PendingBlock?
    requires p <= |cells|
  {
    if p == 0 then null else cells[p - 1]
  }

  ghost predicate LinkedAt(cells: seq<PendingBlock>, i: nat)
    requires i < |cells|
    reads cells[i]
  {
    cells[i].next == Cell(cells, i)
  }

  /** An open scope: what was pending when it opened. */
  datatype Context = Context(name: string, oldBlocks: PendingBlock?, start: int, depth: int, locals: Pending)

  class Scanner {
    var blocks: seq<Built>
    var pendingBlocks: PendingBlock?
    var localSymbols: Pending
    var fileSymbols: Pending
    var globalSymbols: Pending
    var context: seq<Context>
    var lastSourceStart: int
    ghost var cells: seq<PendingBlock>     // the cells of the list, the oldest first

    ghost predicate Linked()
      reads `cells, `pendingBlocks, cells
    {
      pendingBlocks == Cell(cells, |cells|) && forall i :: 0 <= i < |cells| ==> LinkedAt(cells, i)
    }

    ghost predicate BlocksOk()
      reads `cells, `blocks
    {
      OrderOk(Order(cells), |blocks|)
    }

    constructor (start: int)
      ensures Linked() && BlocksOk() && cells == [] && blocks == [] && context == [] && lastSourceStart == start
      ensures localSymbols == fileSymbols == globalSymbols == Nil
    {
      blocks, pendingBlocks, context, lastSourceStart, cells := [], null, [], start, [];
      localSymbols, fileSymbols, globalSymbols := Nil, Nil, Nil;
    }

    /** finish_block: a block of the listed symbols, over all blocks put on the list since `oldBlocks`
        headed it, and put on the list itself after them; `p` cells were on the list then. */
    method FinishBlock(name: string, listhead: Pending, oldBlocks: PendingBlock?, start: int, end: int, ghost p: nat)
        returns (ghost made: PendingBlock)
      requires Linked() && BlocksOk() && p <= |cells| && oldBlocks == Cell(cells, p)
      modifies `blocks, `pendingBlocks, `cells, cells
      ensures Linked() && BlocksOk() && PutIn(Order(old(cells)), Order(cells), p, |old(blocks)|)
      ensures Grown(old(blocks), blocks, Order(old(cells)), p, Built(name, Contents(listhead), start, end, -1))
      ensures fresh(made) && cells == old(cells)[..p] + [made] + old(cells)[p..]
    {
      hide Contents, Linked, PutIn, Grown, ListedFrom, Distinct;
      var syms := CopySymbols(listhead);
      ghost var b: nat := |blocks|;
      CellsDiffer();
      var opblock := AdoptSince(Built(name, syms, start, end, -1), oldBlocks, p);
      made := PutAfter(opblock, |blocks| - 1, p);
      CellsPutIn(old(cells), cells, p, made);
      StillDistinct(Order(old(cells)), Order(cells), p, b);
    }

    lemma CellsDiffer()
      requires BlocksOk()
      ensures forall i, j :: 0 <= i < j < |cells| ==> cells[i] != cells[j]
    {
      forall i, j | 0 <= i < j < |cells|
        ensures cells[i] != cells[j]
      {
        assert Order(cells)[i] != Order(cells)[j];
      }
    }

    /** The loop over the blocks made since; the last cell passed is returned. */
    method AdoptSince(made: Built, oldBlocks: PendingBlock?, ghost p: nat) returns (opblock: PendingBlock?)
      requires Linked() && BlocksOk() && p <= |cells| && oldBlocks == Cell(cells, p) && made.super == -1
      modifies `blocks
      ensures Grown(old(blocks), blocks, Order(cells), p, made) && |blocks| == |old(blocks)| + 1
      ensures opblock == if p == |cells| then null else cells[p]
    {
      ghost var order := Order(cells);
      ghost var was := blocks;
      var b := |blocks|;
      blocks := blocks + [made];
      opblock := null;
      var pblock := pendingBlocks;
      ghost var i := |cells|;
      assert Grown(was, blocks, order, i, made);
      hide Grown, Distinct;
      while pblock != oldBlocks
        invariant p <= i <= |cells| && pblock == Cell(cells, i) && opblock == (if i == |cells| then null else cells[i])
        invariant Grown(was, blocks, order, i, made) && |blocks| == b + 1
        decreases i
      {
        ghost var before, id := blocks, pblock.block;
        assert LinkedAt(cells, i - 1);
        assert id == order[i - 1] < b;
        if blocks[pblock.block].super == -1 {
          blocks := blocks[pblock.block := blocks[pblock.block].(super := b)];
        }
        opblock := pblock;
        pblock := pblock.next;
        OneMore(was, before, blocks, order, i - 1, made);
        i := i - 1;
      }
    }

    method PutAfter(opblock: PendingBlock?, b: nat, ghost p: nat) returns (ghost made: PendingBlock)
      requires Linked() && p <= |cells| && opblock == if p == |cells| then null else cells[p]
      requires forall i :: p < i < |cells| ==> cells[i] != cells[p]
      requires forall i :: 0 <= i < p && p < |cells| ==> cells[i] != cells[p]
      modifies `pendingBlocks, `cells, cells
      ensures Linked() && fresh(made) && made.block == b && cells == old(cells)[..p] + [made] + old(cells)[p..]
    {
      var link := new PendingBlock(b);
      if opblock != null {
        link.next := opblock.next;
        opblock.next := link;
      } else {
        link.next := pendingBlocks;
        pendingBlocks := link;
      }
      made := link;
      ghost var was := cells;
      cells := was[..p] + [made] + was[p..];
      forall i | 0 <= i < |cells|
        ensures LinkedAt(cells, i)
      {
        SplicedAt(was, cells, p, made, i);
        if i < p {
          assert old(LinkedAt(was, i));
        } else if i > p + 1 {
          assert old(LinkedAt(was, i - 1));
        } else if i == p + 1 {
          assert made == cells[i - 1];
        } else {
          assert p < |was| ==> old(LinkedAt(was, p));
        }
      }
    }

    // ----- the cases of process_one_symbol -----

    ghost predicate Ready()
      reads `cells, `pendingBlocks, `blocks, `localSymbols, `fileSymbols, `globalSymbols, cells
    {
      Linked() && BlocksOk() && Packed(localSymbols) && Packed(fileSymbols) && Packed(globalSymbols)
    }

    ghost function Kept(): Filed
      reads `fileSymbols, `globalSymbols
    {
      Filed(fileSymbols, globalSymbols)
    }

    /** The list from place p on is the forest `f`, no block above it yet. */
    ghost predicate Held(p: nat, f: Forest)
      reads `cells, `blocks
    {
      Holds(blocks, Order(cells), p, f, -1) && |cells| == p + |PreorderAll(f)|
    }

    /** define_symbol, as far as the list that it chooses. */
    method DefineSymbol(symbol: Symbol)
      requires Packed(localSymbols) && Packed(fileSymbols) && Packed(globalSymbols)
      modifies `localSymbols, `fileSymbols, `globalSymbols
      ensures Packed(localSymbols) && Packed(fileSymbols) && Packed(globalSymbols)
      ensures Contents(localSymbols) == Contents(old(localSymbols)) + Of(Local, [symbol]) && Grew(old(Kept()), Kept(), [symbol])
    {
      hide Contents, Packed;
      assert forall kind :: Of(kind, [symbol]) == if symbol.kind == kind then [symbol.name] else [] by {
        assert [symbol][..0] == [];
      }
      match symbol.kind {
        case Local => localSymbols := AddSymbolToList(symbol.name, localSymbols);
        case Static => fileSymbols := AddSymbolToList(symbol.name, fileSymbols);
        case Global => globalSymbols := AddSymbolToList(symbol.name, globalSymbols);
      }
    }

    method Define(symbols: seq<Symbol>)
      requires Packed(localSymbols) && Packed(fileSymbols) && Packed(globalSymbols)
      modifies `localSymbols, `fileSymbols, `globalSymbols
      ensures Packed(localSymbols) && Packed(fileSymbols) && Packed(globalSymbols)
      ensures Contents(localSymbols) == Contents(old(localSymbols)) + Of(Local, symbols) && Grew(old(Kept()), Kept(), symbols)
    {
      hide Contents, Packed, Grew;
      var i := 0;
      GrewNot(Kept());
      while i < |symbols|
        invariant 0 <= i <= |symbols| && Packed(localSymbols) && Packed(fileSymbols) && Packed(globalSymbols)
        invariant Contents(localSymbols) == Contents(old(localSymbols)) + Of(Local, symbols[..i])
        invariant Grew(old(Kept()), Kept(), symbols[..i])
      {
        ghost var was := Kept();
        DefineSymbol(symbols[i]);
        assert symbols[..i + 1] == symbols[..i] + [symbols[i]];
        OfBoth(Local, symbols[..i], [symbols[i]]);
        GrewThen(old(Kept()), was, Kept(), symbols[..i], [symbols[i]]);
        i := i + 1;
      }
      assert symbols[..|symbols|] == symbols;
    }

    /** N_LBRAC. */
    method OpenBrace(value: int, desc: int)
      modifies `context, `localSymbols
      ensures context == old(context) + [Context("", pendingBlocks, value, desc, old(localSymbols))] && localSymbols == Nil
    {
      context := context + [Context("", pendingBlocks, value, desc, localSymbols)];
      localSymbols := Nil;
    }

    /** N_RBRAC.  The symbols are those that were pending at the matching N_LBRAC; a block is made of
        them unless there are none or this is the outermost pair in its function. */
    method CloseBrace(value: int, desc: int, ghost p: nat, ghost f: Forest, ghost start: Mark) returns (ok: bool)
      requires context != [] && Ready() && Held(p, f) && p <= |cells| && context[|context| - 1].oldBlocks == Cell(cells, p)
      requires Packed(context[|context| - 1].locals) && Since(start, Mark(cells, blocks)) && |start.cells| <= p
      modifies `context, `localSymbols, `blocks, `pendingBlocks, `cells, cells
      ensures ok <==> desc == old(context)[|old(context)| - 1].depth
      ensures context == old(context)[..|old(context)| - 1]
      ensures ok ==> Ready() && Since(start, Mark(cells, blocks)) && (forall i :: 0 <= i < |cells| ==> cells[i] in old(cells) || fresh(cells[i]))
      ensures var top := old(context)[|old(context)| - 1];
        var syms := Contents(top.locals);
        ok ==> if syms != [] && |context| > 1
               then localSymbols == Nil
                    && Held(p, Then(Empty, Block("", syms, lastSourceStart + Least(top.start, value), lastSourceStart + value, f)))
               else localSymbols == top.locals && Held(p, f)
    {
      hide Since, Holds, PreorderAll, Linked, OrderOk, Grown, PutIn, Contents;
      var top := context[|context| - 1];
      context := context[..|context| - 1];
      if desc != top.depth {
        return false;
      }
      localSymbols := top.locals;
      PendingSome(top.locals);
      if localSymbols.Link? && |context| > 1 {
        ghost var b := Block("", Contents(top.locals), lastSourceStart + Least(top.start, value), lastSourceStart + value, f);
        FinishScope(b, "", top.locals, top.oldBlocks, (if top.start > value then value else top.start) + lastSourceStart,
                    value + lastSourceStart, p, start);
        localSymbols := Nil;
      }
      ok := true;
    }

    /** finish_block, for the scope that holds `b.kids`. */
    method FinishScope(ghost b: Block, name: string, listhead: Pending, oldBlocks: PendingBlock?, start: int, end: int, ghost p: nat, ghost mark: Mark)
      requires Ready() && Held(p, b.kids) && p <= |cells| && oldBlocks == Cell(cells, p)
      requires b.name == name && b.syms == Contents(listhead) && b.start == start && b.end == end
      requires Since(mark, Mark(cells, blocks)) && |mark.cells| <= p
      modifies `blocks, `pendingBlocks, `cells, cells
      ensures Ready() && Held(p, Then(Empty, b)) && Since(mark, Mark(cells, blocks))
      ensures forall i :: 0 <= i < |cells| ==> cells[i] in old(cells) || fresh(cells[i])
    {
      hide Since, Holds, PreorderAll, Linked, OrderOk, Grown, PutIn, Contents;
      ghost var was := Mark(cells, blocks);
      var made := FinishBlock(name, listhead, oldBlocks, start, end, p);
      Finished(mark, was, Mark(cells, blocks), p, made, b);
    }

    // ----- a file's scopes, in the order the symbols come -----

    /** The braces of a function other than the outermost. */
    method ReadNested(bs: Braces)
      requires Ready() && |context| >= 2 && localSymbols == Nil
      modifies `context, `localSymbols, `fileSymbols, `globalSymbols, `blocks, `pendingBlocks, `cells, cells
      ensures Ready() && context == old(context) && localSymbols == Nil
      ensures Since(Mark(old(cells), old(blocks)), Mark(cells, blocks)) && (forall i :: 0 <= i < |cells| ==> cells[i] in old(cells) || fresh(cells[i]))
      ensures Held(|old(cells)|, NestedBlocks(bs, lastSourceStart)) && Grew(old(Kept()), Kept(), SymbolsOf(bs))
      decreases bs
    {
      hide Since, Holds, PreorderAll, Linked, OrderOk, Contents, Grew, Of;
      ghost var start, kept := Mark(cells, blocks), Kept();
      SinceNow(start);
      GrewNot(kept);
      match bs {
        case NoBraces => NothingHeld(start);
        case AndThen(before, last) =>
          ReadNested(before);
          ghost var middle, keptSince := Mark(cells, blocks), Kept();
          ReadBrace(last);
          GrewThen(kept, keptSince, Kept(), SymbolsOf(before), last.ahead + SymbolsOf(last.inner) + last.strays);
          SinceThen(start, middle, Mark(cells, blocks));
          BothHeld(middle, Mark(cells, blocks), |start.cells|, NestedBlocks(before, lastSourceStart), OneNested(last, lastSourceStart));
      }
    }

    lemma HeadOfList()
      requires Linked()
      ensures pendingBlocks == Cell(cells, |cells|)
    {
    }

    method ReadBrace(b: Brace)
      requires Ready() && |context| >= 2 && localSymbols == Nil
      modifies `context, `localSymbols, `fileSymbols, `globalSymbols, `blocks, `pendingBlocks, `cells, cells
      ensures Ready() && context == old(context) && localSymbols == Nil
      ensures Since(Mark(old(cells), old(blocks)), Mark(cells, blocks)) && (forall i :: 0 <= i < |cells| ==> cells[i] in old(cells) || fresh(cells[i]))
      ensures Held(|old(cells)|, OneNested(b, lastSourceStart))
      ensures Grew(old(Kept()), Kept(), b.ahead + SymbolsOf(b.inner) + b.strays)
      decreases b
    {
      hide Since, Holds, PreorderAll, Linked, OrderOk, Contents, Grew, Of, Packed;
      ghost var start, kept := Mark(cells, blocks), Kept();
      NothingPending();
      Define(b.ahead);
      ghost var keptAhead := Kept();
      assert [] + Of(Local, b.ahead) == Of(Local, b.ahead);
      PendingSome(localSymbols);
      HeadOfList();
      OpenBrace(b.start, b.depth);
      ReadNested(b.inner);
      ghost var keptInside := Kept();
      SameCell(start, Mark(cells, blocks), |start.cells|);
      Define(b.strays);
      GrewThen(kept, keptAhead, keptInside, b.ahead, SymbolsOf(b.inner));
      GrewThen(kept, keptInside, Kept(), b.ahead + SymbolsOf(b.inner), b.strays);
      var ok := CloseBrace(b.end, b.depth, |start.cells|, NestedBlocks(b.inner, lastSourceStart), start);
    }

    /** A function's outermost braces. */
    method ReadOuter(bs: Braces)
      requires Ready() && |context| == 1
      modifies `context, `localSymbols, `fileSymbols, `globalSymbols, `blocks, `pendingBlocks, `cells, cells
      ensures Ready() && context == old(context) && Contents(localSymbols) == Contents(old(localSymbols)) + OuterSyms(bs)
      ensures Since(Mark(old(cells), old(blocks)), Mark(cells, blocks))
      ensures forall i :: 0 <= i < |cells| ==> cells[i] in old(cells) || fresh(cells[i])
      ensures Held(|old(cells)|, OuterBlocks(bs, lastSourceStart)) && Grew(old(Kept()), Kept(), SymbolsOf(bs))
      decreases bs
    {
      hide Since, Holds, PreorderAll, Linked, OrderOk, Contents, Grew, Of;
      ghost var start, kept := Mark(cells, blocks), Kept();
      SinceNow(start);
      GrewNot(kept);
      match bs {
        case NoBraces => NothingHeld(start);
        case AndThen(before, last) =>
          ReadOuter(before);
          ghost var middle, keptSince := Mark(cells, blocks), Kept();
          ReadOutermost(last);
          GrewThen(kept, keptSince, Kept(), SymbolsOf(before), last.ahead + SymbolsOf(last.inner) + last.strays);
          SinceThen(start, middle, Mark(cells, blocks));
          BothHeld(middle, Mark(cells, blocks), |start.cells|, OuterBlocks(before, lastSourceStart), NestedBlocks(last.inner, lastSourceStart));
      }
    }

    method ReadOutermost(b: Brace)
      requires Ready() && |context| == 1
      modifies `context, `localSymbols, `fileSymbols, `globalSymbols, `blocks, `pendingBlocks, `cells, cells
      ensures Ready() && context == old(context) && Contents(localSymbols) == Contents(old(localSymbols)) + Of(Local, b.ahead)
      ensures Grew(old(Kept()), Kept(), b.ahead + SymbolsOf(b.inner) + b.strays)
      ensures Since(Mark(old(cells), old(blocks)), Mark(cells, blocks))
      ensures forall i :: 0 <= i < |cells| ==> cells[i] in old(cells) || fresh(cells[i])
      ensures Held(|old(cells)|, NestedBlocks(b.inner, lastSourceStart))
    {
      hide Since, Holds, PreorderAll, Linked, OrderOk, Contents, Grew, Of, Packed;
      ghost var start, kept := Mark(cells, blocks), Kept();
      Define(b.ahead);
      ghost var keptAhead := Kept();
      HeadOfList();
      OpenBrace(b.start, b.depth);
      NothingPending();
      ReadNested(b.inner);
      ghost var keptInside := Kept();
      SameCell(start, Mark(cells, blocks), |start.cells|);
      Define(b.strays);
      GrewThen(kept, keptAhead, keptInside, b.ahead, SymbolsOf(b.inner));
      GrewThen(kept, keptInside, Kept(), b.ahead + SymbolsOf(b.inner), b.strays);
      var ok := CloseBrace(b.end, b.depth, |start.cells|, NestedBlocks(b.inner, lastSourceStart), start);
    }

    lemma NothingPending()
      ensures Packed(Nil) && Contents(Nil) == []
    {
    }

    /** Inside a function: `done` are the functions before it, which was all there was at `start`, and
        `b` is its block so far. */
    ghost predicate FunctionOpen(start: Mark, done: Forest, b: Block)
      reads `context, `cells, `blocks, `localSymbols
    {
      && |context| == 1 && context[0].name == b.name && context[0].start == b.start
      && |start.cells| <= |cells| && context[0].oldBlocks == Cell(cells, |start.cells|)
      && Since(start, Mark(cells, blocks)) && Contents(localSymbols) == b.syms
      && Holds(start.blocks, Order(start.cells), 0, done, -1) && |start.cells| == |PreorderAll(done)|
      && Held(|start.cells|, b.kids)
    }

    /** The end of a function, at the next N_FUN or the end of the file. */
    method CloseFunction(end: int, ghost start: Mark, ghost done: Forest, ghost b: Block)
      requires Ready() && FunctionOpen(start, done, b) && b.end == end
      modifies `context, `localSymbols, `blocks, `pendingBlocks, `cells, cells
      ensures Ready() && context == [] && localSymbols == Nil && Held(0, Join(done, Then(Empty, b)))
      ensures forall i :: 0 <= i < |cells| ==> cells[i] in old(cells) || fresh(cells[i])
    {
      hide Since, Holds, PreorderAll, Linked, OrderOk, Contents, Packed;
      var top := context[|context| - 1];
      context := context[..|context| - 1];
      FinishScope(b, top.name, localSymbols, top.oldBlocks, top.start, end, |start.cells|, start);
      localSymbols := Nil;
      NothingPending();
      BothHeld(start, Mark(cells, blocks), 0, done, Then(Empty, b));
    }

    /** N_FUN, for a function: the one before it ends, and it goes on its own list. */
    method StartFunction(name: string, external: bool, value: int, ghost start: Mark, ghost done: Forest, ghost b: Block) returns (ok: bool)
      requires Ready() && if context == [] then Held(0, done) else FunctionOpen(start, done, b) && b.end == value
      modifies `context, `localSymbols, `fileSymbols, `globalSymbols, `blocks, `pendingBlocks, `cells, cells
      ensures ok && Ready() && localSymbols == Nil && context == [Context(name, pendingBlocks, value, 0, Nil)]
      ensures Held(0, if old(context) == [] then done else Join(done, Then(Empty, b)))
      ensures ok ==> Grew(old(Kept()), Kept(), [Symbol(name, if external then Global else Static)])
      ensures forall i :: 0 <= i < |cells| ==> cells[i] in old(cells) || fresh(cells[i])
    {
      hide Since, Holds, PreorderAll, Linked, OrderOk, Contents, Grew, Of, Packed, FunctionOpen;
      if context != [] {
        CloseFunction(value, start, done, b);
      }
      if context != [] {
        return false;
      }
      DefineSymbol(Symbol(name, if external then Global else Static));
      context := context + [Context(name, pendingBlocks, value, 0, Nil)];
      localSymbols := Nil;
      NothingPending();
      ok := true;
    }

    method ReadFunctions(fs: Funcs, ghost end: int) returns (ghost start: Mark)
      requires Ready() && context == [] && cells == []
      modifies `context, `localSymbols, `fileSymbols, `globalSymbols, `blocks, `pendingBlocks, `cells, cells
      ensures Ready() && forall i :: 0 <= i < |cells| ==> cells[i] in old(cells) || fresh(cells[i])
      ensures match fs
              case NoFuncs => context == [] && Held(0, Empty)
              case AndFunc(before, last) =>
                |context| == 1 && FunctionOpen(start, FuncBlocks(before, last.start, lastSourceStart), FuncBlock(last, end, lastSourceStart))
      ensures Grew(old(Kept()), Kept(), SymbolsOfAll(fs))
      decreases fs
    {
      hide Since, Holds, PreorderAll, Linked, OrderOk, Contents, Grew, Of, Packed, FunctionOpen, Held;
      start := Mark([], []);
      ghost var kept := Kept();
      GrewNot(kept);
      match fs {
        case NoFuncs =>
          NoFunctionsYet();
        case AndFunc(before, last) =>
          var s := ReadFunctions(before, last.start);
          ghost var keptBefore := Kept();
          if before.NoFuncs? {
            var ok := StartFunction(last.name, last.external, last.start, s, Empty, Block("", [], 0, 0, Empty));
          } else {
            var ok := StartFunction(last.name, last.external, last.start, s, FuncBlocks(before.before, before.last.start, lastSourceStart),
                                    FuncBlock(before.last, last.start, lastSourceStart));
          }
          ghost var keptName := Kept();
          start := Mark(cells, blocks);
          ReadBody(last, end, FuncBlocks(before, last.start, lastSourceStart));
          GrewThen(keptBefore, keptName, Kept(), [OwnSymbol(last)], SymbolsOf(last.body) + last.after);
          GrewThen(kept, keptBefore, Kept(), SymbolsOfAll(before), [OwnSymbol(last)] + (SymbolsOf(last.body) + last.after));
      }
    }

    lemma NoFunctionsYet()
      requires cells == []
      ensures Held(0, Empty)
    {
    }

    method ReadBody(f: Func, ghost end: int, ghost done: Forest)
      requires Ready() && Held(0, done) && localSymbols == Nil && |context| == 1
      requires context[0].name == f.name && context[0].start == f.start && context[0].oldBlocks == pendingBlocks
      modifies `context, `localSymbols, `fileSymbols, `globalSymbols, `blocks, `pendingBlocks, `cells, cells
      ensures Ready() && forall i :: 0 <= i < |cells| ==> cells[i] in old(cells) || fresh(cells[i])
      ensures |context| == 1 && FunctionOpen(Mark(old(cells), old(blocks)), done, FuncBlock(f, end, lastSourceStart))
      ensures Grew(old(Kept()), Kept(), SymbolsOf(f.body) + f.after)
    {
      hide Since, Holds, PreorderAll, Linked, OrderOk, Contents, Grew, Of, Packed;
      ghost var start, kept := Mark(cells, blocks), Kept();
      HeadOfList();
      NothingPending();
      ReadOuter(f.body);
      ghost var keptInside := Kept();
      SameCell(start, Mark(cells, blocks), |start.cells|);
      Define(f.after);
      GrewThen(kept, keptInside, Kept(), SymbolsOf(f.body), f.after);
      assert [] + OuterSyms(f.body) == OuterSyms(f.body);
    }

    // ----- the end of a file -----

    /** make_blockvector: the list, from its head, goes into the vector from its end. */
    method MakeBlockvector() returns (vector: array<nat>)
      requires Linked()
      modifies `pendingBlocks, `cells
      ensures fresh(vector) && vector[..] == Order(old(cells)) && pendingBlocks == null && cells == []
    {
      var i := 0;
      var next := pendingBlocks;
      while next != null
        invariant 0 <= i <= |cells| && next == Cell(cells, |cells| - i)
        decreases |cells| - i
      {
        assert LinkedAt(cells, |cells| - i - 1);
        next := next.next;
        i := i + 1;
      }
      vector := new nat[i];
      next := pendingBlocks;
      while next != null
        invariant 0 <= i <= |cells| == vector.Length && next == Cell(cells, i)
        invariant forall j :: i <= j < |cells| ==> vector[j] == cells[j].block
        invariant Linked() && cells == old(cells)
        decreases i
      {
        assert LinkedAt(cells, i - 1);
        i := i - 1;
        vector[i] := next.block;
        next := next.next;
      }
      assert vector[..] == Order(cells);
      pendingBlocks := null;
      cells := [];
    }

    /** The blocks of a whole source file, from its symbols in order to its blockvector. */
    method ReadFile(before: seq<Symbol>, fs: Funcs, end: int) returns (vector: array<nat>)
      requires Linked() && BlocksOk() && context == [] && localSymbols == Nil && cells == [] && fileSymbols == globalSymbols == Nil
      modifies this
      ensures fresh(vector) && lastSourceStart == old(lastSourceStart)
      ensures var file := FileBlock(before, fs, lastSourceStart, end);
        Holds(blocks, vector[..], 0, Then(Empty, file), -1) && vector.Length == |Preorder(file)|
    {
      hide Since, Holds, PreorderAll, Linked, OrderOk, Contents, Packed, FunctionOpen, Held, Grew, Of;
      NothingPending();
      Define(before);
      ghost var kept := Kept();
      var start := ReadFunctions(fs, end);
      GrewThen(Filed(Nil, Nil), kept, Kept(), before, SymbolsOfAll(fs));
      GrewFromNil(Kept(), before + SymbolsOfAll(fs));
      EndFunctions(fs, end, start);
      vector := EndSymtab(before, fs, end);
    }

    lemma GrewFromNil(now: Filed, ss: seq<Symbol>)
      requires Grew(Filed(Nil, Nil), now, ss)
      ensures Contents(now.files) == Of(Static, ss) && Contents(now.globals) == Of(Global, ss)
    {
    }

    /** The function that the end of the file closes, if any. */
    method EndFunctions(ghost fs: Funcs, end: int, ghost start: Mark)
      requires Ready() && match fs
               case NoFuncs => context == [] && Held(0, Empty)
               case AndFunc(before, last) =>
                 |context| == 1 && FunctionOpen(start, FuncBlocks(before, last.start, lastSourceStart), FuncBlock(last, end, lastSourceStart))
      modifies `context, `localSymbols, `blocks, `pendingBlocks, `cells, cells
      ensures Ready() && context == [] && Held(0, FuncBlocks(fs, end, lastSourceStart))
      ensures forall i :: 0 <= i < |cells| ==> cells[i] in old(cells) || fresh(cells[i])
    {
      hide FunctionOpen, Held, Linked, OrderOk, Packed;
      if context != [] {
        CloseFunction(end, start, FuncBlocks(fs.before, fs.last.start, lastSourceStart), FuncBlock(fs.last, end, lastSourceStart));
      }
    }

    /** The rest of end_symtab: the file's block over all functions, and the global block over that. */
    method EndSymtab(ghost before: seq<Symbol>, ghost fs: Funcs, end: int) returns (vector: array<nat>)
      requires Ready() && Held(0, FuncBlocks(fs, end, lastSourceStart))
      requires Contents(fileSymbols) == Of(Static, before + SymbolsOfAll(fs)) && Contents(globalSymbols) == Of(Global, before + SymbolsOfAll(fs))
      modifies `fileSymbols, `globalSymbols, `blocks, `pendingBlocks, `cells, cells
      ensures fresh(vector) && fileSymbols == globalSymbols == Nil
      ensures var file := FileBlock(before, fs, lastSourceStart, end);
        Holds(blocks, vector[..], 0, Then(Empty, file), -1) && vector.Length == |Preorder(file)|
    {
      hide Since, Holds, PreorderAll, Linked, OrderOk, Contents, Packed, Of;
      ghost var nothing := Mark([], []);
      SinceNothing(Mark(cells, blocks));
      ghost var own := Block("", Contents(fileSymbols), lastSourceStart, end, FuncBlocks(fs, end, lastSourceStart));
      ghost var file := FileBlock(before, fs, lastSourceStart, end);
      NothingPending();
      FinishScope(own, "", fileSymbols, null, lastSourceStart, end, 0, nothing);
      fileSymbols := Nil;
      FinishScope(file, "", globalSymbols, null, lastSourceStart, end, 0, nothing);
      globalSymbols := Nil;
      OnlyOne(file);
      vector := MakeBlockvector();
    }
  }

  function Least(a: int, b: int): int { if a > b then b else a }

  lemma PendingSome(p: Pending)
    requires Packed(p)
    ensures p.Link? <==> Contents(p) != []
    ensures p.Nil? <==> p == Nil
  {
  }

  /** The list and the blocks at some moment. */
  datatype Mark = Mark(cells: seq<PendingBlock>, blocks: seq<Built>)

  /** Since then the list has only been added to, by blocks made since. */
  ghost predicate Since(was: Mark, now: Mark) {
    && |was.cells| <= |now.cells| && |was.blocks| <= |now.blocks|
    && (forall i :: 0 <= i < |was.cells| ==> now.cells[i] == was.cells[i])
    && (forall i :: 0 <= i < |was.blocks| ==> now.blocks[i] == was.blocks[i])
    && (forall i :: |was.cells| <= i < |now.cells| ==> now.cells[i].block >= |was.blocks|)
  }

  lemma SinceNow(m: Mark)
    ensures Since(m, m)
  {
  }

  lemma SinceNothing(m: Mark)
    ensures Since(Mark([], []), m)
  {
  }

  lemma OnlyOne(b: Block)
    ensures |PreorderAll(Then(Empty, b))| == |Preorder(b)|
  {
  }

  /** What a file's blockvector is: its blocks in preorder, each with its superblock where its
      containing block is listed, and with none only for the block of globals at 0. */
  lemma FileVector(blocks: seq<Built>, vector: seq<nat>, file: Block, i: nat)
    requires Holds(blocks, vector, 0, Then(Empty, file), -1) && i < |Preorder(file)|
    ensures PreorderAll(Then(Empty, file)) == Preorder(file)
    ensures PlacedAt(blocks, vector, i, Preorder(file)[i], ParentOf(Then(Empty, file), 0, -1, i))
  {
    assert PreorderAll(Then(Empty, file)) == Preorder(file);
    VectorIsPreorder(blocks, vector, 0, Then(Empty, file), -1, -1, i);
  }

  lemma SinceThen(a: Mark, b: Mark, c: Mark)
    requires Since(a, b) && Since(b, c)
    ensures Since(a, c)
  {
  }

  /** What was listed then is still listed as it was. */
  lemma SinceHolds(was: Mark, now: Mark, at: nat, f: Forest, super: int)
    requires Since(was, now) && Holds(was.blocks, Order(was.cells), at, f, super)
    ensures Holds(now.blocks, Order(now.cells), at, f, super)
  {
    HoldsFits(was.blocks, Order(was.cells), at, f, super);
    hide Holds, PreorderAll;
    HoldsStill(was.blocks, now.blocks, Order(was.cells), at, f, super);
    HoldsMoved(now.blocks, Order(was.cells), at, Order(now.cells), at, f, super);
  }

  lemma NothingHeld(m: Mark)
    ensures Holds(m.blocks, Order(m.cells), |m.cells|, Empty, -1) && |PreorderAll(Empty)| == 0
  {
  }

  /** A forest listed by then, and another listed after it. */
  lemma BothHeld(was: Mark, now: Mark, p: nat, f: Forest, g: Forest)
    requires Since(was, now) && Holds(was.blocks, Order(was.cells), p, f, -1) && |was.cells| == p + |PreorderAll(f)|
    requires Holds(now.blocks, Order(now.cells), |was.cells|, g, -1) && |now.cells| == |was.cells| + |PreorderAll(g)|
    ensures Holds(now.blocks, Order(now.cells), p, Join(f, g), -1) && |now.cells| == p + |PreorderAll(Join(f, g))|
  {
    hide Since, Holds, PreorderAll, Join;
    SinceHolds(was, now, p, f, -1);
    HoldsBoth(now.blocks, Order(now.cells), p, f, g, -1);
  }

  lemma SameCell(was: Mark, now: Mark, p: nat)
    requires Since(was, now) && p <= |was.cells|
    ensures p <= |now.cells| && Cell(now.cells, p) == Cell(was.cells, p)
  {
  }

  /** After finish_block at place p. */
  lemma Finished(mark: Mark, was: Mark, now: Mark, p: nat, made: PendingBlock, b: Block)
    requires Since(mark, was) && |mark.cells| <= p <= |was.cells|
    requires Holds(was.blocks, Order(was.cells), p, b.kids, -1) && |was.cells| == p + |PreorderAll(b.kids)|
    requires Grown(was.blocks, now.blocks, Order(was.cells), p, Built(b.name, b.syms, b.start, b.end, -1))
    requires PutIn(Order(was.cells), Order(now.cells), p, |was.blocks|) && now.cells == was.cells[..p] + [made] + was.cells[p..]
    ensures Since(mark, now)
    ensures Holds(now.blocks, Order(now.cells), p, Then(Empty, b), -1) && |now.cells| == p + |PreorderAll(Then(Empty, b))|
  {
    ScopeClosed(was.blocks, now.blocks, Order(was.cells), Order(now.cells), p, b.kids, b);
    FinishedSince(mark, was, now, p, made, Built(b.name, b.syms, b.start, b.end, -1));
  }

  lemma FinishedSince(mark: Mark, was: Mark, now: Mark, p: nat, made: PendingBlock, last: Built)
    requires Since(mark, was) && |mark.cells| <= p <= |was.cells|
    requires Grown(was.blocks, now.blocks, Order(was.cells), p, last)
    requires PutIn(Order(was.cells), Order(now.cells), p, |was.blocks|) && now.cells == was.cells[..p] + [made] + was.cells[p..]
    ensures Since(mark, now)
  {
    forall i | 0 <= i < |mark.blocks|
      ensures now.blocks[i] == mark.blocks[i]
    {
      assert !ListedFrom(Order(was.cells), p, i) by {
        forall j | p <= j < |was.cells|
          ensures Order(was.cells)[j] != i
        {
          assert was.cells[j].block >= |mark.blocks|;
        }
      }
    }
    hide Grown, ListedFrom;
    forall i | |mark.cells| <= i < |now.cells|
      ensures now.cells[i].block >= |mark.blocks|
    {
      assert Order(now.cells)[i] == now.cells[i].block;
    }
  }

  lemma SplicedAt(was: seq<PendingBlock>, now: seq<PendingBlock>, p: nat, made: PendingBlock, i: nat)
    requires p <= |was| && now == was[..p] + [made] + was[p..] && i < |now|
    ensures now[i] == if i < p then was[i] else if i == p then made else was[i - 1]
    ensures Cell(now, i) == if i <= p then Cell(was, i) else if i == p + 1 then made else Cell(was, i - 1)
  {
  }

  lemma StillDistinct(order: seq<nat>, now: seq<nat>, p: nat, b: nat)
    requires OrderOk(order, b) && PutIn(order, now, p, b)
    ensures OrderOk(now, b + 1)
  {
    forall i, j | 0 <= i < j < |now|
      ensures now[i] != now[j]
    {
      var i', j' := if i < p then i else i - 1, if j < p then j else j - 1;
      if i != p && j != p {
        assert order[i'] != order[j'];
      }
    }
  }

  lemma CellsPutIn(was: seq<PendingBlock>, now: seq<PendingBlock>, p: nat, made: PendingBlock)
    requires p <= |was| && now == was[..p] + [made] + was[p..]
    ensures PutIn(Order(was), Order(now), p, made.block)
  {
  }

  /** One step of the loop: the block listed at `i` is looked at. */
  lemma OneMore(was: seq<Built>, before: seq<Built>, now: seq<Built>, order: seq<nat>, i: nat, made: Built)
    requires i < |order| && order[i] < |was| && Grown(was, before, order, i + 1, made)
    requires now == if before[order[i]].super == -1 then before[order[i] := before[order[i]].(super := |was|)] else before
    ensures Grown(was, now, order, i, made)
  {
    forall id | 0 <= id < |was|
      ensures ListedFrom(order, i, id) <==> ListedFrom(order, i + 1, id) || order[i] == id
    {
      if ListedFrom(order, i, id) {
        var j :| i <= j < |order| && order[j] == id;
        assert j > i ==> ListedFrom(order, i + 1, id);
      }
      if ListedFrom(order, i + 1, id) {
        var j :| i + 1 <= j < |order| && order[j] == id;
      }
      if order[i] == id {
        assert ListedFrom(order, i, id);
      }
    }
  }

  // ----- searching what was built -----

  /** The blockvector as block_for_pc sees it. */
  function Vector(blocks: seq<Built>, vector: seq<nat>): (r: seq<Built>)
    requires forall i :: 0 <= i < |vector| ==> vector[i] < |blocks|
    ensures |r| == |vector| && forall i :: 0 <= i < |r| ==> r[i] == blocks[vector[i]]
  {
    seq(|vector|, i requires 0 <= i < |vector| => blocks[vector[i]])
  }

  lemma VectorLists(blocks: seq<Built>, vector: seq<nat>, file: Block)
    requires Holds(blocks, vector, 0, Then(Empty, file), -1) && |vector| == |Preorder(file)|
    ensures forall i :: 0 <= i < |vector| ==> vector[i] < |blocks|
    ensures Lists(Vector(blocks, vector), file)
  {
    hide Holds;
    forall i | 0 <= i < |vector|
      ensures vector[i] < |blocks| && Is(blocks[vector[i]], Preorder(file)[i])
    {
      FileVector(blocks, vector, file, i);
    }
  }

  /** Braces that lie between two addresses, one pair after another and inside those around them. */
  predicate BracesFit(lo: int, hi: int, bs: Braces, base: int)
    decreases bs
  {
    match bs
    case NoBraces => lo <= hi
    case AndThen(before, last) =>
      var start := base + Least(last.start, last.end);
      BracesFit(lo, start, before, base) && BracesFit(start, base + last.end, last.inner, base) && base + last.end <= hi
  }

  predicate FuncsFit(lo: int, hi: int, fs: Funcs, base: int)
    decreases fs
  {
    match fs
    case NoFuncs => lo <= hi
    case AndFunc(before, last) => FuncsFit(lo, last.start, before, base) && BracesFit(last.start, hi, last.body, base)
  }

  lemma {:induction false} Widened(lo: int, hi: int, f: Forest, lo': int, hi': int)
    requires NestedAll(lo, hi, f) && lo' <= lo && hi <= hi'
    ensures NestedAll(lo', hi', f)
    decreases f
  {
    if f.Then? {
      Widened(lo, f.last.start, f.before, lo', f.last.start);
    }
  }

  lemma {:induction false} NestedRange(lo: int, hi: int, f: Forest)
    requires NestedAll(lo, hi, f)
    ensures lo <= hi
    decreases f
  {
    if f.Then? {
      NestedRange(lo, f.last.start, f.before);
      NestedRange(f.last.start, f.last.end, f.last.kids);
    }
  }

  lemma {:induction false} JoinNested(lo: int, mid: int, hi: int, f: Forest, g: Forest)
    requires NestedAll(lo, mid, f) && NestedAll(mid, hi, g)
    ensures NestedAll(lo, hi, Join(f, g))
    decreases g
  {
    match g
    case Empty => Widened(lo, mid, f, lo, hi);
    case Then(before, last) => JoinNested(lo, mid, last.start, f, before);
  }

  lemma {:induction false} BracesNest(lo: int, hi: int, bs: Braces, base: int)
    requires BracesFit(lo, hi, bs, base)
    ensures NestedAll(lo, hi, NestedBlocks(bs, base))
    decreases bs
  {
    if bs.AndThen? {
      var last := bs.last;
      var start := base + Least(last.start, last.end);
      BracesNest(lo, start, bs.before, base);
      BracesNest(start, base + last.end, last.inner, base);
      var inside := NestedBlocks(last.inner, base);
      if Of(Local, last.ahead) == [] {
        Widened(start, base + last.end, inside, start, hi);
      } else {
        assert NestedAll(start, start, Empty);
      }
      JoinNested(lo, start, hi, NestedBlocks(bs.before, base), OneNested(last, base));
    }
  }

  lemma {:induction false} OuterNest(lo: int, hi: int, bs: Braces, base: int)
    requires BracesFit(lo, hi, bs, base)
    ensures NestedAll(lo, hi, OuterBlocks(bs, base))
    decreases bs
  {
    if bs.AndThen? {
      var last := bs.last;
      var start := base + Least(last.start, last.end);
      OuterNest(lo, start, bs.before, base);
      BracesNest(start, base + last.end, last.inner, base);
      Widened(start, base + last.end, NestedBlocks(last.inner, base), start, hi);
      JoinNested(lo, start, hi, OuterBlocks(bs.before, base), NestedBlocks(last.inner, base));
    }
  }

  lemma {:induction false} FuncsNest(lo: int, hi: int, fs: Funcs, base: int)
    requires FuncsFit(lo, hi, fs, base)
    ensures NestedAll(lo, hi, FuncBlocks(fs, hi, base)) && lo <= hi
    decreases fs
  {
    if fs.AndFunc? {
      FuncsNest(lo, fs.last.start, fs.before, base);
      OuterNest(fs.last.start, hi, fs.last.body, base);
      NestedRange(fs.last.start, hi, OuterBlocks(fs.last.body, base));
      JoinNested(lo, fs.last.start, hi, FuncBlocks(fs.before, fs.last.start, base), Then(Empty, FuncBlock(fs.last, hi, base)));
    }
  }

  /** A file whose functions and braces come in the order of their addresses has nested blocks. */
  lemma FileNests(before: seq<Symbol>, fs: Funcs, start: int, end: int)
    requires FuncsFit(start, end, fs, start)
    ensures Nested(FileBlock(before, fs, start, end))
  {
    FuncsNest(start, end, fs, start);
    var own := Block("", Of(Static, before + SymbolsOfAll(fs)), start, end, FuncBlocks(fs, end, start));
    assert NestedAll(start, end, Then(Empty, own)) by { assert NestedAll(start, start, Empty); }
  }

  /** From the symbols of a file to the block for an address: the innermost one, going by the source,
      or none if the file does not reach there. */
  method ReadAndFind(before: seq<Symbol>, fs: Funcs, start: int, end: int, pc: int)
      returns (b: Option<Built>)
    requires FuncsFit(start, end, fs, start)
    ensures var file := FileBlock(before, fs, start, end);
      && (b.Some? <==> start <= pc < end)
      && (b.Some? ==> Innermost(file, pc).Some? && Is(b.value, Innermost(file, pc).value))
  {
    var scanner := new Scanner(start);
    var vector := scanner.ReadFile(before, fs, end);
    ghost var file := FileBlock(before, fs, start, end);
    VectorLists(scanner.blocks, vector[..], file);
    FileNests(before, fs, start, end);
    hide Holds, Nested, Lists, Innermost;
    b := BlockForPc([Vector(scanner.blocks, vector[..])], pc, [file]);
  }
}
