/** What the blocks of a file are for, said of the symbols and braces themselves: which braces or
    function an address is in, and where each symbol is to be found. */
module Scopes {
  import opened Blocks
  import opened BlockBuilder
  import opened Wrappers

  // ----- the scope of an address -----

  datatype Scope = Scope(name: string, syms: seq<string>, start: int, end: int)

  function ScopeOf(b: Block): Scope {
    Scope(b.name, b.syms, b.start, b.end)
  }

  /** Those of the braces, and of the ones inside them, that hold `pc` and have symbols ahead of them:
      the last to open. */
  function BraceScope(bs: Braces, base: int, pc: int): Option<Scope> {
    match bs
    case NoBraces => None
    case AndThen(before, last) =>
      if base + last.start <= pc < base + last.end then
        var inside := BraceScope(last.inner, base, pc);
        if inside.Some? || Of(Local, last.ahead) == [] then inside
        else Some(Scope("", Of(Local, last.ahead), base + last.start, base + last.end))
      else BraceScope(before, base, pc)
  }

  /** The outermost braces of a function do not count. */
  function BodyScope(bs: Braces, base: int, pc: int): Option<Scope> {
    match bs
    case NoBraces => None
    case AndThen(before, last) =>
      if base + last.start <= pc < base + last.end then BraceScope(last.inner, base, pc) else BodyScope(before, base, pc)
  }

  /** The symbols that are in no braces but the outermost. */
  function Outside(bs: Braces): seq<Symbol> {
    match bs
    case NoBraces => []
    case AndThen(before, last) => Outside(before) + last.ahead
  }

  /** The function that `pc` is in is the last to start at or before it. */
  function FuncScope(fs: Funcs, end: int, base: int, pc: int): Option<Scope> {
    match fs
    case NoFuncs => None
    case AndFunc(before, f) =>
      if pc >= end then None
      else if pc < f.start then FuncScope(before, f.start, base, pc)
      else
        var inside := BodyScope(f.body, base, pc);
        if inside.Some? then inside else Some(Scope(f.name, Of(Local, Outside(f.body) + f.after), f.start, end))
  }

  function FileScope(before: seq<Symbol>, fs: Funcs, start: int, end: int, pc: int): Option<Scope> {
    if pc < start || end <= pc then None
    else
      var inside := FuncScope(fs, end, start, pc);
      if inside.Some? then inside else Some(Scope("", Of(Static, before + SymbolsOfAll(fs)), start, end))
  }

  ghost predicate Found(b: Option<Block>, s: Option<Scope>) {
    match b
    case None => s.None?
    case Some(block) => s == Some(ScopeOf(block))
  }

  lemma {:induction false} InnermostOfJoin(f: Forest, g: Forest, pc: int)
    ensures InnermostOf(Join(f, g), pc) == if InnermostOf(g, pc).Some? then InnermostOf(g, pc) else InnermostOf(f, pc)
    decreases g
  {
    if g.Then? {
      InnermostOfJoin(f, g.before, pc);
    }
  }

  lemma {:induction false} NoneOutside(lo: int, hi: int, f: Forest, pc: int)
    requires NestedAll(lo, hi, f) && !(lo <= pc < hi)
    ensures InnermostOf(f, pc) == None
    decreases f
  {
    if f.Then? {
      NestedRange(f.last.start, f.last.end, f.last.kids);
      NestedRange(lo, f.last.start, f.before);
      NoneOutside(lo, f.last.start, f.before, pc);
    }
  }

  lemma {:induction false} BraceScopeFound(lo: int, hi: int, bs: Braces, base: int, pc: int)
    requires BracesFit(lo, hi, bs, base)
    ensures Found(InnermostOf(NestedBlocks(bs, base), pc), BraceScope(bs, base, pc))
    decreases bs
  {
    if bs.AndThen? {
      var last := bs.last;
      var start := base + Least(last.start, last.end);
      InnermostOfJoin(NestedBlocks(bs.before, base), OneNested(last, base), pc);
      BraceScopeFound(lo, start, bs.before, base, pc);
      BraceScopeFound(start, base + last.end, last.inner, base, pc);
      BracesNest(lo, start, bs.before, base);
      BracesNest(start, base + last.end, last.inner, base);
      if start <= pc < base + last.end {
        NoneOutside(lo, start, NestedBlocks(bs.before, base), pc);
      } else {
        NoneOutside(start, base + last.end, NestedBlocks(last.inner, base), pc);
      }
      hide NestedBlocks, BracesFit;
      assert InnermostOf(OneNested(last, base), pc) ==
        if Of(Local, last.ahead) != [] && start <= pc < base + last.end && InnermostOf(NestedBlocks(last.inner, base), pc).None?
        then Some(Block("", Of(Local, last.ahead), start, base + last.end, NestedBlocks(last.inner, base)))
        else InnermostOf(NestedBlocks(last.inner, base), pc) by { assert InnermostOf(Empty, pc).None?; }
    }
  }

  lemma {:induction false} BodyScopeFound(lo: int, hi: int, bs: Braces, base: int, pc: int)
    requires BracesFit(lo, hi, bs, base)
    ensures Found(InnermostOf(OuterBlocks(bs, base), pc), BodyScope(bs, base, pc))
    decreases bs
  {
    if bs.AndThen? {
      var last := bs.last;
      var start := base + Least(last.start, last.end);
      InnermostOfJoin(OuterBlocks(bs.before, base), NestedBlocks(last.inner, base), pc);
      BodyScopeFound(lo, start, bs.before, base, pc);
      BraceScopeFound(start, base + last.end, last.inner, base, pc);
      OuterNest(lo, start, bs.before, base);
      BracesNest(start, base + last.end, last.inner, base);
      if start <= pc < base + last.end {
        NoneOutside(lo, start, OuterBlocks(bs.before, base), pc);
      } else {
        NoneOutside(start, base + last.end, NestedBlocks(last.inner, base), pc);
      }
    }
  }

  lemma {:induction false} OutsideSyms(bs: Braces)
    ensures OuterSyms(bs) == Of(Local, Outside(bs))
  {
    if bs.AndThen? {
      OutsideSyms(bs.before);
      OfBoth(Local, Outside(bs.before), bs.last.ahead);
    }
  }

  lemma {:induction false} FuncScopeFound(lo: int, end: int, fs: Funcs, base: int, pc: int)
    requires FuncsFit(lo, end, fs, base)
    ensures Found(InnermostOf(FuncBlocks(fs, end, base), pc), FuncScope(fs, end, base, pc))
    decreases fs
  {
    if fs.AndFunc? {
      var f, own := fs.last, FuncBlock(fs.last, end, base);
      InnermostOfJoin(FuncBlocks(fs.before, f.start, base), Then(Empty, own), pc);
      FuncScopeFound(lo, f.start, fs.before, base, pc);
      BodyScopeFound(f.start, end, f.body, base, pc);
      FuncsNest(lo, f.start, fs.before, base);
      if !(lo <= pc < f.start) {
        NoneOutside(lo, f.start, FuncBlocks(fs.before, f.start, base), pc);
      }
      OutsideSyms(f.body);
      OfBoth(Local, Outside(f.body), f.after);
      OuterNest(f.start, end, f.body, base);
      NestedRange(f.start, end, OuterBlocks(f.body, base));
      assert InnermostOf(Then(Empty, own), pc) == Innermost(own, pc) by { assert InnermostOf(Empty, pc).None?; }
    }
  }

  /** The innermost block of a file at an address is that of the innermost braces there that have
      symbols ahead of them, else of the function there, else of the file. */
  lemma FileScopeFound(before: seq<Symbol>, fs: Funcs, start: int, end: int, pc: int)
    requires FuncsFit(start, end, fs, start)
    ensures Found(Innermost(FileBlock(before, fs, start, end), pc), FileScope(before, fs, start, end, pc))
  {
    FuncScopeFound(start, end, fs, start, pc);
    var own := Block("", Of(Static, before + SymbolsOfAll(fs)), start, end, FuncBlocks(fs, end, start));
    assert InnermostOf(Then(Empty, own), pc) == Innermost(own, pc) by { assert InnermostOf(Empty, pc).None?; }
  }

  /** From the symbols of a file to the scope of an address. */
  method ReadAndLookUp(before: seq<Symbol>, fs: Funcs, start: int, end: int, pc: int) returns (s: Option<Scope>)
    requires FuncsFit(start, end, fs, start)
    ensures s == FileScope(before, fs, start, end, pc)
  {
    var b := ReadAndFind(before, fs, start, end, pc);
    FileScopeFound(before, fs, start, end, pc);
    hide FileScope, Innermost, FileBlock;
    s := if b.None? then None else Some(Scope(b.value.name, b.value.syms, b.value.start, b.value.end));
  }

  // ----- no symbol is lost but those that come after inner braces -----

  function Names(ss: seq<Symbol>): (r: seq<string>)
    ensures |r| == |ss|
  {
    seq(|ss|, i requires 0 <= i < |ss| => ss[i].name)
  }

  /** The symbols of all the blocks. */
  function SymsOf(f: Forest): seq<string> {
    match f
    case Empty => []
    case Then(before, last) => SymsOf(before) + (last.syms + SymsOf(last.kids))
  }

  /** The symbols that come after the braces inside a pair and before its end. */
  function Strays(bs: Braces): seq<Symbol> {
    match bs
    case NoBraces => []
    case AndThen(before, last) => Strays(before) + (Strays(last.inner) + last.strays)
  }

  function StraysOfAll(fs: Funcs): seq<Symbol> {
    match fs
    case NoFuncs => []
    case AndFunc(before, last) => StraysOfAll(before) + Strays(last.body)
  }

  lemma NamesBoth(ss: seq<Symbol>, ts: seq<Symbol>)
    ensures Names(ss + ts) == Names(ss) + Names(ts)
  {
  }

  lemma OfOne(kind: Kind, s: Symbol)
    ensures Of(kind, [s]) == if s.kind == kind then [s.name] else []
  {
    assert [s][..0] == [];
  }

  lemma {:induction false} OfEachKind(ss: seq<Symbol>)
    ensures multiset(Names(ss)) == multiset(Of(Local, ss)) + multiset(Of(Static, ss)) + multiset(Of(Global, ss))
  {
    hide Of;
    if ss == [] {
      OfNone();
    } else {
      var init, s := ss[..|ss| - 1], ss[|ss| - 1];
      assert ss == init + [s];
      NamesBoth(init, [s]);
      assert Names([s]) == [s.name];
      hide Names;
      OfEachKind(init);
      forall kind
        ensures Of(kind, ss) == Of(kind, init) + if s.kind == kind then [s.name] else []
      {
        OfBoth(kind, init, [s]);
        OfOne(kind, s);
      }
    }
  }

  lemma OfNone()
    ensures forall kind :: Of(kind, []) == []
  {
  }

  lemma {:induction false} SymsOfJoin(f: Forest, g: Forest)
    ensures SymsOf(Join(f, g)) == SymsOf(f) + SymsOf(g)
    decreases g
  {
    if g.Then? {
      SymsOfJoin(f, g.before);
      assert SymsOf(f) + SymsOf(g.before) + (g.last.syms + SymsOf(g.last.kids)) == SymsOf(f) + SymsOf(g);
    }
  }

  /** The local symbols that come with a pair of braces. */
  lemma LocalsOf(bs: Braces)
    requires bs.AndThen?
    ensures Of(Local, Strays(bs)) == Of(Local, Strays(bs.before)) + (Of(Local, Strays(bs.last.inner)) + Of(Local, bs.last.strays))
    ensures Of(Local, SymbolsOf(bs)) ==
      Of(Local, SymbolsOf(bs.before)) + (Of(Local, bs.last.ahead) + Of(Local, SymbolsOf(bs.last.inner)) + Of(Local, bs.last.strays))
  {
    hide Of;
    var last := bs.last;
    var inside := last.ahead + SymbolsOf(last.inner);
    OfBoth(Local, Strays(bs.before), Strays(last.inner) + last.strays);
    OfBoth(Local, Strays(last.inner), last.strays);
    OfBoth(Local, SymbolsOf(bs.before), inside + last.strays);
    OfBoth(Local, inside, last.strays);
    OfBoth(Local, last.ahead, SymbolsOf(last.inner));
  }

  /** Counts before the braces and in them make the count for both. */
  lemma Tally(b: seq<string>, b': seq<string>, own: seq<string>, s: seq<string>, s': seq<string>, late: seq<string>, l: seq<string>, l': seq<string>)
    requires multiset(b) + multiset(s) == multiset(l) && multiset(b') + multiset(s') == multiset(l')
    ensures multiset(b + (own + b')) + multiset(s + (s' + late)) == multiset(l + (own + l' + late))
  {
  }

  lemma {:induction false} BracesKeep(bs: Braces, base: int)
    ensures multiset(SymsOf(NestedBlocks(bs, base))) + multiset(Of(Local, Strays(bs))) == multiset(Of(Local, SymbolsOf(bs)))
    decreases bs
  {
    if bs.AndThen? {
      var before, last := bs.before, bs.last;
      BracesKeep(before, base);
      BracesKeep(last.inner, base);
      SymsOfJoin(NestedBlocks(before, base), OneNested(last, base));
      LocalsOf(bs);
      assert SymsOf(OneNested(last, base)) == Of(Local, last.ahead) + SymsOf(NestedBlocks(last.inner, base)) by {
        assert SymsOf(Empty) == [];
      }
      assert SymsOf(NestedBlocks(bs, base)) == SymsOf(NestedBlocks(before, base)) + SymsOf(OneNested(last, base));
      hide *;
      Tally(SymsOf(NestedBlocks(before, base)), SymsOf(NestedBlocks(last.inner, base)), Of(Local, last.ahead),
            Of(Local, Strays(before)), Of(Local, Strays(last.inner)), Of(Local, last.strays),
            Of(Local, SymbolsOf(before)), Of(Local, SymbolsOf(last.inner)));
    }
  }

  lemma {:induction false} BodyKeeps(bs: Braces, base: int)
    ensures multiset(OuterSyms(bs) + SymsOf(OuterBlocks(bs, base))) + multiset(Of(Local, Strays(bs))) == multiset(Of(Local, SymbolsOf(bs)))
    decreases bs
  {
    if bs.AndThen? {
      var before, last := bs.before, bs.last;
      BodyKeeps(before, base);
      BracesKeep(last.inner, base);
      SymsOfJoin(OuterBlocks(before, base), NestedBlocks(last.inner, base));
      LocalsOf(bs);
      assert OuterSyms(bs) == OuterSyms(before) + Of(Local, last.ahead);
      assert SymsOf(OuterBlocks(bs, base)) == SymsOf(OuterBlocks(before, base)) + SymsOf(NestedBlocks(last.inner, base));
      hide *;
      Tally(OuterSyms(before) + SymsOf(OuterBlocks(before, base)), SymsOf(NestedBlocks(last.inner, base)), Of(Local, last.ahead),
            Of(Local, Strays(before)), Of(Local, Strays(last.inner)), Of(Local, last.strays),
            Of(Local, SymbolsOf(before)), Of(Local, SymbolsOf(last.inner)));
    }
  }

  lemma LocalsOfAll(fs: Funcs)
    requires fs.AndFunc?
    ensures Of(Local, StraysOfAll(fs)) == Of(Local, StraysOfAll(fs.before)) + Of(Local, Strays(fs.last.body))
    ensures Of(Local, SymbolsOfAll(fs)) ==
      Of(Local, SymbolsOfAll(fs.before)) + (Of(Local, SymbolsOf(fs.last.body)) + Of(Local, fs.last.after))
  {
    hide *;
    LastOfAll(fs);
    OfBoth(Local, StraysOfAll(fs.before), Strays(fs.last.body));
    OfBoth(Local, SymbolsOfAll(fs.before), [OwnSymbol(fs.last)] + (SymbolsOf(fs.last.body) + fs.last.after));
    LocalsOfFunc(fs.last);
  }

  lemma LastOfAll(fs: Funcs)
    requires fs.AndFunc?
    ensures StraysOfAll(fs) == StraysOfAll(fs.before) + Strays(fs.last.body)
    ensures SymbolsOfAll(fs) == SymbolsOfAll(fs.before) + ([OwnSymbol(fs.last)] + (SymbolsOf(fs.last.body) + fs.last.after))
  {
  }

  lemma LocalsOfFunc(f: Func)
    ensures Of(Local, [OwnSymbol(f)] + (SymbolsOf(f.body) + f.after)) == Of(Local, SymbolsOf(f.body)) + Of(Local, f.after)
  {
    hide Of, SymbolsOf;
    OfOne(Local, OwnSymbol(f));
    OfBoth(Local, [OwnSymbol(f)], SymbolsOf(f.body) + f.after);
    OfBoth(Local, SymbolsOf(f.body), f.after);
    assert [] + (Of(Local, SymbolsOf(f.body)) + Of(Local, f.after)) == Of(Local, SymbolsOf(f.body)) + Of(Local, f.after);
  }

  lemma TallyOne(b: seq<string>, syms: seq<string>, late: seq<string>, inner: seq<string>, s: seq<string>, s': seq<string>, l: seq<string>, l': seq<string>)
    requires multiset(b) + multiset(s) == multiset(l) && multiset(syms + inner) + multiset(s') == multiset(l')
    ensures multiset(b + (syms + late + inner)) + multiset(s + s') == multiset(l + (l' + late))
  {
  }

  lemma FuncBlocksSyms(fs: Funcs, end: int, base: int)
    requires fs.AndFunc?
    ensures var f := fs.last;
      SymsOf(FuncBlocks(fs, end, base)) == SymsOf(FuncBlocks(fs.before, f.start, base))
        + (OuterSyms(f.body) + Of(Local, f.after) + SymsOf(OuterBlocks(f.body, base)))
  {
    hide Of, OuterSyms, OuterBlocks;
    var own := FuncBlock(fs.last, end, base);
    SymsOfJoin(FuncBlocks(fs.before, fs.last.start, base), Then(Empty, own));
    SymsOfOne(own);
    hide SymsOf;
  }

  lemma SymsOfOne(b: Block)
    ensures SymsOf(Then(Empty, b)) == b.syms + SymsOf(b.kids)
  {
    assert SymsOf(Empty) == [];
  }

  lemma {:induction false} FuncsKeep(fs: Funcs, end: int, base: int)
    ensures multiset(SymsOf(FuncBlocks(fs, end, base))) + multiset(Of(Local, StraysOfAll(fs))) == multiset(Of(Local, SymbolsOfAll(fs)))
    decreases fs
  {
    if fs.AndFunc? {
      var before, f := fs.before, fs.last;
      FuncsKeep(before, f.start, base);
      BodyKeeps(f.body, base);
      LocalsOfAll(fs);
      FuncBlocksSyms(fs, end, base);
      hide *;
      TallyOne(SymsOf(FuncBlocks(before, f.start, base)), OuterSyms(f.body), Of(Local, f.after), SymsOf(OuterBlocks(f.body, base)),
               Of(Local, StraysOfAll(before)), Of(Local, Strays(f.body)), Of(Local, SymbolsOfAll(before)), Of(Local, SymbolsOf(f.body)));
    }
  }

  lemma FileSyms(before: seq<Symbol>, fs: Funcs, start: int, end: int)
    ensures var all := before + SymbolsOfAll(fs);
      SymsOf(Then(Empty, FileBlock(before, fs, start, end))) == Of(Global, all) + (Of(Static, all) + SymsOf(FuncBlocks(fs, end, start)))
  {
    hide FuncBlocks, Of, SymbolsOfAll;
    var all := before + SymbolsOfAll(fs);
    var own := Block("", Of(Static, all), start, end, FuncBlocks(fs, end, start));
    assert SymsOf(Then(Empty, own)) == own.syms + SymsOf(own.kids) by { assert SymsOf(Empty) == []; }
  }

  /** Every symbol of a file is in exactly one block of it, save the locals that come before its first
      function and those that come between the last braces inside a pair and the end of that pair:
      they are in none. */
  lemma FileKeeps(before: seq<Symbol>, fs: Funcs, start: int, end: int)
    ensures multiset(SymsOf(Then(Empty, FileBlock(before, fs, start, end)))) + multiset(Of(Local, before + StraysOfAll(fs)))
         == multiset(Names(before + SymbolsOfAll(fs)))
  {
    hide *;
    FuncsKeep(fs, end, start);
    FileSyms(before, fs, start, end);
    OfEachKind(before + SymbolsOfAll(fs));
    OfBoth(Local, before, SymbolsOfAll(fs));
    OfBoth(Local, before, StraysOfAll(fs));
  }
}
