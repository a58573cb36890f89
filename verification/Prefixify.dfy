/** length_of_subexp, prefixify_subexp and prefixify_expression of expread: turning a vector from
    suffix to prefix form. */
module Prefixify {
  import opened Expression
  import opened Wrappers

  // ----- reading an operation from its end -----

  /** What the switch on the last opcode yields: elements taken by the operation itself, and the
      number of subexpressions before it.  `prior` is the element before the last; None where the
      elements read are not of the expected kind. */
  function Switch(last: Elem, prior: Option<Elem>): (r: Option<(int, int)>)
    ensures r.Some? ==> r.value.0 >= 1
  {
    if !last.Op? then None
    else
      var op := last.op;
      if op == OP_SCOPE then WithString(prior, 4, 0)
      else if op == OP_LONG || op == OP_DOUBLE then Some((4, 0))
      else if op == OP_VAR_VALUE || op == OP_LAST || op == OP_REGISTER || op == OP_INTERNALVAR then Some((3, 0))
      else if op == OP_FUNCALL then (if prior.Some? && prior.value.Num? then Some((3, 1 + prior.value.n)) else None)
      else if op == UNOP_CAST || op == UNOP_MEMVAL then Some((3, 1))
      else if op == STRUCTOP_STRUCT || op == STRUCTOP_PTR then WithString(prior, 3, 1)
      else if op == OP_STRING then WithString(prior, 3, 0)
      else if op == TERNOP_COND then Some((1, 3))
      else if op == BINOP_ASSIGN_MODIFY then Some((3, 2))
      else if op == OP_THIS then Some((2, 0))
      else Some((1, 1 + if op < BINOP_END then 1 else 0))
  }

  /** The operation carries a string, whose length is the element before the closing opcode. */
  function WithString(prior: Option<Elem>, base: nat, args: nat): (r: Option<(int, int)>)
    requires base >= 1
    ensures r.Some? ==> r.value.0 >= 1
  {
    if prior.Some? && prior.value.Num? && prior.value.n >= 0
    then Some((base + (prior.value.n + ELEM_SIZE) / ELEM_SIZE, args))
    else None
  }

  function Prior(v: seq<Elem>, end: nat): Option<Elem>
    requires end <= |v|
  {
    if end >= 2 then Some(v[end - 2]) else None
  }

  function Shape(v: seq<Elem>, end: nat): (r: Option<(int, int)>)
    requires end <= |v|
    ensures r.Some? ==> r.value.0 >= 1
  {
    if end == 0 then None else Switch(v[end - 1], Prior(v, end))
  }

  /** Number of elements in the subexpression that ends just before `end`. */
  function LengthOfSubexp(v: seq<Elem>, end: nat): Option<nat>
    requires end <= |v|
    decreases end, 1, 0
  {
    match Shape(v, end)
    case None => None
    case Some((oplen, args)) => AddArguments(v, end, oplen, args)
  }

  /** The while loop: extend `oplen` leftwards over `args` subexpressions. */
  function AddArguments(v: seq<Elem>, end: nat, oplen: nat, args: int): Option<nat>
    requires end <= |v| && oplen >= 1
    decreases end, 0, args
  {
    if args <= 0 then Some(oplen)
    else if oplen > end then None
    else
      match LengthOfSubexp(v, end - oplen)
      case None => None
      case Some(len) => AddArguments(v, end, oplen + len, args - 1)
  }

  lemma {:induction false} SameLength(t: Tree)
    ensures |Prefix(t)| == |Suffix(t)|
    decreases t, 1
  {
    SameLengths(t, Args(t));
  }

  lemma {:induction false} SameLengths(parent: Tree, ts: seq<Tree>)
    requires forall i :: 0 <= i < |ts| ==> ts[i] < parent
    ensures |PrefixAll(parent, ts)| == |SuffixAll(parent, ts)|
    decreases parent, 0, |ts|
  {
    if ts != [] {
      SameLengths(parent, ts[..|ts| - 1]);
      SameLength(ts[|ts| - 1]);
    }
  }

  lemma StringMeasured(before: seq<Elem>, s: string, op: Opcode, prior: Option<Elem>, args: nat)
    requires before != []
    requires var h := before + Chunks(s) + [Num(|s|), Op(op)]; prior == Some(h[|h| - 2])
    ensures WithString(prior, |before| + 2, args) == Some((|before + Chunks(s) + [Num(|s|), Op(op)]|, args))
  {
    hide Chunks;
    var h := before + Chunks(s) + [Num(|s|), Op(op)];
    assert h[|h| - 2] == Num(|s|);
  }

  /** The switch recognises every operation from its last elements, strings and counts included. */
  lemma SwitchOnHead(t: Tree, prior: Option<Elem>)
    requires HeadOk(t)
    requires |Head(t)| >= 2 ==> prior == Some(Head(t)[|Head(t)| - 2])
    ensures Switch(Head(t)[|Head(t)| - 1], prior) == Some((|Head(t)|, |Args(t)|))
  {
    hide Chunks, WithString;
    match t {
      case StrLit(s) => StringMeasured([Op(OP_STRING)], s, OP_STRING, prior, 0);
      case Scope(ty, s) => StringMeasured([Op(OP_SCOPE), Ty(ty)], s, OP_SCOPE, prior, 0);
      case Field(op, s, _) => StringMeasured([Op(op)], s, op, prior, 1);
      case _ =>
    }
  }

  lemma ShapeOfHead(v: seq<Elem>, end: nat, t: Tree)
    requires HeadOk(t) && EndsAt(v, end, Head(t))
    ensures Shape(v, end) == Some((|Head(t)|, |Args(t)|))
  {
    hide Head, Args, HeadOk, Switch;
    var h := Head(t);
    SliceAt(v, end - |h|, end, |h| - 1);
    if |h| >= 2 {
      SliceAt(v, end - |h|, end, |h| - 2);
    }
    SwitchOnHead(t, Prior(v, end));
  }

  /** length_of_subexp is exact: in any left and right context it measures just the subtree. */
  lemma {:induction false} LengthExact(v: seq<Elem>, end: nat, t: Tree)
    requires WellFormed(t) && EndsAt(v, end, Suffix(t))
    ensures LengthOfSubexp(v, end) == Some(|Suffix(t)|)
    decreases t, 1
  {
    hide Head, Args, HeadOk, SuffixAll, Shape;
    EndsAtSplit(v, end, SuffixAll(t, Args(t)), Head(t));
    ShapeOfHead(v, end, t);
    ArgumentsExact(v, end, |Head(t)|, t, Args(t));
  }

  lemma {:induction false} ArgumentsExact(v: seq<Elem>, end: nat, oplen: nat, parent: Tree, ts: seq<Tree>)
    requires forall i :: 0 <= i < |ts| ==> ts[i] < parent && WellFormed(ts[i])
    requires end <= |v| && 1 <= oplen <= end && EndsAt(v, end - oplen, SuffixAll(parent, ts))
    ensures AddArguments(v, end, oplen, |ts|) == Some(oplen + |SuffixAll(parent, ts)|)
    decreases parent, 0, |ts|
  {
    hide Suffix, LengthOfSubexp, WellFormed;
    if ts != [] {
      var before, last := ts[..|ts| - 1], ts[|ts| - 1];
      EndsAtSplit(v, end - oplen, SuffixAll(parent, before), Suffix(last));
      LengthExact(v, end - oplen, last);
      ArgumentsExact(v, end, oplen + |Suffix(last)|, parent, before);
    }
  }

  /** The whole vector is measured from its end. */
  lemma SuffixMeasuresItself(t: Tree)
    requires WellFormed(t)
    ensures LengthOfSubexp(Suffix(t), |Suffix(t)|) == Some(|Suffix(t)|)
  {
    assert Suffix(t)[0..] == Suffix(t);
    LengthExact(Suffix(t), |Suffix(t)|, t);
  }

  // ----- one tree to a vector -----

  lemma ChunksTell(s: string, u: string)
    requires NulFree(s) && NulFree(u) && Chunks(s) == Chunks(u)
    ensures s == u
  {
    hide Chunks;
    var v := Chunks(s);
    assert v[0..0 + |v|] == v;
    CStringOfChunks(v, 0, s);
    CStringOfChunks(v, 0, u);
  }

  lemma StringHeadsTell(before: seq<Elem>, s: string, u: string, after: seq<Elem>, last: seq<Elem>)
    requires NulFree(s) && NulFree(u) && |after| == |last| && before + Chunks(s) + after == before + Chunks(u) + last
    ensures s == u
  {
    hide Chunks;
    var h, k, n := before + Chunks(s) + after, before + Chunks(u) + last, |before|;
    assert h[n..|h| - |after|] == Chunks(s) && k[n..|k| - |last|] == Chunks(u);
    ChunksTell(s, u);
  }

  /** An operation's own elements and its subexpressions are all there is to it. */
  lemma HeadTells(t: Tree, u: Tree)
    requires HeadOk(t) && HeadOk(u) && Head(t) == Head(u) && Args(t) == Args(u)
    ensures t == u
  {
    hide Chunks;
    var h, k, ps, qs := Head(t), Head(u), Args(t), Args(u);
    assert h[|h| - 1] == k[|k| - 1];
    assert |h| > 1 ==> h[1] == k[1] && (|h| > 2 ==> h[2] == k[2]);
    assert |ps| > 0 ==> ps[0] == qs[0] && ps[1..] == qs[1..];
    assert |ps| > 1 ==> ps[1] == qs[1] && (|ps| > 2 ==> ps[2] == qs[2]);
    match t {
      case StrLit(s) => StringHeadsTell([Op(OP_STRING)], s, u.s, [Num(|s|), Op(OP_STRING)], [Num(|u.s|), Op(OP_STRING)]);
      case Scope(ty, s) =>
        StringHeadsTell([Op(OP_SCOPE), Ty(ty)], s, u.s, [Num(|s|), Op(OP_SCOPE)], [Num(|u.s|), Op(OP_SCOPE)]);
      case Field(op, s, _) => StringHeadsTell([Op(op)], s, u.s, [Num(|s|), Op(op)], [Num(|u.s|), Op(op)]);
      case _ =>
    }
  }

  /** Suffix vectors are uniquely readable from the right: what ends at a place is one tree's. */
  lemma {:induction false} SuffixTells(v: seq<Elem>, end: nat, t: Tree, u: Tree)
    requires WellFormed(t) && WellFormed(u) && EndsAt(v, end, Suffix(t)) && EndsAt(v, end, Suffix(u))
    ensures t == u
    decreases t, 1
  {
    hide Head, Args, HeadOk, SuffixAll, Shape;
    EndsAtSplit(v, end, SuffixAll(t, Args(t)), Head(t));
    EndsAtSplit(v, end, SuffixAll(u, Args(u)), Head(u));
    ShapeOfHead(v, end, t);
    ShapeOfHead(v, end, u);
    SuffixAllTells(v, end - |Head(t)|, t, Args(t), u, Args(u));
    HeadTells(t, u);
  }

  lemma {:induction false} SuffixAllTells(v: seq<Elem>, end: nat, t: Tree, ts: seq<Tree>, u: Tree, us: seq<Tree>)
    requires forall i :: 0 <= i < |ts| ==> ts[i] < t && WellFormed(ts[i])
    requires forall i :: 0 <= i < |us| ==> us[i] < u && WellFormed(us[i])
    requires |ts| == |us| && EndsAt(v, end, SuffixAll(t, ts)) && EndsAt(v, end, SuffixAll(u, us))
    ensures ts == us
    decreases t, 0, |ts|
  {
    hide Suffix, WellFormed;
    if ts != [] {
      var n := |ts| - 1;
      EndsAtSplit(v, end, SuffixAll(t, ts[..n]), Suffix(ts[n]));
      EndsAtSplit(v, end, SuffixAll(u, us[..n]), Suffix(us[n]));
      SuffixTells(v, end, ts[n], us[n]);
      SuffixAllTells(v, end - |Suffix(ts[n])|, t, ts[..n], u, us[..n]);
      assert ts == ts[..n] + [ts[n]] && us == us[..n] + [us[n]];
    }
  }

  lemma OneTreePerVector(t: Tree, u: Tree)
    requires WellFormed(t) && WellFormed(u) && Suffix(t) == Suffix(u)
    ensures t == u
  {
    hide Suffix, WellFormed;
    var v := Suffix(t);
    assert v[0..|v|] == v;
    SuffixTells(v, |v|, t, u);
  }

  // ----- prefixify -----

  /** The first n arguments start where all do. */
  lemma {:induction false} ArgumentsStart(v: seq<Elem>, base: nat, parent: Tree, ts: seq<Tree>, n: nat)
    requires forall j :: 0 <= j < |ts| ==> ts[j] < parent
    requires At(v, base, SuffixAll(parent, ts)) && n <= |ts|
    ensures At(v, base, SuffixAll(parent, ts[..n]))
    decreases |ts| - n
  {
    hide Suffix, SuffixAll, At;
    if n == |ts| {
      assert ts[..n] == ts;
    } else {
      ArgumentsStart(v, base, parent, ts, n + 1);
      SuffixAllStep(parent, ts, n);
      AtSplit(v, base, SuffixAll(parent, ts[..n]), Suffix(ts[n]));
    }
  }

  lemma ArgumentEnds(v: seq<Elem>, base: nat, parent: Tree, ts: seq<Tree>, i: nat)
    requires forall j :: 0 <= j < |ts| ==> ts[j] < parent
    requires At(v, base, SuffixAll(parent, ts)) && i < |ts|
    ensures EndsAt(v, base + |SuffixAll(parent, ts[..i + 1])|, Suffix(ts[i]))
    ensures |SuffixAll(parent, ts[..i + 1])| == |SuffixAll(parent, ts[..i])| + |Suffix(ts[i])|
  {
    hide Suffix, SuffixAll;
    ArgumentsStart(v, base, parent, ts, i + 1);
    SuffixAllStep(parent, ts, i);
    AtSplit(v, base, SuffixAll(parent, ts[..i]), Suffix(ts[i]));
  }

  /** `was` with `part` written over it from index `at`. */
  function Splice<T>(was: seq<T>, at: nat, part: seq<T>): (r: seq<T>)
    requires at + |part| <= |was|
    ensures |r| == |was|
  {
    was[..at] + part + was[at + |part|..]
  }

  lemma SpliceTwice<T>(was: seq<T>, at: nat, x: seq<T>, y: seq<T>)
    requires at + |x| + |y| <= |was|
    ensures Splice(Splice(was, at, x), at + |x|, y) == Splice(was, at, x + y)
  {
  }

  lemma SpliceNothing<T>(was: seq<T>, at: nat)
    requires at <= |was|
    ensures Splice(was, at, []) == was
  {
  }

  method CopyElements(from: seq<Elem>, inbeg: nat, to: array<Elem>, outbeg: nat, count: nat)
    requires inbeg + count <= |from| && outbeg + count <= to.Length
    modifies to
    ensures to[..] == Splice(old(to[..]), outbeg, from[inbeg..inbeg + count])
  {
    ghost var was := to[..];
    for k := 0 to count
      invariant forall i :: 0 <= i < to.Length ==> to[i] == if outbeg <= i < outbeg + k then from[inbeg + i - outbeg] else was[i]
    {
      to[outbeg + k] := from[inbeg + k];
    }
    SpliceIs(was, outbeg, from[inbeg..inbeg + count], to[..]);
  }

  lemma SpliceIs<T>(was: seq<T>, at: nat, part: seq<T>, now: seq<T>)
    requires at + |part| <= |was| == |now|
    requires forall i :: 0 <= i < |now| ==> now[i] == if at <= i < at + |part| then part[i - at] else was[i]
    ensures now == Splice(was, at, part)
  {
  }

  /** Find the lengths of the argument subexpressions that end at `inend`, last one first. */
  method MeasureArguments(inexpr: seq<Elem>, inend: nat, n: nat, ghost t: Tree) returns (arglens: seq<nat>, start: nat)
    requires WellFormed(t) && n == |Args(t)| && EndsAt(inexpr, inend, SuffixAll(t, Args(t)))
    ensures |arglens| == n && forall i :: 0 <= i < n ==> arglens[i] == |Suffix(Args(t)[i])|
    ensures start == inend - |SuffixAll(t, Args(t))|
  {
    hide Suffix, LengthOfSubexp, HeadOk, Args;
    ghost var args := Args(t);
    var lens := new nat[n];
    start := inend;
    var i := n;
    assert args[..n] == args;
    while i > 0
      invariant 0 <= i <= n && start <= |inexpr|
      invariant EndsAt(inexpr, start, SuffixAll(t, args[..i]))
      invariant start - |SuffixAll(t, args[..i])| == inend - |SuffixAll(t, args)|
      invariant forall k :: i <= k < n ==> lens[k] == |Suffix(args[k])|
    {
      i := i - 1;
      assert args[..i + 1][..i] == args[..i];
      EndsAtSplit(inexpr, start, SuffixAll(t, args[..i]), Suffix(args[i]));
      LengthExact(inexpr, start, args[i]);
      var len := LengthOfSubexp(inexpr, start);
      lens[i] := len.value;
      start := start - len.value;
    }
    arglens := lens[..];
  }

  /** Convert the subexpression ending just before `inend` of `inexpr`, writing from `outbeg`.
      Only its own segment of `outexpr` is written. */
  method PrefixifySubexp(inexpr: seq<Elem>, outexpr: array<Elem>, inend: nat, outbeg: nat, ghost t: Tree)
    requires WellFormed(t) && EndsAt(inexpr, inend, Suffix(t))
    requires outbeg + |Prefix(t)| <= outexpr.Length
    modifies outexpr
    ensures outexpr[..] == Splice(old(outexpr[..]), outbeg, Prefix(t))
    decreases t, 1
  {
    hide Head, Args, HeadOk, SuffixAll, PrefixAll, Shape, Splice;
    EndsAtSplit(inexpr, inend, SuffixAll(t, Args(t)), Head(t));
    ShapeOfHead(inexpr, inend, t);
    var shape := Shape(inexpr, inend);
    var oplen, n := shape.value.0, shape.value.1;
    assert inexpr[inend - oplen..inend - oplen + oplen] == Head(t);
    assert |Prefix(t)| == oplen + |PrefixAll(t, Args(t))|;
    hide WellFormed, EndsAt;
    CopyElements(inexpr, inend - oplen, outexpr, outbeg, oplen);
    var arglens, start := MeasureArguments(inexpr, inend - oplen, n, t);
    PrefixifyArguments(inexpr, outexpr, start, outbeg + oplen, arglens, t);
    SpliceTwice(old(outexpr[..]), outbeg, Head(t), PrefixAll(t, Args(t)));
  }

  /** The bookkeeping of one turn of the loop below. */
  lemma ArgumentStep(v: seq<Elem>, start: nat, parent: Tree, ts: seq<Tree>, i: nat)
    requires forall j :: 0 <= j < |ts| ==> ts[j] < parent
    requires At(v, start, SuffixAll(parent, ts)) && i < |ts|
    ensures EndsAt(v, start + |SuffixAll(parent, ts[..i])| + |Suffix(ts[i])|, Suffix(ts[i]))
    ensures |SuffixAll(parent, ts[..i + 1])| == |SuffixAll(parent, ts[..i])| + |Suffix(ts[i])| <= |SuffixAll(parent, ts)|
    ensures PrefixAll(parent, ts[..i + 1]) == PrefixAll(parent, ts[..i]) + Prefix(ts[i])
    ensures |Prefix(ts[i])| == |Suffix(ts[i])| && |PrefixAll(parent, ts[..i + 1])| <= |PrefixAll(parent, ts)|
  {
    hide Suffix, Prefix;
    ArgumentEnds(v, start, parent, ts, i);
    SuffixAllGrows(parent, ts, i + 1);
    SameLength(ts[i]);
    SameLengths(parent, ts);
    SameLengths(parent, ts[..i + 1]);
    assert ts[..i + 1][..i] == ts[..i];
  }

  /** Copy each argument in order, converting it on the way. */
  method PrefixifyArguments(inexpr: seq<Elem>, outexpr: array<Elem>, start: nat, outbeg: nat, arglens: seq<nat>, ghost t: Tree)
    requires WellFormed(t) && At(inexpr, start, SuffixAll(t, Args(t)))
    requires |arglens| == |Args(t)| && forall i :: 0 <= i < |arglens| ==> arglens[i] == |Suffix(Args(t)[i])|
    requires outbeg + |PrefixAll(t, Args(t))| <= outexpr.Length
    modifies outexpr
    ensures outexpr[..] == Splice(old(outexpr[..]), outbeg, PrefixAll(t, Args(t)))
    decreases t, 0
  {
    hide Suffix, Prefix, HeadOk, Args, Splice;
    ghost var args := Args(t);
    ghost var was := outexpr[..];
    SameLengths(t, args);
    assert args[..0] == [];
    assert SuffixAll(t, args[..0]) == [] && PrefixAll(t, args[..0]) == [];
    SpliceNothing(was, outbeg);
    hide SuffixAll, PrefixAll;
    var inend, out, i := start, outbeg, 0;
    while i < |arglens|
      invariant 0 <= i <= |arglens|
      invariant inend == start + |SuffixAll(t, args[..i])|
      invariant out == outbeg + |PrefixAll(t, args[..i])| && out <= outexpr.Length
      invariant outexpr[..] == Splice(was, outbeg, PrefixAll(t, args[..i]))
    {
      ArgumentStep(inexpr, start, t, args, i);
      PrefixifySubexp(inexpr, outexpr, inend + arglens[i], out, args[i]);
      SpliceTwice(was, outbeg, PrefixAll(t, args[..i]), Prefix(args[i]));
      inend, out, i := inend + arglens[i], out + arglens[i], i + 1;
    }
    assert args[..i] == args;
  }

  lemma {:induction false} SuffixAllGrows(parent: Tree, ts: seq<Tree>, i: nat)
    requires forall j :: 0 <= j < |ts| ==> ts[j] < parent
    requires i <= |ts|
    ensures |SuffixAll(parent, ts[..i])| <= |SuffixAll(parent, ts)|
    decreases |ts|
  {
    if i < |ts| {
      var before := ts[..|ts| - 1];
      assert before[..i] == ts[..i];
      SuffixAllGrows(parent, before, i);
    } else {
      assert ts[..i] == ts;
    }
  }

  /** prefixify_expression: the vector holding a tree's suffix form is rewritten in place to hold
      the same tree's prefix form. */
  method PrefixifyExpression(expr: array<Elem>, ghost t: Tree)
    requires WellFormed(t) && expr[..] == Suffix(t)
    modifies expr
    ensures expr[..] == Prefix(t)
  {
    var temp := expr[..];
    SameLength(t);
    assert temp[0..] == temp;
    PrefixifySubexp(temp, expr, |temp|, 0, t);
  }
}
