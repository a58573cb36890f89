/** Finding one's way in a vector in prefix order: where the parts of each kind of expression lie,
    counting from its first element. */
module Layout {
  import opened Expression

  function OpOf(t: Tree): Opcode {
    match t
    case Const(op, _, _) => op
    case Leaf(op, _) => op
    case StrLit(_) => OP_STRING
    case Scope(_, _) => OP_SCOPE
    case This => OP_THIS
    case Unary(op, _) => op
    case Typed(op, _, _) => op
    case Binary(op, _, _) => op
    case AssignModify(_, _, _) => BINOP_ASSIGN_MODIFY
    case Cond(_, _, _) => TERNOP_COND
    case Field(op, _, _) => op
    case Call(_, _) => OP_FUNCALL
  }

  /** The first element of a well-formed subexpression tells which kind it is. */
  lemma FirstElementTells(t: Tree)
    requires HeadOk(t)
    ensures Head(t)[0] == Op(OpOf(t))
    ensures t.Const? <==> OpOf(t) == OP_LONG || OpOf(t) == OP_DOUBLE
    ensures t.Leaf? <==> OP_VAR_VALUE <= OpOf(t) <= OP_INTERNALVAR
    ensures t.StrLit? <==> OpOf(t) == OP_STRING
    ensures t.Scope? <==> OpOf(t) == OP_SCOPE
    ensures t.This? <==> OpOf(t) == OP_THIS
    ensures t.Unary? <==> IsUnary(OpOf(t))
    ensures t.Typed? <==> OpOf(t) == UNOP_CAST || OpOf(t) == UNOP_MEMVAL
    ensures t.Binary? <==> IsBinary(OpOf(t))
    ensures t.AssignModify? <==> OpOf(t) == BINOP_ASSIGN_MODIFY
    ensures t.Cond? <==> OpOf(t) == TERNOP_COND
    ensures t.Field? <==> OpOf(t) == STRUCTOP_STRUCT || OpOf(t) == STRUCTOP_PTR
    ensures t.Call? <==> OpOf(t) == OP_FUNCALL
  {
    hide Chunks;
  }

  lemma HeadLengths(t: Tree)
    ensures t.Unary? || t.Binary? || t.Cond? ==> |Head(t)| == 1
    ensures t.Typed? || t.AssignModify? || t.Call? || t.Leaf? ==> |Head(t)| == 3
  {
    hide Chunks;
  }

  /** A well-formed expression lies in prefix form from `at`. */
  predicate Lies(v: seq<Elem>, at: nat, t: Tree) {
    WellFormed(t) && At(v, at, Prefix(t))
  }

  function Size(t: Tree): nat {
    |Prefix(t)|
  }

  // Where the subexpressions of each kind lie, counting from the kind's first element.

  lemma HeadLies(v: seq<Elem>, at: nat, t: Tree)
    requires Lies(v, at, t)
    ensures At(v, at, Head(t)) && HeadOk(t)
  {
    PrefixParts(v, at, t);
  }

  /** Reading within the operation's own elements. */
  lemma HeadElement(v: seq<Elem>, at: nat, t: Tree, k: nat)
    requires Lies(v, at, t) && k < |Head(t)|
    ensures at + k < |v| && v[at + k] == Head(t)[k]
  {
    HeadLies(v, at, t);
    assert v[at + k] == v[at..at + |Head(t)|][k];
  }

  /** The element between the two opcodes of a kind that has one there. */
  lemma MiddleElement(v: seq<Elem>, at: nat, t: Tree)
    requires Lies(v, at, t) && (t.Typed? || t.AssignModify? || t.Call?)
    ensures at + 1 < |v| && |Head(t)| == 3
    ensures v[at + 1] == if t.Typed? then Ty(t.ty) else if t.AssignModify? then Op(t.bop) else Num(|t.args|)
  {
    HeadLengths(t);
    HeadElement(v, at, t, 1);
  }

  lemma OperandAlone(v: seq<Elem>, at: nat, t: Tree)
    requires At(v, at, Prefix(t)) && (t.Const? || t.Leaf? || t.StrLit? || t.Scope? || t.This?)
    ensures At(v, at, Head(t)) && |Prefix(t)| == |Head(t)|
  {
    PrefixParts(v, at, t);
    hide Prefix, Head, At;
    assert Args(t) == [];
  }

  lemma OnePart(v: seq<Elem>, at: nat, t: Tree)
    requires Lies(v, at, t) && (t.Unary? || t.Typed? || t.Field?)
    ensures Lies(v, at + |Head(t)|, t.e) && Size(t) == |Head(t)| + Size(t.e)
  {
    hide Prefix, PrefixAll, Head, WellFormed, At;
    PrefixParts(v, at, t);
    PartsWellFormed(t);
    var e := t.e;
    assert Args(t) == [e];
    PrefixAllOfOne(t, e);
  }

  lemma FieldName(v: seq<Elem>, at: nat, t: Tree)
    requires t.Field? && HeadOk(t) && At(v, at, Head(t))
    ensures CString(v, at + 1) == t.s && |Head(t)| == 3 + (|t.s| + ELEM_SIZE) / ELEM_SIZE
  {
    hide Chunks, CString;
    CStringInHead(v, at, [Op(t.fop)], t.s, [Num(|t.s|), Op(t.fop)]);
  }

  lemma FieldParts(v: seq<Elem>, at: nat, t: Tree)
    requires Lies(v, at, t) && t.Field?
    ensures var h := 3 + (|t.s| + ELEM_SIZE) / ELEM_SIZE;
      CString(v, at + 1) == t.s && Lies(v, at + h, t.e) && Size(t) == h + Size(t.e)
  {
    hide Lies, Size, Head, HeadOk, At, CString;
    OnePart(v, at, t);
    HeadLies(v, at, t);
    FieldName(v, at, t);
  }

  lemma PartsWellFormed(t: Tree)
    requires WellFormed(t)
    ensures t.Unary? || t.Typed? || t.Field? ==> WellFormed(t.e)
    ensures t.Binary? || t.AssignModify? ==> WellFormed(t.a) && WellFormed(t.b)
    ensures t.Cond? ==> WellFormed(t.c) && WellFormed(t.a) && WellFormed(t.b)
    ensures t.Call? ==> WellFormed(t.f) && forall i :: 0 <= i < |t.args| ==> WellFormed(t.args[i])
  {
    hide HeadOk;
    var ps := Args(t);
    assert |ps| > 0 ==> WellFormed(ps[0]);
    assert |ps| > 1 ==> WellFormed(ps[1]);
    assert |ps| > 2 ==> WellFormed(ps[2]);
    if t.Call? {
      forall i | 0 <= i < |t.args|
        ensures WellFormed(t.args[i])
      {
        assert ps[i + 1] == t.args[i];
      }
    }
  }

  lemma TwoParts(v: seq<Elem>, at: nat, t: Tree)
    requires Lies(v, at, t) && (t.Binary? || t.AssignModify?)
    ensures Lies(v, at + |Head(t)|, t.a) && Lies(v, at + |Head(t)| + Size(t.a), t.b)
    ensures Size(t) == |Head(t)| + Size(t.a) + Size(t.b)
  {
    hide Prefix, PrefixAll, Head, WellFormed, At;
    PrefixParts(v, at, t);
    PartsWellFormed(t);
    var a, b := t.a, t.b;
    assert Args(t) == [a, b];
    hide Args;
    TwoPartsAt(v, at + |Head(t)|, t, a, b);
  }

  lemma CondParts(v: seq<Elem>, at: nat, t: Tree)
    requires Lies(v, at, t) && t.Cond?
    ensures Lies(v, at + 1, t.c) && Lies(v, at + 1 + Size(t.c), t.a) && Lies(v, at + 1 + Size(t.c) + Size(t.a), t.b)
    ensures Size(t) == 1 + Size(t.c) + Size(t.a) + Size(t.b)
  {
    hide Prefix, PrefixAll, Head, WellFormed, At;
    PrefixParts(v, at, t);
    PartsWellFormed(t);
    HeadLengths(t);
    var c, a, b := t.c, t.a, t.b;
    assert Args(t) == [c, a, b];
    hide Args;
    ThreePartsAt(v, at + 1, t, c, a, b);
  }

  lemma TwoPartsAt(v: seq<Elem>, at: nat, t: Tree, a: Tree, b: Tree)
    requires a < t && b < t && At(v, at, PrefixAll(t, [a, b]))
    ensures At(v, at, Prefix(a)) && At(v, at + |Prefix(a)|, Prefix(b))
    ensures |PrefixAll(t, [a, b])| == |Prefix(a)| + |Prefix(b)|
  {
    hide Prefix, PrefixAll;
    PrefixAllOfTwo(t, a, b);
    AtSplit(v, at, Prefix(a), Prefix(b));
  }

  lemma ThreePartsAt(v: seq<Elem>, at: nat, t: Tree, c: Tree, a: Tree, b: Tree)
    requires c < t && a < t && b < t && At(v, at, PrefixAll(t, [c, a, b]))
    ensures At(v, at, Prefix(c)) && At(v, at + |Prefix(c)|, Prefix(a)) && At(v, at + |Prefix(c)| + |Prefix(a)|, Prefix(b))
    ensures |PrefixAll(t, [c, a, b])| == |Prefix(c)| + |Prefix(a)| + |Prefix(b)|
  {
    hide Prefix, PrefixAll;
    PrefixAllOfThree(t, c, a, b);
    AtSplit(v, at, Prefix(c) + Prefix(a), Prefix(b));
    AtSplit(v, at, Prefix(c), Prefix(a));
  }

  /** The elements that a call's first k parts occupy. */
  function PartsSize(t: Tree, k: nat): nat
    requires t.Call? && k <= 1 + |t.args|
  {
    |PrefixAll(t, Args(t)[..k])|
  }

  /** A call's parts, function and arguments, lie in order from `base`. */
  predicate PartsLie(v: seq<Elem>, base: nat, t: Tree)
    requires t.Call?
  {
    At(v, base, PrefixAll(t, Args(t))) && forall i :: 0 <= i < |t.args| ==> WellFormed(t.args[i])
  }

  lemma CallParts(v: seq<Elem>, at: nat, t: Tree)
    requires Lies(v, at, t) && t.Call?
    ensures Lies(v, at + 3, t.f) && PartsLie(v, at + 3, t)
    ensures Size(t) == 3 + PartsSize(t, 1 + |t.args|) && Size(t.f) == PartsSize(t, 1)
  {
    hide Prefix, Head, WellFormed, At;
    PrefixParts(v, at, t);
    PartsWellFormed(t);
    HeadLengths(t);
    var ps, f := Args(t), t.f;
    assert |ps| == 1 + |t.args| && ps[0] == f && ps[..0] == [] && ps[..|ps|] == ps;
    hide Args;
    PrefixPartAt(v, at + 3, t, ps, 0);
    assert PrefixAll(t, ps[..0]) == [];
  }

  lemma ArgumentLies(v: seq<Elem>, base: nat, t: Tree, i: nat)
    requires t.Call? && i < |t.args| && PartsLie(v, base, t)
    ensures Lies(v, base + PartsSize(t, i + 1), t.args[i]) && PartsSize(t, i + 2) == PartsSize(t, i + 1) + Size(t.args[i])
  {
    hide Prefix, PrefixAll, WellFormed, At;
    var ps, arg, k := Args(t), t.args[i], i + 1;
    assert k < |ps| && ps[k] == arg;
    hide Args;
    PrefixPartAt(v, base, t, ps, k);
  }
}
