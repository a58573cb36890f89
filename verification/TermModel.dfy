/** What evaluation computes, checked against a program whose values are terms and whose state is the list
    of its effects: an expression's value is the expression itself, but for the operators that stand for
    others, and its effects come in the order of the suffix vector. */
module TermModel {
  import opened Expression
  import opened Wrappers
  import opened Evaluation
  import Evaluator

  const UNIT: Tree := Const(OP_LONG, Base("char"), Num(1))

  function Stored(a: Tree, b: Tree): Tree {
    Binary(BINOP_ASSIGN, a, b)
  }

  /** Values that are asked for by their type only are not to be had here. */
  function Terms(z: Tree -> bool): Target<Tree, seq<Tree>> {
    Target(
      (op, ty, v) => Const(op, ty, v), (op, x, s) => Some(Leaf(op, x)), x => Leaf(OP_VAR_VALUE, x),
      (ty, name, s) => Some(Scope(ty, name)), s => Some(This), (str, s) => Some((StrLit(str), s + [StrLit(str)])),
      Const(OP_LONG, Base("int"), Num(1)), UNIT, b => Const(OP_LONG, Base("int"), Num(if b then 1 else 0)), z,
      (op, shape, v, s) => if shape then None else Some(Unary(op, v)),
      (op, shape, a, b, s) => if shape then None else Some(Binary(op, a, b)),
      (op, shape, ty, v, s) => if shape then None else Some(Typed(op, ty, v)),
      (op, shape, name, v, s) => if shape then None else Some(Field(op, name, v)),
      (a, b, s) => Some((Stored(a, b), s + [Stored(a, b)])),
      (f, args, s) => Some((Call(f, args), s + [Call(f, args)])), v => None,
      (shape, v, s) => if shape then None else Some(Unary(UNOP_ADDR, v)),
      (ty, v, s) => Some(Unary(UNOP_ADDR, Typed(UNOP_MEMVAL, ty, v))),
      (shape, x, s) => if shape then None else Some(Unary(UNOP_ADDR, Leaf(OP_VAR_VALUE, x))),
      x => false, (x, s) => None, v => v, x => UNIT, v => v, ty => UNIT)
  }

  // ----- what an expression stands for -----

  /** No operator that leaves an operand alone. */
  predicate Strict(t: Tree) {
    && !t.Cond? && !(t.Unary? && t.uop == UNOP_SIZEOF) && !(t.Binary? && (t.bop == BINOP_AND || t.bop == BINOP_OR))
    && forall i :: 0 <= i < |Args(t)| ==> Strict(Args(t)[i])
  }

  lemma StrictParts(t: Tree)
    requires Strict(t)
    ensures !t.Cond? && !(t.Unary? && t.uop == UNOP_SIZEOF) && !(t.Binary? && (t.bop == BINOP_AND || t.bop == BINOP_OR))
    ensures t.Unary? || t.Typed? || t.Field? ==> Strict(t.e)
    ensures t.Binary? || t.AssignModify? ==> Strict(t.a) && Strict(t.b)
    ensures t.Call? ==> Strict(t.f) && forall i :: 0 <= i < |t.args| ==> Strict(t.args[i])
  {
    var ps := Args(t);
    assert |ps| > 0 ==> Strict(ps[0]);
    assert |ps| > 1 ==> Strict(ps[1]);
    if t.Call? {
      assert forall i :: 0 <= i < |t.args| ==> ps[i + 1] == t.args[i];
    }
  }

  /** ++ and -- add and subtract one, op= applies its operator, a comma gives its right operand, and & of * is
      the pointer; anything else stands for itself. */
  function Value(t: Tree): Tree
    decreases t, 1
  {
    match t
    case Unary(op, e) =>
      if op == UNOP_PREINCREMENT then Stored(Value(e), Binary(BINOP_ADD, Value(e), UNIT))
      else if op == UNOP_PREDECREMENT then Stored(Value(e), Binary(BINOP_SUB, Value(e), UNIT))
      else if op == UNOP_POSTINCREMENT || op == UNOP_POSTDECREMENT then Value(e)
      else if op == UNOP_ADDR && e.Unary? && e.uop == UNOP_IND then Value(e.e)
      else Unary(op, Value(e))
    case Typed(op, ty, e) => Typed(op, ty, Value(e))
    case Binary(op, a, b) => if op == BINOP_COMMA then Value(b) else Binary(op, Value(a), Value(b))
    case AssignModify(op, a, b) => Stored(Value(a), Binary(op, Value(a), Value(b)))
    case Field(op, name, e) => Field(op, name, Value(e))
    case Call(f, args) => Call(Value(f), ValueAll(t, args))
    case _ => t
  }

  function ValueAll(ghost parent: Tree, ts: seq<Tree>): seq<Tree>
    requires forall i :: 0 <= i < |ts| ==> ts[i] < parent
    decreases parent, 0, |ts|
  {
    if ts == [] then [] else [Value(ts[0])] + ValueAll(parent, ts[1..])
  }

  /** What the operation itself does to the program. */
  function OwnEffect(t: Tree): seq<Tree> {
    match t
    case StrLit(_) => [t]
    case Unary(op, e) =>
      if op == UNOP_PREINCREMENT || op == UNOP_POSTINCREMENT then [Stored(Value(e), Binary(BINOP_ADD, Value(e), UNIT))]
      else if op == UNOP_PREDECREMENT || op == UNOP_POSTDECREMENT then [Stored(Value(e), Binary(BINOP_SUB, Value(e), UNIT))]
      else []
    case Binary(op, _, _) => if op == BINOP_ASSIGN then [Value(t)] else []
    case AssignModify(_, _, _) => [Value(t)]
    case Call(_, _) => [Value(t)]
    case _ => []
  }

  /** Subexpressions first, from left to right, and then the operation: as in the suffix vector. */
  function Effects(t: Tree): seq<Tree>
    decreases t, 1
  {
    EffectsAll(t, Args(t)) + OwnEffect(t)
  }

  function EffectsAll(ghost parent: Tree, ts: seq<Tree>): seq<Tree>
    requires forall i :: 0 <= i < |ts| ==> ts[i] < parent
    decreases parent, 0, |ts|
  {
    if ts == [] then [] else Effects(ts[0]) + EffectsAll(parent, ts[1..])
  }

  lemma EffectsOfParts(t: Tree)
    ensures t.Unary? || t.Typed? || t.Field? ==> Effects(t) == Effects(t.e) + OwnEffect(t)
    ensures t.Binary? || t.AssignModify? ==> Effects(t) == Effects(t.a) + Effects(t.b) + OwnEffect(t)
    ensures t.Call? ==> Effects(t) == Effects(t.f) + EffectsAll(t, t.args) + OwnEffect(t)
    ensures Args(t) == [] ==> Effects(t) == OwnEffect(t)
  {
    hide OwnEffect;
    var ps := Args(t);
    if t.Call? {
      assert ps[1..] == t.args;
    } else if |ps| == 1 {
      EffectsOfOne(t, ps[0]);
      assert ps == [ps[0]];
    } else if |ps| == 2 {
      EffectsOfOne(t, ps[1]);
      assert ps == [ps[0], ps[1]] && ps[1..] == [ps[1]];
    }
  }

  lemma EffectsOfOne(parent: Tree, a: Tree)
    requires a < parent
    ensures EffectsAll(parent, [a]) == Effects(a)
  {
    hide Effects;
    assert [a][1..] == [];
    assert EffectsAll(parent, []) == [];
  }

  lemma Joined<T>(s: seq<T>, x: seq<T>, y: seq<T>, own: seq<T>)
    ensures s + x + y + own == s + (x + y + own) && s + x + own == s + (x + own) && s + x + y == s + (x + y)
    ensures s + [] == s && x + [] == x && x + y + [] == x + y
  {
  }

  // ----- and evaluates to -----

  /** `r` is what `t` stands for, done after `s`. */
  predicate Means(r: Option<(Tree, seq<Tree>)>, t: Tree, s: seq<Tree>) {
    r == Some((Value(t), s + Effects(t)))
  }

  lemma {:induction false} EvaluatesToItself(z: Tree -> bool, t: Tree, s: seq<Tree>)
    requires Strict(t)
    ensures Means(Eval(Terms(z), t, Normal, s), t, s)
    decreases t, 2
  {
    StrictParts(t);
    match t {
      case Unary(_, _) => UnaryToItself(z, t, s);
      case Typed(_, _, _) => PartToItself(z, t, s);
      case Field(_, _, _) => PartToItself(z, t, s);
      case Binary(_, _, _) => BinaryToItself(z, t, s);
      case AssignModify(_, _, _) => ModifyToItself(z, t, s);
      case Call(_, _) => CallToItself(z, t, s);
      case _ =>
        EffectsOfParts(t);
        Joined(s, [], [], []);
    }
  }

  lemma {:induction false} PartToItself(z: Tree -> bool, t: Tree, s: seq<Tree>)
    requires Strict(t) && (t.Typed? || t.Field?)
    ensures Means(Eval(Terms(z), t, Normal, s), t, s)
    decreases t, 0
  {
    hide Strict, Effects, Eval;
    StrictParts(t);
    EffectsOfParts(t);
    Evaluator.EvalFieldUnfolds(Terms(z), t, Normal, s);
    EvaluatesToItself(z, t.e, s);
    Joined(s, Effects(t.e), [], []);
  }

  lemma {:induction false} BinaryToItself(z: Tree -> bool, t: Tree, s: seq<Tree>)
    requires Strict(t) && t.Binary?
    ensures Means(Eval(Terms(z), t, Normal, s), t, s)
    decreases t, 0
  {
    hide Strict, Effects, Eval;
    StrictParts(t);
    EffectsOfParts(t);
    Evaluator.EvalBinaryUnfolds(Terms(z), t, Normal, s);
    EvaluatesToItself(z, t.a, s);
    EvaluatesToItself(z, t.b, s + Effects(t.a));
    Joined(s, Effects(t.a), Effects(t.b), OwnEffect(t));
  }

  lemma {:induction false} ModifyToItself(z: Tree -> bool, t: Tree, s: seq<Tree>)
    requires Strict(t) && t.AssignModify?
    ensures Means(Eval(Terms(z), t, Normal, s), t, s)
    decreases t, 0
  {
    hide Strict, Effects, Eval;
    StrictParts(t);
    EffectsOfParts(t);
    Evaluator.EvalAssignModifyUnfolds(Terms(z), t, Normal, s);
    EvaluatesToItself(z, t.a, s);
    EvaluatesToItself(z, t.b, s + Effects(t.a));
    Joined(s, Effects(t.a), Effects(t.b), OwnEffect(t));
  }

  lemma {:induction false} CallToItself(z: Tree -> bool, t: Tree, s: seq<Tree>)
    requires Strict(t) && t.Call?
    ensures Means(Eval(Terms(z), t, Normal, s), t, s)
    decreases t, 0
  {
    hide Strict, Effects, EffectsAll, Eval, EvalArgs;
    StrictParts(t);
    EffectsOfParts(t);
    Evaluator.EvalCallUnfolds(Terms(z), t, Normal, s);
    EvaluatesToItself(z, t.f, s);
    ArgumentsToThemselves(z, t, t.args, s + Effects(t.f));
    Joined(s, Effects(t.f), EffectsAll(t, t.args), OwnEffect(t));
  }

  lemma {:induction false} UnaryToItself(z: Tree -> bool, t: Tree, s: seq<Tree>)
    requires Strict(t) && t.Unary?
    ensures Means(Eval(Terms(z), t, Normal, s), t, s)
    decreases t, 0
  {
    hide Strict, Effects, Eval, EvalAddress, EvalSizeof;
    StrictParts(t);
    EffectsOfParts(t);
    Evaluator.EvalUnaryUnfolds(Terms(z), t, Normal, s);
    Joined(s, Effects(t.e), [], []);
    if t.uop == UNOP_ADDR {
      AddressOfItself(z, t.e, s);
    } else {
      EvaluatesToItself(z, t.e, s);
      Joined(s, Effects(t.e), [], OwnEffect(t));
    }
  }

  lemma {:induction false} AddressOfItself(z: Tree -> bool, e: Tree, s: seq<Tree>)
    requires Strict(e)
    ensures EvalAddress(Terms(z), e, Normal, s) == Some((Value(Unary(UNOP_ADDR, e)), s + Effects(e)))
    decreases e, 3
  {
    hide Strict, Effects, Eval, EvalAddress;
    StrictParts(e);
    EffectsOfParts(e);
    Evaluator.EvalAddressUnfolds(Terms(z), e, Normal, s);
    if (e.Unary? && e.uop == UNOP_IND) || (e.Typed? && e.top == UNOP_MEMVAL) {
      EvaluatesToItself(z, e.e, s);
      Joined(s, Effects(e.e), [], []);
    } else if e.Leaf? && e.lop == OP_VAR_VALUE {
      Joined(s, [], [], []);
    } else {
      EvaluatesToItself(z, e, s);
    }
  }

  lemma {:induction false} ArgumentsToThemselves(z: Tree -> bool, parent: Tree, ts: seq<Tree>, s: seq<Tree>)
    requires forall i :: 0 <= i < |ts| ==> ts[i] < parent && Strict(ts[i])
    ensures EvalArgs(Terms(z), parent, ts, Normal, s) == Some((ValueAll(parent, ts), s + EffectsAll(parent, ts)))
    decreases parent, 0, |ts|
  {
    hide Strict, Effects, Value, Eval;
    Joined(s, [], [], []);
    if ts != [] {
      EvaluatesToItself(z, ts[0], s);
      ArgumentsToThemselves(z, parent, ts[1..], s + Effects(ts[0]));
      Joined(s, Effects(ts[0]), EffectsAll(parent, ts[1..]), []);
    }
  }

  lemma {:induction false} StrictGuards(t: Tree)
    requires Strict(t)
    ensures GuardsStringFree(t)
  {
    forall i | 0 <= i < |Args(t)|
      ensures GuardsStringFree(Args(t)[i])
    {
      StrictGuards(Args(t)[i]);
    }
  }

  /** C's own reading gives the same, checking or not. */
  lemma CReadsTheSame(z: Tree -> bool, t: Tree, s: seq<Tree>, checking: bool)
    requires Strict(t)
    ensures Means(CEval(Terms(z), t, s, checking), t, s)
  {
    StrictGuards(t);
    EvaluatesToItself(z, t, s);
    NormalIsCheckedC(Terms(z), t, s);
    CheckedRefinesC(Terms(z), t, s);
  }

  /** Where nothing stands for anything else, the value is the expression. */
  predicate Bare(t: Tree) {
    && !(t.Unary? && (Steps(t.uop) || t.uop == UNOP_ADDR)) && !(t.Binary? && t.bop == BINOP_COMMA) && !t.AssignModify?
    && forall i :: 0 <= i < |Args(t)| ==> Bare(Args(t)[i])
  }

  lemma {:induction false} BareIsItself(t: Tree)
    requires Bare(t)
    ensures Value(t) == t
    decreases t, 1
  {
    var ps := Args(t);
    forall i | 0 <= i < |ps|
      ensures Value(ps[i]) == ps[i]
    {
      BareIsItself(ps[i]);
    }
    assert |ps| > 0 ==> Value(ps[0]) == ps[0];
    assert |ps| > 1 ==> Value(ps[1]) == ps[1];
    if t.Call? {
      forall i | 0 <= i < |t.args|
        ensures Value(t.args[i]) == t.args[i]
      {
        assert ps[i + 1] == t.args[i];
      }
      ValuesThemselves(t, t.args);
    }
  }

  lemma {:induction false} ValuesThemselves(parent: Tree, ts: seq<Tree>)
    requires forall i :: 0 <= i < |ts| ==> ts[i] < parent && Value(ts[i]) == ts[i]
    ensures ValueAll(parent, ts) == ts
  {
    if ts != [] {
      ValuesThemselves(parent, ts[1..]);
    }
  }

  // ----- over any program -----

  /** ++e and --e are e += 1 and e -= 1, in the evaluator and in C. */
  lemma StepsAreAssignments<V, S>(tg: Target<V, S>, e: Tree, ty: CType, n: Elem, s: S, checking: bool)
    requires tg.constant(OP_LONG, ty, n) == tg.unit
    ensures Eval(tg, Unary(UNOP_PREINCREMENT, e), Normal, s) == Eval(tg, AssignModify(BINOP_ADD, e, Const(OP_LONG, ty, n)), Normal, s)
    ensures Eval(tg, Unary(UNOP_PREDECREMENT, e), Normal, s) == Eval(tg, AssignModify(BINOP_SUB, e, Const(OP_LONG, ty, n)), Normal, s)
    ensures CEval(tg, Unary(UNOP_PREINCREMENT, e), s, checking) == CEval(tg, AssignModify(BINOP_ADD, e, Const(OP_LONG, ty, n)), s, checking)
    ensures CEval(tg, Unary(UNOP_PREDECREMENT, e), s, checking) == CEval(tg, AssignModify(BINOP_SUB, e, Const(OP_LONG, ty, n)), s, checking)
  {
    ModifiedByOne(tg, BINOP_ADD, e, ty, n, s, checking);
    ModifiedByOne(tg, BINOP_SUB, e, ty, n, s, checking);
    SteppedByOne(tg, UNOP_PREINCREMENT, e, s, checking);
    SteppedByOne(tg, UNOP_PREDECREMENT, e, s, checking);
  }

  lemma SteppedByOne<V, S>(tg: Target<V, S>, pre: Opcode, e: Tree, s: S, checking: bool)
    requires pre == UNOP_PREINCREMENT || pre == UNOP_PREDECREMENT
    ensures var op := if pre == UNOP_PREINCREMENT then BINOP_ADD else BINOP_SUB;
      && Eval(tg, Unary(pre, e), Normal, s) == Plus(tg, op, Eval(tg, e, Normal, s))
      && CEval(tg, Unary(pre, e), s, checking) == Plus(tg, op, CEval(tg, e, s, checking))
  {
    Evaluator.EvalUnaryUnfolds(tg, Unary(pre, e), Normal, s);
    hide Eval;
    var r, c := Eval(tg, e, Normal, s), CEval(tg, e, s, checking);
    if r.Some? { FinishIsPlus(tg, pre, r.value.0, r.value.1); }
    if c.Some? { FinishIsPlus(tg, pre, c.value.0, c.value.1); }
  }

  lemma FinishIsPlus<V, S>(tg: Target<V, S>, pre: Opcode, v: V, s: S)
    requires pre == UNOP_PREINCREMENT || pre == UNOP_PREDECREMENT
    ensures FinishUnary(tg, pre, v, Normal, s) == Plus(tg, if pre == UNOP_PREINCREMENT then BINOP_ADD else BINOP_SUB, Some((v, s)))
  {
    var op := if pre == UNOP_PREINCREMENT then BINOP_ADD else BINOP_SUB;
    var sum := tg.binary(op, false, v, tg.unit, s);
    if sum.Some? {
      var done := tg.assign(v, sum.value, s);
      if done.Some? {
        var (stored, after) := done.value;
        assert done == Some((stored, after));
      }
    }
  }

  /** `op` applied to a value and one, and stored. */
  function Plus<V, S>(tg: Target<V, S>, op: Opcode, r: Option<(V, S)>): Option<(V, S)> {
    if r.None? then None
    else
      var sum := tg.binary(op, false, r.value.0, tg.unit, r.value.1);
      if sum.None? then None else tg.assign(r.value.0, sum.value, r.value.1)
  }

  lemma ModifiedByOne<V, S>(tg: Target<V, S>, op: Opcode, e: Tree, ty: CType, n: Elem, s: S, checking: bool)
    requires tg.constant(OP_LONG, ty, n) == tg.unit
    ensures Eval(tg, AssignModify(op, e, Const(OP_LONG, ty, n)), Normal, s) == Plus(tg, op, Eval(tg, e, Normal, s))
    ensures CEval(tg, AssignModify(op, e, Const(OP_LONG, ty, n)), s, checking) == Plus(tg, op, CEval(tg, e, s, checking))
  {
    var k := Const(OP_LONG, ty, n);
    forall u: S
      ensures Eval(tg, k, Normal, u) == Some((tg.unit, u)) && CEval(tg, k, u, checking) == Some((tg.unit, u))
    {
    }
  }

  /** `post` leaves the state that `pre` leaves, and has the value that the operand had. */
  ghost predicate StepsAfter<V, S>(post: Option<(V, S)>, pre: Option<(V, S)>, operand: Option<(V, S)>) {
    && (post.None? <==> pre.None?)
    && (post.Some? ==> operand.Some? && post.value == (operand.value.0, pre.value.1))
  }

  lemma PostfixStepsAfter<V, S>(tg: Target<V, S>, e: Tree, s: S, checking: bool)
    ensures StepsAfter(Eval(tg, Unary(UNOP_POSTINCREMENT, e), Normal, s), Eval(tg, Unary(UNOP_PREINCREMENT, e), Normal, s), Eval(tg, e, Normal, s))
    ensures StepsAfter(Eval(tg, Unary(UNOP_POSTDECREMENT, e), Normal, s), Eval(tg, Unary(UNOP_PREDECREMENT, e), Normal, s), Eval(tg, e, Normal, s))
    ensures StepsAfter(CEval(tg, Unary(UNOP_POSTINCREMENT, e), s, checking), CEval(tg, Unary(UNOP_PREINCREMENT, e), s, checking), CEval(tg, e, s, checking))
    ensures StepsAfter(CEval(tg, Unary(UNOP_POSTDECREMENT, e), s, checking), CEval(tg, Unary(UNOP_PREDECREMENT, e), s, checking), CEval(tg, e, s, checking))
  {
  }

  /** && and || are conditionals that come to 1 or 0. */
  lemma LogicalsAreConditionals<V, S>(tg: Target<V, S>, a: Tree, b: Tree, ty: CType, s: S)
    requires tg.constant(OP_LONG, ty, Num(1)) == tg.truth(true) && tg.constant(OP_LONG, ty, Num(0)) == tg.truth(false)
    ensures var one, zero := Const(OP_LONG, ty, Num(1)), Const(OP_LONG, ty, Num(0));
      && CEval(tg, Binary(BINOP_AND, a, b), s, false) == CEval(tg, Cond(a, Cond(b, one, zero), zero), s, false)
      && CEval(tg, Binary(BINOP_OR, a, b), s, false) == CEval(tg, Cond(a, one, Cond(b, one, zero)), s, false)
  {
    var one, zero := Const(OP_LONG, ty, Num(1)), Const(OP_LONG, ty, Num(0));
    var ra := CEval(tg, a, s, false);
    if ra.Some? {
      var u := ra.value.1;
      var rb := CEval(tg, b, u, false);
      assert CEval(tg, zero, u, false) == Some((tg.truth(false), u)) && CEval(tg, one, u, false) == Some((tg.truth(true), u));
      if rb.Some? {
        var w := rb.value.1;
        assert CEval(tg, zero, w, false) == Some((tg.truth(false), w)) && CEval(tg, one, w, false) == Some((tg.truth(true), w));
        assert CEval(tg, Cond(b, one, zero), u, false) == Some((tg.truth(!tg.isZero(rb.value.0)), w));
      } else {
        assert CEval(tg, Cond(b, one, zero), u, false) == None;
      }
    }
  }

  /** A conditional is its second operand, or its third where the first is zero. */
  lemma ConditionPicks<V, S>(tg: Target<V, S>, c: Tree, a: Tree, b: Tree, s: S)
    requires CEval(tg, c, s, false).Some?
    ensures var (v, after) := CEval(tg, c, s, false).value;
      CEval(tg, Cond(c, a, b), s, false) == CEval(tg, if tg.isZero(v) then b else a, after, false)
  {
    var (v, after) := CEval(tg, c, s, false).value;
    var r := CEval(tg, if tg.isZero(v) then b else a, after, false);
    if r.Some? {
      var (x, u) := r.value;
      assert r == Some((x, u));
    }
  }

  function Paired<V, S>(v: Option<V>, s: S): Option<(V, S)> {
    if v.None? then None else Some((v.value, s))
  }

  /** An array variable gives its address under + and - and in a subscript, and is fetched under any other
      operator. */
  lemma ArraysDecay<V, S>(tg: Target<V, S>, op: Opcode, x: Elem, k: Tree, s: S, checking: bool)
    requires tg.isArray(x) && k.Const? && op < BINOP_EXP
    requires op != BINOP_AND && op != BINOP_OR && op != BINOP_COMMA && op != BINOP_ASSIGN
    ensures var v := if op in {BINOP_ADD, BINOP_SUB, BINOP_SUBSCRIPT} then tg.decay(x, s) else tg.leaf(OP_VAR_VALUE, x, s);
      var r := if v.None? then None else Paired(tg.binary(op, false, v.value, tg.constant(k.cop, k.ty, k.val), s), s);
      var t := Binary(op, Leaf(OP_VAR_VALUE, x), k);
      Eval(tg, t, Normal, s) == r && CEval(tg, t, s, checking) == r
  {
    var y := Leaf(OP_VAR_VALUE, x);
    assert Eval(tg, y, Normal, s) == Paired(tg.leaf(OP_VAR_VALUE, x, s), s) == CEval(tg, y, s, checking);
    assert Eval(tg, k, Normal, s) == Some((tg.constant(k.cop, k.ty, k.val), s)) == CEval(tg, k, s, checking);
    Evaluator.EvalBinaryUnfolds(tg, Binary(op, y, k), Normal, s);
  }

  /** What sizeof measures: a variable by its declaration, {T} e by T, what a pointer points to, and
      otherwise the value the operand would have. */
  lemma SizeofMeasures<V, S>(tg: Target<V, S>, x: Elem, ty: CType, e: Tree, s: S, checking: bool)
    ensures var v := Leaf(OP_VAR_VALUE, x);
      && CEval(tg, Unary(UNOP_SIZEOF, v), s, checking) == Some((tg.sizeOfVar(x), s))
      && CEval(tg, Unary(UNOP_SIZEOF, Typed(UNOP_MEMVAL, ty, e)), s, checking) == Some((tg.sizeOfType(ty), s))
      && CEval(tg, Unary(UNOP_SIZEOF, Unary(UNOP_IND, v)), s, checking) == Some((tg.sizeOfTarget(tg.leafShape(x)), s))
      && CEval(tg, Unary(UNOP_SIZEOF, Const(OP_LONG, ty, x)), s, checking) == Some((tg.sizeOfValue(tg.constant(OP_LONG, ty, x)), s))
  {
    var v := Leaf(OP_VAR_VALUE, x);
    assert Eval(tg, v, AvoidSideEffects, s) == Some((tg.leafShape(x), s));
    assert EvalSizeof(tg, Unary(UNOP_IND, v), s) == Some((tg.sizeOfTarget(tg.leafShape(x)), s));
    assert EvalSizeof(tg, Const(OP_LONG, ty, x), s) == Some((tg.sizeOfValue(tg.constant(OP_LONG, ty, x)), s));
  }

  // ----- what the other two modes leave undone -----

  /** The same in all that skipping asks of a program: no operation on a value is among it, no string made,
      no variable fetched, nothing stored or called. */
  ghost predicate SameToSkip<V(!new), S(!new)>(tg: Target<V, S>, u: Target<V, S>) {
    && u.constant == tg.constant && u.staticField == tg.staticField && u.thisValue == tg.thisValue
    && u.one == tg.one && u.isZero == tg.isZero && u.isArray == tg.isArray && u.decay == tg.decay
    && forall op: Opcode, x, s :: op != OP_VAR_VALUE ==> u.leaf(op, x, s) == tg.leaf(op, x, s)
  }

  lemma {:induction false} SkipComputesNothing<V(!new), S(!new)>(tg: Target<V, S>, u: Target<V, S>, t: Tree, s: S)
    requires SameToSkip(tg, u)
    ensures Eval(u, t, Skip, s) == Eval(tg, t, Skip, s)
    ensures Eval(tg, t, Skip, s).Some? ==> Eval(tg, t, Skip, s).value.1 == s
    decreases t, 1
  {
    SkipKeepsState(tg, t, s);
    match t
    case Unary(_, e) => SkipComputesNothing(tg, u, e, s);
    case Typed(_, _, e) => SkipComputesNothing(tg, u, e, s);
    case Binary(_, _, _) => SkipBinary(tg, u, t, s);
    case AssignModify(_, a, b) => SkipComputesNothing(tg, u, a, s); SkipComputesNothing(tg, u, b, s);
    case Cond(_, _, _) => SkipCond(tg, u, t, s);
    case Field(_, _, e) => SkipComputesNothing(tg, u, e, s);
    case Call(f, args) => SkipComputesNothing(tg, u, f, s); SkipArgsComputeNothing(tg, u, t, args, s);
    case _ =>
  }

  lemma {:induction false} SkipBinary<V(!new), S(!new)>(tg: Target<V, S>, u: Target<V, S>, t: Tree, s: S)
    requires SameToSkip(tg, u) && t.Binary?
    ensures Eval(u, t, Skip, s) == Eval(tg, t, Skip, s)
    decreases t, 0
  {
    SkipComputesNothing(tg, u, t.a, s);
    SkipComputesNothing(tg, u, t.b, s);
  }

  lemma {:induction false} SkipCond<V(!new), S(!new)>(tg: Target<V, S>, u: Target<V, S>, t: Tree, s: S)
    requires SameToSkip(tg, u) && t.Cond?
    ensures Eval(u, t, Skip, s) == Eval(tg, t, Skip, s)
    decreases t, 0
  {
    hide Eval;
    Evaluator.EvalCondUnfolds(tg, t, Skip, s);
    Evaluator.EvalCondUnfolds(u, t, Skip, s);
    SkipComputesNothing(tg, u, t.c, s);
    SkipComputesNothing(tg, u, t.a, s);
    SkipComputesNothing(tg, u, t.b, s);
  }

  lemma {:induction false} SkipArgsComputeNothing<V(!new), S(!new)>(tg: Target<V, S>, u: Target<V, S>, parent: Tree, ts: seq<Tree>, s: S)
    requires SameToSkip(tg, u) && forall i :: 0 <= i < |ts| ==> ts[i] < parent
    ensures EvalArgs(u, parent, ts, Skip, s) == EvalArgs(tg, parent, ts, Skip, s)
    decreases parent, 0, |ts|
  {
    if ts != [] {
      SkipComputesNothing(tg, u, ts[0], s);
      SkipArgsComputeNothing(tg, u, parent, ts[1..], s);
    }
  }

  /** Operators that fetch through a pointer, or fail on values. */
  predicate Fetches(op: Opcode) {
    op == BINOP_DIV || op == BINOP_SUBSCRIPT || op == BINOP_REPEAT
  }

  /** The same in all that finding types asks of a program: nothing is stored or called, and what could be
      fetched or divided is asked for by its type only. */
  ghost predicate SameToType<V(!new), S(!new)>(tg: Target<V, S>, u: Target<V, S>) {
    && SameToSkip(tg, u) && u.leafShape == tg.leafShape && u.makeString == tg.makeString && u.truth == tg.truth
    && u.callShape == tg.callShape && u.pointerCast == tg.pointerCast && u.sizeOfTarget == tg.sizeOfTarget && u.sizeOfVar == tg.sizeOfVar
    && u.sizeOfValue == tg.sizeOfValue && u.sizeOfType == tg.sizeOfType
    && (forall op: Opcode, shape, v, s :: shape || op != UNOP_IND ==> u.unary(op, shape, v, s) == tg.unary(op, shape, v, s))
    && (forall op: Opcode, shape, a, b, s :: shape || !Fetches(op) ==> u.binary(op, shape, a, b, s) == tg.binary(op, shape, a, b, s))
    && (forall op: Opcode, shape, ty, v, s :: shape || op != UNOP_MEMVAL ==> u.typed(op, shape, ty, v, s) == tg.typed(op, shape, ty, v, s))
    && (forall op: Opcode, shape, name, v, s :: shape ==> u.field(op, shape, name, v, s) == tg.field(op, shape, name, v, s))
    && (forall shape, v, s :: shape ==> u.addressOf(shape, v, s) == tg.addressOf(shape, v, s))
    && (forall shape, x, s :: shape ==> u.locate(shape, x, s) == tg.locate(shape, x, s))
  }

  lemma {:induction false} TypingFetchesNothing<V(!new), S(!new)>(tg: Target<V, S>, u: Target<V, S>, t: Tree, s: S)
    requires SameToType(tg, u)
    ensures Eval(u, t, AvoidSideEffects, s) == Eval(tg, t, AvoidSideEffects, s)
    decreases t, 2
  {
    match t {
      case Unary(_, _) => TypingUnary(tg, u, t, s);
      case Typed(_, _, e) => TypingPart(tg, u, t, s);
      case Field(_, _, e) => TypingPart(tg, u, t, s);
      case Binary(op, a, b) => if op == BINOP_AND || op == BINOP_OR { TypingLogical(tg, u, t, s); } else { TypingBinary(tg, u, t, s); }
      case AssignModify(_, a, b) => TypingModify(tg, u, t, s);
      case Cond(_, _, _) => TypingCond(tg, u, t, s);
      case Call(_, _) => TypingCall(tg, u, t, s);
      case _ =>
    }
  }

  lemma {:induction false} TypingPart<V(!new), S(!new)>(tg: Target<V, S>, u: Target<V, S>, t: Tree, s: S)
    requires SameToType(tg, u) && (t.Typed? || t.Field?)
    ensures Eval(u, t, AvoidSideEffects, s) == Eval(tg, t, AvoidSideEffects, s)
    decreases t, 0
  {
    hide Eval, SameToSkip;
    TypingFetchesNothing(tg, u, t.e, s);
    Evaluator.EvalFieldUnfolds(tg, t, AvoidSideEffects, s);
    Evaluator.EvalFieldUnfolds(u, t, AvoidSideEffects, s);
  }

  lemma {:induction false} TypingUnary<V(!new), S(!new)>(tg: Target<V, S>, u: Target<V, S>, t: Tree, s: S)
    requires SameToType(tg, u) && t.Unary?
    ensures Eval(u, t, AvoidSideEffects, s) == Eval(tg, t, AvoidSideEffects, s)
    decreases t, 0
  {
    hide Eval, EvalAddress, EvalSizeof, SameToSkip;
    Evaluator.EvalUnaryUnfolds(tg, t, AvoidSideEffects, s);
    Evaluator.EvalUnaryUnfolds(u, t, AvoidSideEffects, s);
    if t.uop == UNOP_ADDR {
      TypingAddress(tg, u, t.e, s);
    } else if t.uop == UNOP_SIZEOF {
      TypingSizeof(tg, u, t.e, s);
    } else {
      TypingFetchesNothing(tg, u, t.e, s);
    }
  }

  lemma {:induction false} TypingAddress<V(!new), S(!new)>(tg: Target<V, S>, u: Target<V, S>, e: Tree, s: S)
    requires SameToType(tg, u)
    ensures EvalAddress(u, e, AvoidSideEffects, s) == EvalAddress(tg, e, AvoidSideEffects, s)
    decreases e, 3
  {
    hide Eval, EvalAddress, SameToSkip;
    Evaluator.EvalAddressUnfolds(tg, e, AvoidSideEffects, s);
    Evaluator.EvalAddressUnfolds(u, e, AvoidSideEffects, s);
    TypingFetchesNothing(tg, u, e, s);
    var r := Eval(tg, e, AvoidSideEffects, s);
    if r.Some? { assert u.addressOf(true, r.value.0, r.value.1) == tg.addressOf(true, r.value.0, r.value.1); }
    if e.Leaf? { assert u.locate(true, e.arg, s) == tg.locate(true, e.arg, s); }
    if e.Unary? || e.Typed? { TypingFetchesNothing(tg, u, e.e, s); }
  }

  lemma {:induction false} TypingSizeof<V(!new), S(!new)>(tg: Target<V, S>, u: Target<V, S>, e: Tree, s: S)
    requires SameToType(tg, u)
    ensures EvalSizeof(u, e, s) == EvalSizeof(tg, e, s)
    decreases e, 3
  {
    hide Eval, SameToSkip;
    TypingFetchesNothing(tg, u, e, s);
    if e.Unary? || e.Typed? { TypingFetchesNothing(tg, u, e.e, s); }
  }

  lemma {:induction false} TypingCoerced<V(!new), S(!new)>(tg: Target<V, S>, u: Target<V, S>, e: Tree, s: S)
    requires SameToType(tg, u)
    ensures EvalCoerced(u, e, AvoidSideEffects, s) == EvalCoerced(tg, e, AvoidSideEffects, s)
    decreases e, 3
  {
    hide Eval;
    TypingFetchesNothing(tg, u, e, s);
  }

  lemma {:induction false} TypingBinary<V(!new), S(!new)>(tg: Target<V, S>, u: Target<V, S>, t: Tree, s: S)
    requires SameToType(tg, u) && t.Binary? && t.bop != BINOP_AND && t.bop != BINOP_OR
    ensures Eval(u, t, AvoidSideEffects, s) == Eval(tg, t, AvoidSideEffects, s)
    decreases t, 0
  {
    hide Eval, EvalCoerced, SameToSkip;
    Evaluator.EvalBinaryUnfolds(tg, t, AvoidSideEffects, s);
    Evaluator.EvalBinaryUnfolds(u, t, AvoidSideEffects, s);
    var c := Coerces(t.bop);
    TypingFetchesNothing(tg, u, t.a, s);
    TypingCoerced(tg, u, t.a, s);
    var r := Evaluator.EvalOperand(tg, c, t.a, AvoidSideEffects, s);
    if r.Some? {
      TypingFetchesNothing(tg, u, t.b, r.value.1);
      TypingCoerced(tg, u, t.b, r.value.1);
    }
  }

  lemma {:induction false} TypingModify<V(!new), S(!new)>(tg: Target<V, S>, u: Target<V, S>, t: Tree, s: S)
    requires SameToType(tg, u) && t.AssignModify?
    ensures Eval(u, t, AvoidSideEffects, s) == Eval(tg, t, AvoidSideEffects, s)
    decreases t, 0
  {
    hide Eval, SameToSkip;
    Evaluator.EvalAssignModifyUnfolds(tg, t, AvoidSideEffects, s);
    Evaluator.EvalAssignModifyUnfolds(u, t, AvoidSideEffects, s);
    TypingFetchesNothing(tg, u, t.a, s);
    var r := Eval(tg, t.a, AvoidSideEffects, s);
    if r.Some? { TypingFetchesNothing(tg, u, t.b, r.value.1); }
  }

  lemma {:induction false} TypingLogical<V(!new), S(!new)>(tg: Target<V, S>, u: Target<V, S>, t: Tree, s: S)
    requires SameToType(tg, u) && t.Binary? && (t.bop == BINOP_AND || t.bop == BINOP_OR)
    ensures Eval(u, t, AvoidSideEffects, s) == Eval(tg, t, AvoidSideEffects, s)
    decreases t, 0
  {
    hide Eval;
    Evaluator.EvalLogicalUnfolds(tg, t, AvoidSideEffects, s);
    Evaluator.EvalLogicalUnfolds(u, t, AvoidSideEffects, s);
    TypingFetchesNothing(tg, u, t.a, s);
    var r := Eval(tg, t.a, AvoidSideEffects, s);
    if r.Some? {
      TypingFetchesNothing(tg, u, t.b, r.value.1);
      var typed := Eval(tg, t.b, AvoidSideEffects, r.value.1);
      if typed.Some? {
        TypingFetchesNothing(tg, u, t.b, typed.value.1);
        SkipComputesNothing(tg, u, t.b, typed.value.1);
      }
    }
  }

  lemma {:induction false} TypingCond<V(!new), S(!new)>(tg: Target<V, S>, u: Target<V, S>, t: Tree, s: S)
    requires SameToType(tg, u) && t.Cond?
    ensures Eval(u, t, AvoidSideEffects, s) == Eval(tg, t, AvoidSideEffects, s)
    decreases t, 0
  {
    hide Eval;
    Evaluator.EvalCondUnfolds(tg, t, AvoidSideEffects, s);
    Evaluator.EvalCondUnfolds(u, t, AvoidSideEffects, s);
    TypingFetchesNothing(tg, u, t.c, s);
    var r := Eval(tg, t.c, AvoidSideEffects, s);
    if r.Some? {
      TypingBranch(tg, u, t, t.a, r.value.1);
      var first := Eval(tg, t.a, if tg.isZero(r.value.0) then Skip else AvoidSideEffects, r.value.1);
      if first.Some? { TypingBranch(tg, u, t, t.b, first.value.1); }
    }
  }

  lemma {:induction false} TypingBranch<V(!new), S(!new)>(tg: Target<V, S>, u: Target<V, S>, parent: Tree, b: Tree, s: S)
    requires SameToType(tg, u) && b < parent
    ensures Eval(u, b, AvoidSideEffects, s) == Eval(tg, b, AvoidSideEffects, s) && Eval(u, b, Skip, s) == Eval(tg, b, Skip, s)
    decreases b, 3
  {
    hide Eval;
    TypingFetchesNothing(tg, u, b, s);
    SkipComputesNothing(tg, u, b, s);
  }

  lemma {:induction false} TypingCall<V(!new), S(!new)>(tg: Target<V, S>, u: Target<V, S>, t: Tree, s: S)
    requires SameToType(tg, u) && t.Call?
    ensures Eval(u, t, AvoidSideEffects, s) == Eval(tg, t, AvoidSideEffects, s)
    decreases t, 0
  {
    hide Eval, EvalCoerced, EvalArgs, SameToSkip;
    Evaluator.EvalCallUnfolds(tg, t, AvoidSideEffects, s);
    Evaluator.EvalCallUnfolds(u, t, AvoidSideEffects, s);
    TypingCoerced(tg, u, t.f, s);
    var r := EvalCoerced(tg, t.f, AvoidSideEffects, s);
    if r.Some? { TypingArguments(tg, u, t, t.args, r.value.1); }
  }

  lemma {:induction false} TypingArguments<V(!new), S(!new)>(tg: Target<V, S>, u: Target<V, S>, parent: Tree, ts: seq<Tree>, s: S)
    requires SameToType(tg, u) && forall i :: 0 <= i < |ts| ==> ts[i] < parent
    ensures EvalArgs(u, parent, ts, AvoidSideEffects, s) == EvalArgs(tg, parent, ts, AvoidSideEffects, s)
    decreases parent, 0, |ts|
  {
    hide EvalCoerced, SameToType;
    if ts != [] {
      TypingCoerced(tg, u, ts[0], s);
      var r := EvalCoerced(tg, ts[0], AvoidSideEffects, s);
      if r.Some? { TypingArguments(tg, u, parent, ts[1..], r.value.1); }
    }
  }
}
