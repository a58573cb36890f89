/** What evaluating an expression tree means: eval.c's three modes on trees, and the C language's
    own reading, which knows nothing of modes. */
module Evaluation {
  import opened Expression
  import opened Wrappers

  datatype NoSide = Normal | Skip | AvoidSideEffects

  /** The value operations eval.c calls, over values V and program states S.  A `shape` argument is
      true where only the type of the result is wanted.  None is an error report. */
  datatype Target<!V, !S> = Target(
    constant: (Opcode, CType, Elem) -> V,
    leaf: (Opcode, Elem, S) -> Option<V>,
    leafShape: Elem -> V,
    staticField: (CType, string, S) -> Option<V>,
    thisValue: S -> Option<V>,
    makeString: (string, S) -> Option<(V, S)>,    // allocates in the inferior
    one: V,                                       // what skipping returns
    unit: V,                                      // the char 1 that ++ and -- add and subtract
    truth: bool -> V,
    isZero: V -> bool,
    unary: (Opcode, bool, V, S) -> Option<V>,
    binary: (Opcode, bool, V, V, S) -> Option<V>,
    typed: (Opcode, bool, CType, V, S) -> Option<V>,
    field: (Opcode, bool, string, V, S) -> Option<V>,
    assign: (V, V, S) -> Option<(V, S)>,
    call: (V, seq<V>, S) -> Option<(V, S)>,
    callShape: V -> Option<V>,
    addressOf: (bool, V, S) -> Option<V>,
    pointerCast: (CType, V, S) -> Option<V>,
    locate: (bool, Elem, S) -> Option<V>,
    isArray: Elem -> bool,
    decay: (Elem, S) -> Option<V>,
    sizeOfTarget: V -> V,
    sizeOfVar: Elem -> V,
    sizeOfValue: V -> V,
    sizeOfType: CType -> V)

  /** Operators whose operands are coerced from arrays to pointers without being fetched. */
  predicate Coerces(op: Opcode) {
    op == BINOP_ADD || op == BINOP_SUB || op == BINOP_SUBSCRIPT
  }

  /** In type-only mode these are given their operands' type rather than computed. */
  predicate Shapes(op: Opcode, m: NoSide) {
    m.AvoidSideEffects? && (op == BINOP_DIV || op == BINOP_SUBSCRIPT || op == BINOP_REPEAT)
  }

  predicate Steps(op: Opcode) {
    op == UNOP_PREINCREMENT || op == UNOP_PREDECREMENT || op == UNOP_POSTINCREMENT || op == UNOP_POSTDECREMENT
  }

  function StepOp(op: Opcode): Opcode {
    if op == UNOP_PREINCREMENT || op == UNOP_POSTINCREMENT then BINOP_ADD else BINOP_SUB
  }

  function Pure<V, S>(v: Option<V>, s: S): Option<(V, S)> {
    match v
    case None => None
    case Some(x) => Some((x, s))
  }

  // ----- the evaluator's modes, on trees -----

  function Eval<V, S>(tg: Target<V, S>, t: Tree, m: NoSide, s: S): Option<(V, S)>
    decreases t, 2
  {
    match t
    case Const(op, ty, v) => Some((tg.constant(op, ty, v), s))
    case Leaf(op, arg) =>
      if op == OP_VAR_VALUE && m.Skip? then Some((tg.one, s))
      else if op == OP_VAR_VALUE && m.AvoidSideEffects? then Some((tg.leafShape(arg), s))
      else Pure(tg.leaf(op, arg, s), s)
    case StrLit(str) => if m.Skip? then Some((tg.one, s)) else tg.makeString(str, s)
    case Scope(ty, name) => Pure(tg.staticField(ty, name, s), s)
    case This => Pure(tg.thisValue(s), s)
    case Unary(op, e) =>
      if op == UNOP_ADDR && !m.Skip? then EvalAddress(tg, e, m, s)
      else if op == UNOP_SIZEOF && !m.Skip? then EvalSizeof(tg, e, s)
      else
        var (v, s1) :- Eval(tg, e, m, s);
        FinishUnary(tg, op, v, m, s1)
    case Typed(op, ty, e) =>
      var (v, s1) :- Eval(tg, e, m, s);
      if m.Skip? then Some((tg.one, s1))
      else Pure(tg.typed(op, op == UNOP_MEMVAL && m.AvoidSideEffects?, ty, v, s1), s1)
    case Binary(op, a, b) =>
      if op == BINOP_AND || op == BINOP_OR then
        var (va, s1) :- Eval(tg, a, m, s);
        if m.Skip? then
          var (_, s2) :- Eval(tg, b, Skip, s1);
          Some((tg.one, s2))
        else
          // the right operand's type is found first, to look for a user-defined operator
          var (_, s2) :- Eval(tg, b, AvoidSideEffects, s1);
          var decided := tg.isZero(va) == (op == BINOP_AND);
          var (vb, s3) :- Eval(tg, b, if decided then Skip else m, s2);
          Some((tg.truth(if decided then op == BINOP_OR else !tg.isZero(vb)), s3))
      else if Coerces(op) then
        var (va, s1) :- EvalCoerced(tg, a, m, s);
        var (vb, s2) :- EvalCoerced(tg, b, m, s1);
        FinishBinary(tg, op, va, vb, m, s2)
      else
        var (va, s1) :- Eval(tg, a, m, s);
        var (vb, s2) :- Eval(tg, b, m, s1);
        FinishBinary(tg, op, va, vb, m, s2)
    case AssignModify(op, a, b) =>
      var (va, s1) :- Eval(tg, a, m, s);
      var (vb, s2) :- Eval(tg, b, m, s1);
      if !m.Normal? then Some((va, s2))
      else
        var v :- tg.binary(op, false, va, vb, s2);
        tg.assign(va, v, s2)
    case Cond(c, a, b) =>
      var (vc, s1) :- Eval(tg, c, m, s);
      if tg.isZero(vc) then
        var (_, s2) :- Eval(tg, a, Skip, s1);
        Eval(tg, b, m, s2)
      else
        var (va, s2) :- Eval(tg, a, m, s1);
        var (_, s3) :- Eval(tg, b, Skip, s2);
        Some((va, s3))
    case Field(op, name, e) =>
      var (v, s1) :- Eval(tg, e, m, s);
      if m.Skip? then Some((tg.one, s1)) else Pure(tg.field(op, m.AvoidSideEffects?, name, v, s1), s1)
    case Call(f, args) =>
      var (vf, s1) :- EvalCoerced(tg, f, m, s);
      var (vs, s2) :- EvalArgs(tg, t, args, m, s1);
      if m.Skip? then Some((tg.one, s2))
      else if m.AvoidSideEffects? then Pure(tg.callShape(vf), s2)
      else tg.call(vf, vs, s2)
  }

  /** The tail of the unary cases, once the operand has its value. */
  function FinishUnary<V, S>(tg: Target<V, S>, op: Opcode, v: V, m: NoSide, s: S): Option<(V, S)> {
    if Steps(op) then
      if !m.Normal? then Some((v, s))
      else
        var stepped :- tg.binary(StepOp(op), false, v, tg.unit, s);
        var (stored, s1) :- tg.assign(v, stepped, s);
        Some((if op == UNOP_PREINCREMENT || op == UNOP_PREDECREMENT then stored else v, s1))
    else if m.Skip? then Some((tg.one, s))
    else Pure(tg.unary(op, op == UNOP_IND && m.AvoidSideEffects?, v, s), s)
  }

  function FinishBinary<V, S>(tg: Target<V, S>, op: Opcode, a: V, b: V, m: NoSide, s: S): Option<(V, S)> {
    if op == BINOP_COMMA then Some((b, s))
    else if op == BINOP_ASSIGN then (if m.Normal? then tg.assign(a, b, s) else Some((a, s)))
    else if m.Skip? then Some((tg.one, s))
    else Pure(tg.binary(op, Shapes(op, m), a, b, s), s)
  }

  function EvalArgs<V, S>(tg: Target<V, S>, ghost parent: Tree, ts: seq<Tree>, m: NoSide, s: S): (r: Option<(seq<V>, S)>)
    requires forall i :: 0 <= i < |ts| ==> ts[i] < parent
    decreases parent, 0, |ts|
  {
    if ts == [] then Some(([], s))
    else
      var (v, s1) :- EvalCoerced(tg, ts[0], m, s);
      var (vs, s2) :- EvalArgs(tg, parent, ts[1..], m, s1);
      Some(([v] + vs, s2))
  }

  function EvalCoerced<V, S>(tg: Target<V, S>, t: Tree, m: NoSide, s: S): Option<(V, S)>
    decreases t, 3
  {
    if t.Leaf? && t.lop == OP_VAR_VALUE && tg.isArray(t.arg) then Pure(tg.decay(t.arg, s), s)
    else Eval(tg, t, m, s)
  }

  function EvalAddress<V, S>(tg: Target<V, S>, t: Tree, m: NoSide, s: S): Option<(V, S)>
    decreases t, 3
  {
    if t.Unary? && t.uop == UNOP_IND then Eval(tg, t.e, m, s)
    else if t.Typed? && t.top == UNOP_MEMVAL then
      var (v, s1) :- Eval(tg, t.e, m, s);
      Pure(tg.pointerCast(t.ty, v, s1), s1)
    else if t.Leaf? && t.lop == OP_VAR_VALUE then Pure(tg.locate(m.AvoidSideEffects?, t.arg, s), s)
    else
      var (v, s1) :- Eval(tg, t, m, s);
      Pure(tg.addressOf(m.AvoidSideEffects?, v, s1), s1)
  }

  function EvalSizeof<V, S>(tg: Target<V, S>, t: Tree, s: S): Option<(V, S)>
    decreases t, 3
  {
    if t.Unary? && t.uop == UNOP_IND then
      var (v, s1) :- Eval(tg, t.e, AvoidSideEffects, s);
      Some((tg.sizeOfTarget(v), s1))
    else if t.Typed? && t.top == UNOP_MEMVAL then Some((tg.sizeOfType(t.ty), s))
    else if t.Leaf? && t.lop == OP_VAR_VALUE then Some((tg.sizeOfVar(t.arg), s))
    else
      var (v, s1) :- Eval(tg, t, AvoidSideEffects, s);
      Some((tg.sizeOfValue(v), s1))
  }

  // ----- the language's own reading -----

  /** Evaluation as C defines it: left to right, one operand of && or || or ?: left alone where its
      value is not needed.  With `checking`, the operands left alone must at least be free of
      errors when looked over, which is what eval.c adds. */
  function CEval<V, S>(tg: Target<V, S>, t: Tree, s: S, checking: bool): Option<(V, S)>
    decreases t, 2
  {
    match t
    case Const(op, ty, v) => Some((tg.constant(op, ty, v), s))
    case Leaf(op, arg) => Pure(tg.leaf(op, arg, s), s)
    case StrLit(str) => tg.makeString(str, s)
    case Scope(ty, name) => Pure(tg.staticField(ty, name, s), s)
    case This => Pure(tg.thisValue(s), s)
    case Unary(op, e) =>
      if op == UNOP_ADDR then CEvalAddress(tg, e, s, checking)
      else if op == UNOP_SIZEOF then
        // the size alone: C evaluates nothing here
        var (v, _) :- EvalSizeof(tg, e, s);
        Some((v, s))
      else
        var (v, s1) :- CEval(tg, e, s, checking);
        FinishUnary(tg, op, v, Normal, s1)
    case Typed(op, ty, e) =>
      var (v, s1) :- CEval(tg, e, s, checking);
      Pure(tg.typed(op, false, ty, v, s1), s1)
    case Binary(op, a, b) =>
      if op == BINOP_AND || op == BINOP_OR then
        var (va, s1) :- CEval(tg, a, s, checking);
        if checking && Eval(tg, b, AvoidSideEffects, s1).None? then None
        else if tg.isZero(va) == (op == BINOP_AND) then
          if checking && Eval(tg, b, Skip, s1).None? then None else Some((tg.truth(op == BINOP_OR), s1))
        else
          var (vb, s2) :- CEval(tg, b, s1, checking);
          Some((tg.truth(!tg.isZero(vb)), s2))
      else if Coerces(op) then
        var (va, s1) :- CEvalCoerced(tg, a, s, checking);
        var (vb, s2) :- CEvalCoerced(tg, b, s1, checking);
        FinishBinary(tg, op, va, vb, Normal, s2)
      else
        var (va, s1) :- CEval(tg, a, s, checking);
        var (vb, s2) :- CEval(tg, b, s1, checking);
        FinishBinary(tg, op, va, vb, Normal, s2)
    case AssignModify(op, a, b) =>
      var (va, s1) :- CEval(tg, a, s, checking);
      var (vb, s2) :- CEval(tg, b, s1, checking);
      var v :- tg.binary(op, false, va, vb, s2);
      tg.assign(va, v, s2)
    case Cond(c, a, b) =>
      var (vc, s1) :- CEval(tg, c, s, checking);
      if tg.isZero(vc) then
        if checking && Eval(tg, a, Skip, s1).None? then None else CEval(tg, b, s1, checking)
      else
        var (va, s2) :- CEval(tg, a, s1, checking);
        if checking && Eval(tg, b, Skip, s2).None? then None else Some((va, s2))
    case Field(op, name, e) =>
      var (v, s1) :- CEval(tg, e, s, checking);
      Pure(tg.field(op, false, name, v, s1), s1)
    case Call(f, args) =>
      var (vf, s1) :- CEvalCoerced(tg, f, s, checking);
      var (vs, s2) :- CEvalArgs(tg, t, args, s1, checking);
      tg.call(vf, vs, s2)
  }

  function CEvalArgs<V, S>(tg: Target<V, S>, ghost parent: Tree, ts: seq<Tree>, s: S, checking: bool): Option<(seq<V>, S)>
    requires forall i :: 0 <= i < |ts| ==> ts[i] < parent
    decreases parent, 0, |ts|
  {
    if ts == [] then Some(([], s))
    else
      var (v, s1) :- CEvalCoerced(tg, ts[0], s, checking);
      var (vs, s2) :- CEvalArgs(tg, parent, ts[1..], s1, checking);
      Some(([v] + vs, s2))
  }

  function CEvalCoerced<V, S>(tg: Target<V, S>, t: Tree, s: S, checking: bool): Option<(V, S)>
    decreases t, 3
  {
    if t.Leaf? && t.lop == OP_VAR_VALUE && tg.isArray(t.arg) then Pure(tg.decay(t.arg, s), s)
    else CEval(tg, t, s, checking)
  }

  function CEvalAddress<V, S>(tg: Target<V, S>, t: Tree, s: S, checking: bool): Option<(V, S)>
    decreases t, 3
  {
    if t.Unary? && t.uop == UNOP_IND then CEval(tg, t.e, s, checking)
    else if t.Typed? && t.top == UNOP_MEMVAL then
      var (v, s1) :- CEval(tg, t.e, s, checking);
      Pure(tg.pointerCast(t.ty, v, s1), s1)
    else if t.Leaf? && t.lop == OP_VAR_VALUE then Pure(tg.locate(false, t.arg, s), s)
    else
      var (v, s1) :- CEval(tg, t, s, checking);
      Pure(tg.addressOf(false, v, s1), s1)
  }

  // ----- the trees with evaluation rules -----

  /** Left out: method calls and pointers to members, `&` of a scope and `sizeof {T} e`, which leave
      the evaluator's cursor short, and operators with no evaluation rule. */
  predicate HeadEvaluable(t: Tree) {
    && (t.Unary? && t.uop == UNOP_ADDR ==> !t.e.Scope?)
    && (t.Unary? && t.uop == UNOP_SIZEOF ==> !(t.e.Typed? && t.e.top == UNOP_MEMVAL))
    && (t.Call? ==> !t.f.Field? && !(t.f.Binary? && (t.f.bop == STRUCTOP_MEMBER || t.f.bop == STRUCTOP_MPTR)))
    && (t.Binary? ==> t.bop < BINOP_EXP)
  }

  predicate Evaluable(t: Tree) {
    HeadEvaluable(t) && forall i :: 0 <= i < |Args(t)| ==> Evaluable(Args(t)[i])
  }

  lemma EvaluableParts(t: Tree)
    requires Evaluable(t)
    ensures HeadEvaluable(t)
    ensures t.Unary? || t.Typed? || t.Field? ==> Evaluable(t.e)
    ensures t.Binary? || t.AssignModify? || t.Cond? ==> Evaluable(t.a) && Evaluable(t.b)
    ensures t.Cond? ==> Evaluable(t.c)
    ensures t.Call? ==> Evaluable(t.f) && forall i :: 0 <= i < |t.args| ==> Evaluable(t.args[i])
  {
    hide HeadEvaluable;
    var ps := Args(t);
    assert |ps| > 0 ==> Evaluable(ps[0]);
    assert |ps| > 1 ==> Evaluable(ps[1]);
    assert |ps| > 2 ==> Evaluable(ps[2]);
    if t.Call? {
      forall i | 0 <= i < |t.args|
        ensures Evaluable(t.args[i])
      {
        assert ps[i + 1] == t.args[i];
      }
    }
  }

  // ----- skipping and type-only evaluation leave the program alone -----

  /** Skipping a subexpression changes nothing. */
  lemma {:induction false} SkipKeepsState<V, S>(tg: Target<V, S>, t: Tree, s: S)
    ensures Eval(tg, t, Skip, s).Some? ==> Eval(tg, t, Skip, s).value.1 == s
    decreases t, 1
  {
    match t
    case Unary(_, e) => SkipKeepsState(tg, e, s);
    case Typed(_, _, e) => SkipKeepsState(tg, e, s);
    case Binary(_, a, b) => SkipKeepsState(tg, a, s); SkipKeepsState(tg, b, s);
    case AssignModify(_, a, b) => SkipKeepsState(tg, a, s); SkipKeepsState(tg, b, s);
    case Cond(c, a, b) => SkipKeepsState(tg, c, s); SkipKeepsState(tg, a, s); SkipKeepsState(tg, b, s);
    case Field(_, _, e) => SkipKeepsState(tg, e, s);
    case Call(f, args) => SkipKeepsState(tg, f, s); SkipArgsKeepsState(tg, t, args, s);
    case _ =>
  }

  lemma {:induction false} SkipArgsKeepsState<V, S>(tg: Target<V, S>, parent: Tree, ts: seq<Tree>, s: S)
    requires forall i :: 0 <= i < |ts| ==> ts[i] < parent
    ensures EvalArgs(tg, parent, ts, Skip, s).Some? ==> EvalArgs(tg, parent, ts, Skip, s).value.1 == s
    decreases parent, 0, |ts|
  {
    if ts != [] {
      SkipKeepsState(tg, ts[0], s);
      SkipArgsKeepsState(tg, parent, ts[1..], s);
    }
  }

  /** No string literals: making one calls malloc in the inferior, in every mode but skipping. */
  predicate StringFree(t: Tree) {
    !t.StrLit? && forall i :: 0 <= i < |Args(t)| ==> StringFree(Args(t)[i])
  }

  lemma StringFreeParts(t: Tree)
    ensures StringFree(t) <==>
      match t
      case Unary(_, e) => StringFree(e)
      case Typed(_, _, e) => StringFree(e)
      case Binary(_, a, b) => StringFree(a) && StringFree(b)
      case AssignModify(_, a, b) => StringFree(a) && StringFree(b)
      case Cond(c, a, b) => StringFree(c) && StringFree(a) && StringFree(b)
      case Field(_, _, e) => StringFree(e)
      case Call(f, args) => StringFree(f) && forall i :: 0 <= i < |args| ==> StringFree(args[i])
      case StrLit(_) => false
      case _ => true
  {
    var ps := Args(t);
    if t.Call? {
      StringFreeCall(t);
    } else {
      assert |ps| > 0 && StringFree(t) ==> StringFree(ps[0]);
      assert |ps| > 1 && StringFree(t) ==> StringFree(ps[1]);
      assert |ps| > 2 && StringFree(t) ==> StringFree(ps[2]);
    }
  }

  lemma StringFreeCall(t: Tree)
    requires t.Call?
    ensures StringFree(t) <==> StringFree(t.f) && forall i :: 0 <= i < |t.args| ==> StringFree(t.args[i])
  {
    var ps := Args(t);
    assert ps[0] == t.f && forall i :: 0 <= i < |t.args| ==> ps[i + 1] == t.args[i];
  }

  /** Without strings, finding an expression's type changes nothing. */
  lemma {:induction false} AvoidKeepsState<V, S>(tg: Target<V, S>, t: Tree, s: S)
    requires StringFree(t)
    ensures Eval(tg, t, AvoidSideEffects, s).Some? ==> Eval(tg, t, AvoidSideEffects, s).value.1 == s
    decreases t, 1
  {
    StringFreeParts(t);
    match t
    case Unary(op, e) =>
      AvoidKeepsState(tg, e, s);
      if op == UNOP_ADDR { AvoidAddressKeepsState(tg, e, s); }
      if op == UNOP_SIZEOF { SizeofKeepsState(tg, e, s); }
    case Typed(_, _, e) => AvoidKeepsState(tg, e, s);
    case Binary(_, a, b) => AvoidKeepsState(tg, a, s); AvoidKeepsState(tg, b, s); SkipKeepsState(tg, b, s);
    case AssignModify(_, a, b) => AvoidKeepsState(tg, a, s); AvoidKeepsState(tg, b, s);
    case Cond(c, a, b) =>
      AvoidKeepsState(tg, c, s); AvoidKeepsState(tg, a, s); AvoidKeepsState(tg, b, s);
      SkipKeepsState(tg, a, s); SkipKeepsState(tg, b, s);
    case Field(_, _, e) => AvoidKeepsState(tg, e, s);
    case Call(f, args) => AvoidKeepsState(tg, f, s); AvoidArgsKeepsState(tg, t, args, s);
    case _ =>
  }

  lemma {:induction false} AvoidArgsKeepsState<V, S>(tg: Target<V, S>, parent: Tree, ts: seq<Tree>, s: S)
    requires forall i :: 0 <= i < |ts| ==> ts[i] < parent && StringFree(ts[i])
    ensures EvalArgs(tg, parent, ts, AvoidSideEffects, s).Some? ==> EvalArgs(tg, parent, ts, AvoidSideEffects, s).value.1 == s
    decreases parent, 0, |ts|
  {
    if ts != [] {
      AvoidKeepsState(tg, ts[0], s);
      AvoidArgsKeepsState(tg, parent, ts[1..], s);
    }
  }

  lemma AvoidAddressKeepsState<V, S>(tg: Target<V, S>, t: Tree, s: S)
    requires StringFree(t)
    ensures EvalAddress(tg, t, AvoidSideEffects, s).Some? ==> EvalAddress(tg, t, AvoidSideEffects, s).value.1 == s
    decreases t, 2
  {
    StringFreeParts(t);
    AvoidKeepsState(tg, t, s);
    if t.Unary? || t.Typed? { AvoidKeepsState(tg, t.e, s); }
  }

  lemma SizeofKeepsState<V, S>(tg: Target<V, S>, t: Tree, s: S)
    requires StringFree(t)
    ensures EvalSizeof(tg, t, s).Some? ==> EvalSizeof(tg, t, s).value.1 == s
    decreases t, 2
  {
    StringFreeParts(t);
    AvoidKeepsState(tg, t, s);
    if t.Unary? || t.Typed? { AvoidKeepsState(tg, t.e, s); }
  }

  /** No conditional: every part of the tree has its type found when the whole has. */
  predicate CondFree(t: Tree) {
    !t.Cond? && forall i :: 0 <= i < |Args(t)| ==> CondFree(Args(t)[i])
  }

  /** What the parts inherit from a tree to be evaluated by counting. */
  lemma CountableParts(t: Tree)
    requires CondFree(t) && Evaluable(t)
    ensures !t.Cond? && HeadEvaluable(t)
    ensures t.Unary? || t.Typed? || t.Field? ==> CondFree(t.e) && Evaluable(t.e)
    ensures t.Binary? || t.AssignModify? ==> CondFree(t.a) && Evaluable(t.a) && CondFree(t.b) && Evaluable(t.b)
    ensures t.Call? ==> CondFree(t.f) && Evaluable(t.f)
    ensures t.Call? ==> forall i :: 0 <= i < |t.args| ==> CondFree(t.args[i]) && Evaluable(t.args[i])
  {
    EvaluableParts(t);
    hide Evaluable, HeadEvaluable;
    var ps := Args(t);
    assert |ps| > 0 ==> CondFree(ps[0]);
    assert |ps| > 1 ==> CondFree(ps[1]);
    if t.Call? {
      forall i | 0 <= i < |t.args|
        ensures CondFree(t.args[i])
      {
        assert ps[i + 1] == t.args[i];
      }
    }
  }

  /** A program whose state is how many strings it has been asked to make, and in which all values
      are zero. */
  function Counting(): Target<int, int> {
    Target(
      (_, _, _) => 0, (_, _, _) => Some(0), _ => 0, (_, _, _) => Some(0), _ => Some(0), (_, s) => Some((0, s + 1)),
      0, 0, _ => 0, _ => true, (_, _, _, _) => Some(0), (_, _, _, _, _) => Some(0), (_, _, _, _, _) => Some(0),
      (_, _, _, _, _) => Some(0), (_, _, s) => Some((0, s)), (_, _, s) => Some((0, s)), _ => Some(0),
      (_, _, _) => Some(0), (_, _, _) => Some(0), (_, _, _) => Some(0), _ => false, (_, _) => Some(0),
      _ => 0, _ => 0, _ => 0, _ => 0)
  }

  /** From s and from u alike, `r` and `q` have the value zero and as many strings more, some exactly if not `free`. */
  predicate Makes(r: Option<(int, int)>, s: int, q: Option<(int, int)>, u: int, free: bool) {
    && r.Some? && q.Some? && r.value.0 == 0 && q.value.0 == 0
    && r.value.1 - s == q.value.1 - u && (if free then r.value.1 == s else r.value.1 > s)
  }

  /** Skipping makes no strings, and always succeeds here. */
  lemma {:induction false} SkipMakesNone(t: Tree, s: int)
    requires CondFree(t) && Evaluable(t)
    ensures Eval(Counting(), t, Skip, s) == Some((0, s))
    decreases t, 1
  {
    CountableParts(t);
    hide CondFree, Evaluable;
    match t
    case Unary(_, e) => SkipMakesNone(e, s);
    case Typed(_, _, e) => SkipMakesNone(e, s);
    case Binary(_, a, b) => SkipMakesNone(a, s); SkipMakesNone(b, s);
    case AssignModify(_, a, b) => SkipMakesNone(a, s); SkipMakesNone(b, s);
    case Field(_, _, e) => SkipMakesNone(e, s);
    case Call(f, args) => SkipMakesNone(f, s); SkipArgsMakeNone(t, args, s);
    case _ =>
  }

  lemma {:induction false} SkipArgsMakeNone(parent: Tree, ts: seq<Tree>, s: int)
    requires forall i :: 0 <= i < |ts| ==> ts[i] < parent && CondFree(ts[i]) && Evaluable(ts[i])
    ensures var r := EvalArgs(Counting(), parent, ts, Skip, s); r.Some? && r.value.1 == s
    decreases parent, 0, |ts|
  {
    if ts != [] {
      SkipMakesNone(ts[0], s);
      SkipArgsMakeNone(parent, ts[1..], s);
    }
  }

  /** Finding a type makes some strings exactly if the tree has some. */
  lemma {:induction false} AvoidMakes(t: Tree, s: int, u: int)
    requires CondFree(t) && Evaluable(t)
    ensures Makes(Eval(Counting(), t, AvoidSideEffects, s), s, Eval(Counting(), t, AvoidSideEffects, u), u, StringFree(t))
    decreases t, 1
  {
    CountableParts(t);
    StringFreeParts(t);
    hide CondFree, Evaluable, StringFree;
    match t
    case Unary(_, _) => AvoidUnaryMakes(t, s, u);
    case Typed(_, _, e) => AvoidMakes(e, s, u);
    case Binary(_, _, _) => AvoidBinaryMakes(t, s, u);
    case AssignModify(_, a, b) =>
      AvoidMakes(a, s, u);
      AvoidMakes(b, AvoidState(a, s), AvoidState(a, u));
    case Field(_, _, e) => AvoidMakes(e, s, u);
    case Call(f, args) =>
      AvoidMakes(f, s, u);
      AvoidArgsMake(t, args, AvoidState(f, s), AvoidState(f, u));
    case _ =>
  }

  lemma {:induction false} AvoidUnaryMakes(t: Tree, s: int, u: int)
    requires CondFree(t) && Evaluable(t) && t.Unary?
    ensures Makes(Eval(Counting(), t, AvoidSideEffects, s), s, Eval(Counting(), t, AvoidSideEffects, u), u, StringFree(t))
    decreases t, 0
  {
    CountableParts(t);
    StringFreeParts(t);
    hide CondFree, Evaluable, StringFree;
    if t.uop == UNOP_ADDR {
      AvoidAddressMakes(t.e, s, u);
    } else if t.uop == UNOP_SIZEOF {
      SizeofMakes(t.e, s, u);
    } else {
      AvoidMakes(t.e, s, u);
    }
  }

  lemma {:induction false} AvoidBinaryMakes(t: Tree, s: int, u: int)
    requires CondFree(t) && Evaluable(t) && t.Binary?
    ensures Makes(Eval(Counting(), t, AvoidSideEffects, s), s, Eval(Counting(), t, AvoidSideEffects, u), u, StringFree(t))
    decreases t, 0
  {
    CountableParts(t);
    StringFreeParts(t);
    hide CondFree, Evaluable, StringFree, Shapes;
    AvoidMakes(t.a, s, u);
    var s1, u1 := AvoidState(t.a, s), AvoidState(t.a, u);
    AvoidMakes(t.b, s1, u1);
    if t.bop == BINOP_AND || t.bop == BINOP_OR {
      var s2, u2 := AvoidState(t.b, s1), AvoidState(t.b, u1);
      SkipMakesNone(t.b, s2);
      SkipMakesNone(t.b, u2);
      AvoidMakes(t.b, s2, u2);
    }
  }

  /** The state in which finding a type leaves the counting program. */
  function AvoidState(t: Tree, s: int): int {
    var r := Eval(Counting(), t, AvoidSideEffects, s);
    if r.Some? then r.value.1 else s
  }

  lemma {:induction false} AvoidArgsMake(parent: Tree, ts: seq<Tree>, s: int, u: int)
    requires forall i :: 0 <= i < |ts| ==> ts[i] < parent && CondFree(ts[i]) && Evaluable(ts[i])
    ensures var r := EvalArgs(Counting(), parent, ts, AvoidSideEffects, s);
      var q := EvalArgs(Counting(), parent, ts, AvoidSideEffects, u);
      && r.Some? && q.Some? && r.value.1 - s == q.value.1 - u
      && if forall i :: 0 <= i < |ts| ==> StringFree(ts[i]) then r.value.1 == s else r.value.1 > s
    decreases parent, 0, |ts|
  {
    if ts != [] {
      AvoidMakes(ts[0], s, u);
      AvoidArgsMake(parent, ts[1..], AvoidState(ts[0], s), AvoidState(ts[0], u));
    }
  }

  lemma AvoidAddressMakes(t: Tree, s: int, u: int)
    requires CondFree(t) && Evaluable(t) && !t.Scope?
    ensures Makes(EvalAddress(Counting(), t, AvoidSideEffects, s), s, EvalAddress(Counting(), t, AvoidSideEffects, u), u, StringFree(t))
    decreases t, 2
  {
    CountableParts(t);
    StringFreeParts(t);
    hide CondFree, Evaluable, StringFree;
    AvoidMakes(t, s, u);
    if t.Unary? || t.Typed? { AvoidMakes(t.e, s, u); }
  }

  lemma SizeofMakes(t: Tree, s: int, u: int)
    requires CondFree(t) && Evaluable(t) && !(t.Typed? && t.top == UNOP_MEMVAL)
    ensures Makes(EvalSizeof(Counting(), t, s), s, EvalSizeof(Counting(), t, u), u, StringFree(t))
    decreases t, 2
  {
    CountableParts(t);
    StringFreeParts(t);
    hide CondFree, Evaluable, StringFree;
    AvoidMakes(t, s, u);
    if t.Unary? { AvoidMakes(t.e, s, u); }
  }

  ghost predicate TypingKeepsState(tg: Target<int, int>, t: Tree, s: int) {
    Eval(tg, t, AvoidSideEffects, s).Some? ==> Eval(tg, t, AvoidSideEffects, s).value.1 == s
  }

  /** Finding the type of an expression without ?: leaves every program in every state alone exactly if
      the expression holds no string literal. */
  lemma TypingKeepsStateExactly(t: Tree)
    requires CondFree(t) && Evaluable(t)
    ensures (forall tg, s :: TypingKeepsState(tg, t, s)) <==> StringFree(t)
  {
    if StringFree(t) {
      forall tg: Target<int, int>, s: int
        ensures TypingKeepsState(tg, t, s)
      {
        AvoidKeepsState(tg, t, s);
      }
    } else {
      AvoidMakes(t, 0, 0);
      assert !TypingKeepsState(Counting(), t, 0);
    }
  }

  /** With ?: a string literal may be where no program comes to it: `x ? (x ? n : "s") : n`. */
  lemma ConditionsCanHideStrings<V, S>(tg: Target<V, S>, x: Elem, ty: CType, n: Elem, str: string, s: S)
    ensures var v, k := Leaf(OP_VAR_VALUE, x), Const(OP_LONG, ty, n);
      var t := Cond(v, Cond(v, k, StrLit(str)), k);
      !StringFree(t) && Eval(tg, t, AvoidSideEffects, s).Some? && Eval(tg, t, AvoidSideEffects, s).value.1 == s
  {
    var v, k := Leaf(OP_VAR_VALUE, x), Const(OP_LONG, ty, n);
    var inner := Cond(v, k, StrLit(str));
    StringFreeParts(inner);
    StringFreeParts(Cond(v, inner, k));
    assert Eval(tg, v, AvoidSideEffects, s) == Some((tg.leafShape(x), s)) && Eval(tg, v, Skip, s) == Some((tg.one, s));
    assert Eval(tg, k, AvoidSideEffects, s) == Some((tg.constant(OP_LONG, ty, n), s)) == Eval(tg, k, Skip, s);
    assert Eval(tg, StrLit(str), Skip, s) == Some((tg.one, s));
    assert Eval(tg, inner, Skip, s).Some?;
    SkipKeepsState(tg, inner, s);
    assert !tg.isZero(tg.leafShape(x)) ==> Eval(tg, inner, AvoidSideEffects, s) == Some((tg.constant(OP_LONG, ty, n), s));
  }

  // ----- normal evaluation is C's -----

  /** No string literals under sizeof, nor in operands that && and || look over before deciding to
      evaluate them. */
  predicate GuardsStringFree(t: Tree) {
    && (t.Binary? && (t.bop == BINOP_AND || t.bop == BINOP_OR) ==> StringFree(t.b))
    && (t.Unary? && t.uop == UNOP_SIZEOF ==> StringFree(t.e))
    && ((t.Unary? && t.uop == UNOP_SIZEOF) || forall i :: 0 <= i < |Args(t)| ==> GuardsStringFree(Args(t)[i]))
  }

  lemma GuardsStringFreeParts(t: Tree)
    ensures GuardsStringFree(t) <==>
      match t
      case Unary(op, e) => if op == UNOP_SIZEOF then StringFree(e) else GuardsStringFree(e)
      case Typed(_, _, e) => GuardsStringFree(e)
      case Binary(op, a, b) =>
        GuardsStringFree(a) && GuardsStringFree(b) && (op == BINOP_AND || op == BINOP_OR ==> StringFree(b))
      case AssignModify(_, a, b) => GuardsStringFree(a) && GuardsStringFree(b)
      case Cond(c, a, b) => GuardsStringFree(c) && GuardsStringFree(a) && GuardsStringFree(b)
      case Field(_, _, e) => GuardsStringFree(e)
      case Call(f, args) => GuardsStringFree(f) && forall i :: 0 <= i < |args| ==> GuardsStringFree(args[i])
      case _ => true
  {
    var ps := Args(t);
    if t.Call? {
      GuardsStringFreeCall(t);
    } else if !(t.Unary? && t.uop == UNOP_SIZEOF) {
      assert |ps| > 0 && GuardsStringFree(t) ==> GuardsStringFree(ps[0]);
      assert |ps| > 1 && GuardsStringFree(t) ==> GuardsStringFree(ps[1]);
      assert |ps| > 2 && GuardsStringFree(t) ==> GuardsStringFree(ps[2]);
    }
  }

  lemma GuardsStringFreeCall(t: Tree)
    requires t.Call?
    ensures GuardsStringFree(t) <==> GuardsStringFree(t.f) && forall i :: 0 <= i < |t.args| ==> GuardsStringFree(t.args[i])
  {
    var ps := Args(t);
    assert ps[0] == t.f && forall i :: 0 <= i < |t.args| ==> ps[i + 1] == t.args[i];
  }

  /** Normal evaluation is C evaluation that also looks over the operands C leaves alone: the value,
      the final state and the failures are the same. */
  lemma {:induction false} NormalIsCheckedC<V, S>(tg: Target<V, S>, t: Tree, s: S)
    requires GuardsStringFree(t)
    ensures Eval(tg, t, Normal, s) == CEval(tg, t, s, true)
    decreases t, 1
  {
    GuardsStringFreeParts(t);
    match t
    case Unary(op, e) =>
      if op == UNOP_ADDR {
        NormalAddressIsCheckedC(tg, e, s);
      } else if op == UNOP_SIZEOF {
        SizeofKeepsState(tg, e, s);
      } else {
        NormalIsCheckedC(tg, e, s);
      }
    case Typed(_, _, e) => NormalIsCheckedC(tg, e, s);
    case Binary(op, a, b) =>
      NormalIsCheckedC(tg, a, s);
      if op == BINOP_AND || op == BINOP_OR {
        GuardIsCheckedC(tg, op, a, b, s);
      } else {
        var ra := if Coerces(op) then EvalCoerced(tg, a, Normal, s) else Eval(tg, a, Normal, s);
        if ra.Some? {
          NormalIsCheckedC(tg, b, ra.value.1);
        }
      }
    case AssignModify(_, a, b) =>
      NormalIsCheckedC(tg, a, s);
      var ra := Eval(tg, a, Normal, s);
      if ra.Some? {
        NormalIsCheckedC(tg, b, ra.value.1);
      }
    case Cond(c, a, b) =>
      NormalIsCheckedC(tg, c, s);
      var rc := Eval(tg, c, Normal, s);
      if rc.Some? {
        SkipKeepsState(tg, a, rc.value.1);
        NormalIsCheckedC(tg, a, rc.value.1);
        NormalIsCheckedC(tg, b, rc.value.1);
        var ra := Eval(tg, a, Normal, rc.value.1);
        if ra.Some? {
          SkipKeepsState(tg, b, ra.value.1);
        }
      }
    case Field(_, _, e) => NormalIsCheckedC(tg, e, s);
    case Call(f, args) =>
      NormalIsCheckedC(tg, f, s);
      var rf := EvalCoerced(tg, f, Normal, s);
      if rf.Some? {
        NormalArgsAreCheckedC(tg, t, args, rf.value.1);
      }
    case _ =>
  }

  lemma {:induction false} GuardIsCheckedC<V, S>(tg: Target<V, S>, op: Opcode, a: Tree, b: Tree, s: S)
    requires (op == BINOP_AND || op == BINOP_OR) && StringFree(b) && GuardsStringFree(b)
    requires Eval(tg, a, Normal, s) == CEval(tg, a, s, true)
    ensures Eval(tg, Binary(op, a, b), Normal, s) == CEval(tg, Binary(op, a, b), s, true)
    decreases b, 2
  {
    var ra := Eval(tg, a, Normal, s);
    if ra.Some? {
      AvoidKeepsState(tg, b, ra.value.1);
      SkipKeepsState(tg, b, ra.value.1);
      NormalIsCheckedC(tg, b, ra.value.1);
    }
  }

  lemma {:induction false} NormalArgsAreCheckedC<V, S>(tg: Target<V, S>, parent: Tree, ts: seq<Tree>, s: S)
    requires forall i :: 0 <= i < |ts| ==> ts[i] < parent && GuardsStringFree(ts[i])
    ensures EvalArgs(tg, parent, ts, Normal, s) == CEvalArgs(tg, parent, ts, s, true)
    decreases parent, 0, |ts|
  {
    if ts != [] {
      NormalIsCheckedC(tg, ts[0], s);
      var r := EvalCoerced(tg, ts[0], Normal, s);
      if r.Some? {
        NormalArgsAreCheckedC(tg, parent, ts[1..], r.value.1);
      }
    }
  }

  lemma NormalAddressIsCheckedC<V, S>(tg: Target<V, S>, t: Tree, s: S)
    requires GuardsStringFree(t)
    ensures EvalAddress(tg, t, Normal, s) == CEvalAddress(tg, t, s, true)
    decreases t, 2
  {
    GuardsStringFreeParts(t);
    NormalIsCheckedC(tg, t, s);
    if (t.Unary? && t.uop == UNOP_IND) || t.Typed? { NormalIsCheckedC(tg, t.e, s); }
  }

  /** Looking over the unused operands can only add failures: whatever is computed is C's answer. */
  lemma {:induction false} CheckedRefinesC<V, S>(tg: Target<V, S>, t: Tree, s: S)
    ensures CEval(tg, t, s, true).Some? ==> CEval(tg, t, s, true) == CEval(tg, t, s, false)
    decreases t, 1
  {
    match t
    case Unary(op, e) =>
      if op == UNOP_ADDR {
        CheckedAddressRefinesC(tg, e, s);
      } else if op != UNOP_SIZEOF {
        CheckedRefinesC(tg, e, s);
      }
    case Typed(_, _, e) => CheckedRefinesC(tg, e, s);
    case Binary(op, a, b) =>
      CheckedRefinesC(tg, a, s);
      var ra := if Coerces(op) then CEvalCoerced(tg, a, s, true) else CEval(tg, a, s, true);
      if ra.Some? {
        CheckedRefinesC(tg, b, ra.value.1);
      }
    case AssignModify(_, a, b) =>
      CheckedRefinesC(tg, a, s);
      var ra := CEval(tg, a, s, true);
      if ra.Some? {
        CheckedRefinesC(tg, b, ra.value.1);
      }
    case Cond(c, a, b) =>
      CheckedRefinesC(tg, c, s);
      var rc := CEval(tg, c, s, true);
      if rc.Some? {
        CheckedRefinesC(tg, a, rc.value.1);
        CheckedRefinesC(tg, b, rc.value.1);
      }
    case Field(_, _, e) => CheckedRefinesC(tg, e, s);
    case Call(f, args) =>
      CheckedRefinesC(tg, f, s);
      var rf := CEvalCoerced(tg, f, s, true);
      if rf.Some? {
        CheckedArgsRefineC(tg, t, args, rf.value.1);
      }
    case _ =>
  }

  lemma {:induction false} CheckedArgsRefineC<V, S>(tg: Target<V, S>, parent: Tree, ts: seq<Tree>, s: S)
    requires forall i :: 0 <= i < |ts| ==> ts[i] < parent
    ensures CEvalArgs(tg, parent, ts, s, true).Some? ==> CEvalArgs(tg, parent, ts, s, true) == CEvalArgs(tg, parent, ts, s, false)
    decreases parent, 0, |ts|
  {
    if ts != [] {
      CheckedRefinesC(tg, ts[0], s);
      var r := CEvalCoerced(tg, ts[0], s, true);
      if r.Some? {
        CheckedArgsRefineC(tg, parent, ts[1..], r.value.1);
      }
    }
  }

  lemma CheckedAddressRefinesC<V, S>(tg: Target<V, S>, t: Tree, s: S)
    ensures CEvalAddress(tg, t, s, true).Some? ==> CEvalAddress(tg, t, s, true) == CEvalAddress(tg, t, s, false)
    decreases t, 2
  {
    CheckedRefinesC(tg, t, s);
    if t.Unary? || t.Typed? { CheckedRefinesC(tg, t.e, s); }
  }

  /** Whatever normal evaluation returns, value and final state, is what C says. */
  lemma NormalRefinesC<V, S>(tg: Target<V, S>, t: Tree, s: S)
    requires GuardsStringFree(t)
    ensures Eval(tg, t, Normal, s).Some? ==> Eval(tg, t, Normal, s) == CEval(tg, t, s, false)
  {
    NormalIsCheckedC(tg, t, s);
    CheckedRefinesC(tg, t, s);
  }

  // ----- and only where no guarded operand, and no operand of sizeof, holds a string -----

  lemma {:induction false} StringFreeGuards(t: Tree)
    requires StringFree(t)
    ensures GuardsStringFree(t)
  {
    forall i | 0 <= i < |Args(t)|
      ensures GuardsStringFree(Args(t)[i])
    {
      StringFreeGuards(Args(t)[i]);
    }
    if t.Binary? { assert Args(t)[1] == t.b; }
    if t.Unary? { assert Args(t)[0] == t.e; }
  }

  /** Both succeed with the value zero, `r` having made at least as many strings, or `strict`ly more. */
  predicate Ahead(r: Option<(int, int)>, q: Option<(int, int)>, strict: bool) {
    && r.Some? && q.Some? && r.value.0 == 0 && q.value.0 == 0
    && q.value.1 <= r.value.1 && (strict ==> q.value.1 < r.value.1)
  }

  function NormalState(t: Tree, s: int): int {
    var r := Eval(Counting(), t, Normal, s);
    if r.Some? then r.value.1 else s
  }

  function CState(t: Tree, u: int, checking: bool): int {
    var r := CEval(Counting(), t, u, checking);
    if r.Some? then r.value.1 else u
  }

  /** Normal evaluation makes no fewer strings than C, and more if a guarded operand or one of sizeof
      holds one. */
  lemma {:induction false} NormalMakesMore(t: Tree, s: int, u: int, checking: bool)
    requires CondFree(t) && Evaluable(t) && u <= s
    ensures Ahead(Eval(Counting(), t, Normal, s), CEval(Counting(), t, u, checking), u < s || !GuardsStringFree(t))
    decreases t, 1
  {
    CountableParts(t);
    GuardsStringFreeParts(t);
    hide CondFree, Evaluable, StringFree, GuardsStringFree;
    match t
    case Unary(_, _) => UnaryMakesMore(t, s, u, checking);
    case Typed(_, _, e) => NormalMakesMore(e, s, u, checking);
    case Binary(op, _, _) =>
      if op == BINOP_AND || op == BINOP_OR {
        GuardMakesMore(t, s, u, checking);
      } else {
        BinaryMakesMore(t, s, u, checking);
      }
    case AssignModify(_, _, _) => AssignMakesMore(t, s, u, checking);
    case Field(_, _, e) => NormalMakesMore(e, s, u, checking);
    case Call(f, args) =>
      NormalMakesMore(f, s, u, checking);
      NormalArgsMakeMore(t, args, NormalState(f, s), CState(f, u, checking), checking);
    case _ =>
  }

  lemma {:induction false} UnaryMakesMore(t: Tree, s: int, u: int, checking: bool)
    requires CondFree(t) && Evaluable(t) && u <= s && t.Unary?
    ensures Ahead(Eval(Counting(), t, Normal, s), CEval(Counting(), t, u, checking), u < s || !GuardsStringFree(t))
    decreases t, 0
  {
    CountableParts(t);
    GuardsStringFreeParts(t);
    hide CondFree, Evaluable, StringFree, GuardsStringFree;
    if t.uop == UNOP_ADDR {
      NormalAddressMakesMore(t.e, s, u, checking);
    } else if t.uop == UNOP_SIZEOF {
      SizeofMakes(t.e, s, u);
    } else {
      NormalMakesMore(t.e, s, u, checking);
    }
  }

  lemma {:induction false} AssignMakesMore(t: Tree, s: int, u: int, checking: bool)
    requires CondFree(t) && Evaluable(t) && u <= s && t.AssignModify?
    ensures Ahead(Eval(Counting(), t, Normal, s), CEval(Counting(), t, u, checking), u < s || !GuardsStringFree(t))
    decreases t, 0
  {
    CountableParts(t);
    GuardsStringFreeParts(t);
    hide CondFree, Evaluable, StringFree, GuardsStringFree;
    NormalMakesMore(t.a, s, u, checking);
    NormalMakesMore(t.b, NormalState(t.a, s), CState(t.a, u, checking), checking);
  }

  lemma {:induction false} GuardMakesMore(t: Tree, s: int, u: int, checking: bool)
    requires CondFree(t) && Evaluable(t) && u <= s && t.Binary? && (t.bop == BINOP_AND || t.bop == BINOP_OR)
    ensures Ahead(Eval(Counting(), t, Normal, s), CEval(Counting(), t, u, checking), u < s || !GuardsStringFree(t))
    decreases t, 0
  {
    CountableParts(t);
    GuardsStringFreeParts(t);
    if StringFree(t.b) { StringFreeGuards(t.b); }
    hide CondFree, Evaluable, StringFree, GuardsStringFree;
    NormalMakesMore(t.a, s, u, checking);
    var s1, u1 := NormalState(t.a, s), CState(t.a, u, checking);
    AvoidMakes(t.b, s1, u1);
    var s2 := AvoidState(t.b, s1);
    SkipMakesNone(t.b, s2);
    SkipMakesNone(t.b, u1);
    NormalMakesMore(t.b, s2, u1, checking);
  }

  lemma {:induction false} BinaryMakesMore(t: Tree, s: int, u: int, checking: bool)
    requires CondFree(t) && Evaluable(t) && u <= s && t.Binary? && t.bop != BINOP_AND && t.bop != BINOP_OR
    ensures Ahead(Eval(Counting(), t, Normal, s), CEval(Counting(), t, u, checking), u < s || !GuardsStringFree(t))
    decreases t, 0
  {
    CountableParts(t);
    GuardsStringFreeParts(t);
    hide CondFree, Evaluable, StringFree, GuardsStringFree;
    NormalMakesMore(t.a, s, u, checking);
    NormalMakesMore(t.b, NormalState(t.a, s), CState(t.a, u, checking), checking);
  }

  lemma {:induction false} NormalArgsMakeMore(parent: Tree, ts: seq<Tree>, s: int, u: int, checking: bool)
    requires forall i :: 0 <= i < |ts| ==> ts[i] < parent && CondFree(ts[i]) && Evaluable(ts[i])
    requires u <= s
    ensures var r := EvalArgs(Counting(), parent, ts, Normal, s);
      var q := CEvalArgs(Counting(), parent, ts, u, checking);
      && r.Some? && q.Some? && q.value.1 <= r.value.1
      && (u < s || !(forall i :: 0 <= i < |ts| ==> GuardsStringFree(ts[i])) ==> q.value.1 < r.value.1)
    decreases parent, 0, |ts|
  {
    if ts != [] {
      NormalMakesMore(ts[0], s, u, checking);
      NormalArgsMakeMore(parent, ts[1..], NormalState(ts[0], s), CState(ts[0], u, checking), checking);
    }
  }

  lemma NormalAddressMakesMore(t: Tree, s: int, u: int, checking: bool)
    requires CondFree(t) && Evaluable(t) && u <= s && !t.Scope?
    ensures Ahead(EvalAddress(Counting(), t, Normal, s), CEvalAddress(Counting(), t, u, checking), u < s || !GuardsStringFree(t))
    decreases t, 2
  {
    CountableParts(t);
    GuardsStringFreeParts(t);
    hide CondFree, Evaluable, StringFree, GuardsStringFree;
    NormalMakesMore(t, s, u, checking);
    if t.Unary? || t.Typed? { NormalMakesMore(t.e, s, u, checking); }
  }

  ghost predicate AgreesWithC(tg: Target<int, int>, t: Tree, s: int, checking: bool) {
    Eval(tg, t, Normal, s).Some? ==> Eval(tg, t, Normal, s) == CEval(tg, t, s, checking)
  }

  /** Without ?:, whatever normal evaluation returns is C's answer for every program in every state
      exactly if no operand that && or || guards, and none of sizeof, holds a string literal. */
  lemma NormalRefinesCExactly(t: Tree, checking: bool)
    requires CondFree(t) && Evaluable(t)
    ensures (forall tg, s :: AgreesWithC(tg, t, s, checking)) <==> GuardsStringFree(t)
  {
    if GuardsStringFree(t) {
      forall tg: Target<int, int>, s: int
        ensures AgreesWithC(tg, t, s, checking)
      {
        NormalIsCheckedC(tg, t, s);
        CheckedRefinesC(tg, t, s);
      }
    } else {
      NormalMakesMore(t, 0, 0, checking);
      assert !AgreesWithC(Counting(), t, 0, checking);
    }
  }

  /** `x && "s"` where x is not zero makes the string twice, and once in C. */
  lemma GuardedStringIsMadeTwice<V, S>(tg: Target<V, S>, x: Elem, str: string, s: S)
    requires Eval(tg, Leaf(OP_VAR_VALUE, x), Normal, s).Some?
    requires !tg.isZero(Eval(tg, Leaf(OP_VAR_VALUE, x), Normal, s).value.0)
    requires tg.makeString(str, s).Some? && tg.makeString(str, tg.makeString(str, s).value.1).Some?
    ensures var t := Binary(BINOP_AND, Leaf(OP_VAR_VALUE, x), StrLit(str));
      var (p, once) := tg.makeString(str, s).value;
      var (q, twice) := tg.makeString(str, once).value;
      && CEval(tg, t, s, false) == Some((tg.truth(!tg.isZero(p)), once))
      && Eval(tg, t, Normal, s) == Some((tg.truth(!tg.isZero(q)), twice))
  {
    var lit := StrLit(str);
    var once := tg.makeString(str, s).value.1;
    assert Eval(tg, lit, AvoidSideEffects, s) == tg.makeString(str, s);
    assert Eval(tg, lit, Normal, once) == tg.makeString(str, once);
  }

  /** `sizeof "s"` makes the string, where C makes none. */
  lemma SizeofMakesItsString<V, S>(tg: Target<V, S>, str: string, s: S)
    requires tg.makeString(str, s).Some?
    ensures var t := Unary(UNOP_SIZEOF, StrLit(str));
      var (p, once) := tg.makeString(str, s).value;
      && CEval(tg, t, s, false) == Some((tg.sizeOfValue(p), s))
      && Eval(tg, t, Normal, s) == Some((tg.sizeOfValue(p), once))
  {
    assert Eval(tg, StrLit(str), AvoidSideEffects, s) == tg.makeString(str, s);
  }

  /** The other way fails: `1 ? x : $n` is x in C, but an error where history holds no $n. */
  lemma UnusedOperandCanFail<V, S>(tg: Target<V, S>, ty: CType, x: Elem, n: int, s: S)
    requires !tg.isZero(tg.constant(OP_LONG, ty, Num(1))) && tg.leaf(OP_LAST, Num(n), s).None?
    ensures var t := Cond(Const(OP_LONG, ty, Num(1)), Const(OP_LONG, ty, x), Leaf(OP_LAST, Num(n)));
      CEval(tg, t, s, false) == Some((tg.constant(OP_LONG, ty, x), s)) && Eval(tg, t, Normal, s).None?
  {
    var last := Leaf(OP_LAST, Num(n));
    assert Eval(tg, last, Skip, s).None?;
  }
}
