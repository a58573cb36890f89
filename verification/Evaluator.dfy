/** evaluate_subexp and its three companions: executing a prefix vector with a moving cursor.  The
    tree whose prefix form lies at the cursor is a ghost parameter; the code sees only elements. */
module Evaluator {
  import opened Expression
  import opened Layout
  import opened Wrappers
  import opened Evaluation

  // Unfoldings of the meaning, one for each kind with subexpressions.

  function EvalOperand<V, S>(tg: Target<V, S>, coerce: bool, t: Tree, m: NoSide, s: S): Option<(V, S)> {
    if coerce then EvalCoerced(tg, t, m, s) else Eval(tg, t, m, s)
  }

  lemma EvalUnaryUnfolds<V, S>(tg: Target<V, S>, t: Tree, m: NoSide, s: S)
    requires t.Unary?
    ensures Eval(tg, t, m, s) ==
      if t.uop == UNOP_ADDR && !m.Skip? then EvalAddress(tg, t.e, m, s)
      else if t.uop == UNOP_SIZEOF && !m.Skip? then EvalSizeof(tg, t.e, s)
      else
        var a := Eval(tg, t.e, m, s);
        if a.None? then None else FinishUnary(tg, t.uop, a.value.0, m, a.value.1)
  {
    hide EvalAddress, EvalSizeof, FinishUnary;
  }

  lemma EvalBinaryUnfolds<V, S>(tg: Target<V, S>, t: Tree, m: NoSide, s: S)
    requires t.Binary? && t.bop != BINOP_AND && t.bop != BINOP_OR
    ensures Eval(tg, t, m, s) ==
      var a := EvalOperand(tg, Coerces(t.bop), t.a, m, s);
      if a.None? then None
      else
        var b := EvalOperand(tg, Coerces(t.bop), t.b, m, a.value.1);
        if b.None? then None else FinishBinary(tg, t.bop, a.value.0, b.value.0, m, b.value.1)
  {
    hide EvalCoerced, FinishBinary;
  }

  /** What follows once the left operand of && or || has its value. */
  function FinishLogical<V, S>(tg: Target<V, S>, op: Opcode, va: V, b: Tree, m: NoSide, s: S): Option<(V, S)> {
    var typed := Eval(tg, b, if m.Skip? then Skip else AvoidSideEffects, s);
    if typed.None? then None
    else if m.Skip? then Some((tg.one, typed.value.1))
    else
      var decided := tg.isZero(va) == (op == BINOP_AND);
      var r := Eval(tg, b, if decided then Skip else m, typed.value.1);
      if r.None? then None
      else Some((tg.truth(if decided then op == BINOP_OR else !tg.isZero(r.value.0)), r.value.1))
  }

  lemma EvalLogicalUnfolds<V, S>(tg: Target<V, S>, t: Tree, m: NoSide, s: S)
    requires t.Binary? && (t.bop == BINOP_AND || t.bop == BINOP_OR)
    ensures Eval(tg, t, m, s) ==
      var a := Eval(tg, t.a, m, s);
      if a.None? then None else FinishLogical(tg, t.bop, a.value.0, t.b, m, a.value.1)
  {
  }

  lemma EvalAssignModifyUnfolds<V, S>(tg: Target<V, S>, t: Tree, m: NoSide, s: S)
    requires t.AssignModify?
    ensures Eval(tg, t, m, s) ==
      var a := Eval(tg, t.a, m, s);
      if a.None? then None
      else
        var b := Eval(tg, t.b, m, a.value.1);
        if b.None? then None else FinishModify(tg, t.bop, a.value.0, b.value.0, m, b.value.1)
  {
  }

  function FinishModify<V, S>(tg: Target<V, S>, op: Opcode, a: V, b: V, m: NoSide, s: S): Option<(V, S)> {
    if !m.Normal? then Some((a, s))
    else
      var v :- tg.binary(op, false, a, b, s);
      tg.assign(a, v, s)
  }

  lemma EvalCondUnfolds<V, S>(tg: Target<V, S>, t: Tree, m: NoSide, s: S)
    requires t.Cond?
    ensures Eval(tg, t, m, s) ==
      var c := Eval(tg, t.c, m, s);
      if c.None? then None
      else FinishCond(tg, tg.isZero(c.value.0), t.a, t.b, m, c.value.1)
  {
  }

  function FinishCond<V, S>(tg: Target<V, S>, zero: bool, a: Tree, b: Tree, m: NoSide, s: S): Option<(V, S)> {
    var first := Eval(tg, a, if zero then Skip else m, s);
    if first.None? then None
    else
      var second := Eval(tg, b, if zero then m else Skip, first.value.1);
      if second.None? then None
      else Some((if zero then second.value.0 else first.value.0, second.value.1))
  }

  lemma EvalFieldUnfolds<V, S>(tg: Target<V, S>, t: Tree, m: NoSide, s: S)
    requires t.Field? || t.Typed?
    ensures Eval(tg, t, m, s) ==
      var a := Eval(tg, t.e, m, s);
      if a.None? then None
      else if m.Skip? then Some((tg.one, a.value.1))
      else if t.Field? then Pure(tg.field(t.fop, m.AvoidSideEffects?, t.s, a.value.0, a.value.1), a.value.1)
      else Pure(tg.typed(t.top, t.top == UNOP_MEMVAL && m.AvoidSideEffects?, t.ty, a.value.0, a.value.1), a.value.1)
  {
  }

  lemma EvalAddressUnfolds<V, S>(tg: Target<V, S>, t: Tree, m: NoSide, s: S)
    ensures t.Unary? && t.uop == UNOP_IND ==> EvalAddress(tg, t, m, s) == Eval(tg, t.e, m, s)
    ensures t.Typed? && t.top == UNOP_MEMVAL ==>
      var a := Eval(tg, t.e, m, s);
      EvalAddress(tg, t, m, s) == if a.None? then None else Pure(tg.pointerCast(t.ty, a.value.0, a.value.1), a.value.1)
    ensures t.Leaf? && t.lop == OP_VAR_VALUE ==>
      EvalAddress(tg, t, m, s) == Pure(tg.locate(m.AvoidSideEffects?, t.arg, s), s)
    ensures !(t.Unary? && t.uop == UNOP_IND) && !(t.Typed? && t.top == UNOP_MEMVAL) && !(t.Leaf? && t.lop == OP_VAR_VALUE) ==>
      var a := Eval(tg, t, m, s);
      EvalAddress(tg, t, m, s) ==
        if a.None? then None else Pure(tg.addressOf(m.AvoidSideEffects?, a.value.0, a.value.1), a.value.1)
  {
    hide Eval;
  }

  lemma EvalSizeofUnfolds<V, S>(tg: Target<V, S>, t: Tree, s: S)
    ensures t.Unary? && t.uop == UNOP_IND ==>
      var a := Eval(tg, t.e, AvoidSideEffects, s);
      EvalSizeof(tg, t, s) == if a.None? then None else Some((tg.sizeOfTarget(a.value.0), a.value.1))
    ensures t.Typed? && t.top == UNOP_MEMVAL ==> EvalSizeof(tg, t, s) == Some((tg.sizeOfType(t.ty), s))
    ensures t.Leaf? && t.lop == OP_VAR_VALUE ==> EvalSizeof(tg, t, s) == Some((tg.sizeOfVar(t.arg), s))
    ensures !(t.Unary? && t.uop == UNOP_IND) && !(t.Typed? && t.top == UNOP_MEMVAL) && !(t.Leaf? && t.lop == OP_VAR_VALUE) ==>
      var a := Eval(tg, t, AvoidSideEffects, s);
      EvalSizeof(tg, t, s) == if a.None? then None else Some((tg.sizeOfValue(a.value.0), a.value.1))
  {
    hide Eval;
  }

  lemma EvalCallUnfolds<V, S>(tg: Target<V, S>, t: Tree, m: NoSide, s: S)
    requires t.Call?
    ensures Eval(tg, t, m, s) ==
      var f := EvalCoerced(tg, t.f, m, s);
      if f.None? then None
      else
        var args := EvalArgs(tg, t, t.args, m, f.value.1);
        if args.None? then None else FinishCall(tg, f.value.0, args.value.0, m, args.value.1)
  {
    hide EvalCoerced, EvalArgs;
  }

  function FinishCall<V, S>(tg: Target<V, S>, f: V, args: seq<V>, m: NoSide, s: S): Option<(V, S)> {
    if m.Skip? then Some((tg.one, s))
    else if m.AvoidSideEffects? then Pure(tg.callShape(f), s)
    else tg.call(f, args, s)
  }

  /** The arguments from the i-th on. */
  function EvalArgsFrom<V, S>(tg: Target<V, S>, t: Tree, i: nat, m: NoSide, s: S): Option<(seq<V>, S)>
    requires t.Call? && i <= |t.args|
  {
    EvalArgs(tg, t, t.args[i..], m, s)
  }

  /** Having evaluated `done`, what remains decides the whole argument list. */
  ghost predicate ArgsRemain<V, S>(whole: Option<(seq<V>, S)>, done: seq<V>, rest: Option<(seq<V>, S)>) {
    && (whole.None? <==> rest.None?)
    && (rest.Some? ==> whole == Some((done + rest.value.0, rest.value.1)))
  }

  lemma ArgsStart<V, S>(tg: Target<V, S>, t: Tree, m: NoSide, s: S)
    requires t.Call?
    ensures ArgsRemain(EvalArgs(tg, t, t.args, m, s), [], EvalArgsFrom(tg, t, 0, m, s))
  {
    hide EvalArgs;
    assert t.args[0..] == t.args;
    var rest := EvalArgsFrom(tg, t, 0, m, s);
    if rest.Some? {
      assert [] + rest.value.0 == rest.value.0;
    }
  }

  lemma ArgsStep<V, S>(tg: Target<V, S>, t: Tree, whole: Option<(seq<V>, S)>, done: seq<V>, i: nat, m: NoSide, s: S)
    requires t.Call? && i < |t.args| && ArgsRemain(whole, done, EvalArgsFrom(tg, t, i, m, s))
    ensures var r := EvalCoerced(tg, t.args[i], m, s);
      if r.None? then whole.None? else ArgsRemain(whole, done + [r.value.0], EvalArgsFrom(tg, t, i + 1, m, r.value.1))
  {
    hide EvalCoerced;
    assert t.args[i..][1..] == t.args[i + 1..];
    var r := EvalCoerced(tg, t.args[i], m, s);
    if r.Some? {
      var rest := EvalArgsFrom(tg, t, i + 1, m, r.value.1);
      if rest.Some? {
        assert done + ([r.value.0] + rest.value.0) == done + [r.value.0] + rest.value.0;
      }
    }
  }

  lemma ArgsDone<V, S>(tg: Target<V, S>, t: Tree, whole: Option<(seq<V>, S)>, done: seq<V>, m: NoSide, s: S)
    requires t.Call? && ArgsRemain(whole, done, EvalArgsFrom(tg, t, |t.args|, m, s))
    ensures whole == Some((done, s))
  {
    assert EvalArgsFrom(tg, t, |t.args|, m, s) == Some(([], s));
    assert done + [] == done;
  }

  class Evaluator<V(0), S> {
    const tg: Target<V, S>
    const elts: seq<Elem>
    var pos: nat
    var store: S

    constructor (tg: Target<V, S>, elts: seq<Elem>, store: S)
      ensures this.tg == tg && this.elts == elts && pos == 0 && this.store == store
    {
      this.tg, this.elts, this.pos, this.store := tg, elts, 0, store;
    }

    /** The call returned what `e` says, or reported an error just where it says so. */
    ghost predicate Returns(r: Option<V>, e: Option<(V, S)>)
      reads `store
    {
      (r.None? <==> e.None?) && (r.Some? ==> e == Some((r.value, store)))
    }

    method EvaluateConst(op: Opcode, pc: nat, noside: NoSide, ghost t: Tree) returns (r: Option<V>)
      requires t.Const? && At(elts, pc, Head(t)) && pos == pc + 1 && op == t.cop
      modifies this`pos
      ensures Returns(r, Eval(tg, t, noside, store)) && pos == pc + |Head(t)|
    {
      ghost var h := elts[pc..pc + |Head(t)|];
      assert elts[pc + 1] == h[1] && elts[pc + 2] == h[2];
      pos := pos + 3;
      r := Some(tg.constant(op, elts[pc + 1].t, elts[pc + 2]));
    }

    method EvaluateScope(pc: nat, noside: NoSide, ghost t: Tree) returns (r: Option<V>)
      requires t.Scope? && HeadOk(t) && At(elts, pc, Head(t)) && pos == pc + 1
      modifies this`pos
      ensures Returns(r, Eval(tg, t, noside, store)) && pos == pc + |Head(t)|
    {
      CStringInHead(elts, pc, [Op(OP_SCOPE), Ty(t.ty)], t.s, [Num(|t.s|), Op(OP_SCOPE)]);
      hide Chunks, CString;
      ghost var h := elts[pc..pc + |Head(t)|];
      assert elts[pc + 1] == h[1];
      var name := CString(elts, pc + 2);
      pos := pos + 3 + (|name| + ELEM_SIZE) / ELEM_SIZE;
      r := tg.staticField(elts[pc + 1].t, name, store);
    }

    method EvaluateString(pc: nat, noside: NoSide, ghost t: Tree) returns (r: Option<V>)
      requires t.StrLit? && HeadOk(t) && At(elts, pc, Head(t)) && pos == pc + 1
      modifies this`pos, this`store
      ensures Returns(r, Eval(tg, t, noside, old(store))) && pos == pc + |Head(t)|
    {
      CStringInHead(elts, pc, [Op(OP_STRING)], t.s, [Num(|t.s|), Op(OP_STRING)]);
      hide Chunks, CString;
      var str := CString(elts, pc + 1);
      pos := pos + 2 + (|str| + ELEM_SIZE) / ELEM_SIZE;
      if noside.Skip? {
        return Some(tg.one);
      }
      var made := tg.makeString(str, store);
      if made.None? {
        return None;
      }
      store := made.value.1;
      r := Some(made.value.0);
    }

    method EvaluateVariable(op: Opcode, pc: nat, noside: NoSide, ghost t: Tree) returns (r: Option<V>)
      requires t.Leaf? && At(elts, pc, Head(t)) && pos == pc + 1 && op == t.lop
      modifies this`pos
      ensures Returns(r, Eval(tg, t, noside, store)) && pos == pc + |Head(t)|
    {
      ghost var h := elts[pc..pc + |Head(t)|];
      assert elts[pc + 1] == h[1];
      pos := pos + 2;
      if op == OP_VAR_VALUE && noside.Skip? {
        return Some(tg.one);
      }
      if op == OP_VAR_VALUE && noside.AvoidSideEffects? {
        return Some(tg.leafShape(elts[pc + 1]));
      }
      r := tg.leaf(op, elts[pc + 1], store);
    }

    // ----- the recursive part -----

    method EvaluateSubexp(noside: NoSide, ghost t: Tree) returns (r: Option<V>)
      requires Lies(elts, pos, t) && Evaluable(t)
      modifies this`pos, this`store
      ensures Returns(r, Eval(tg, t, noside, old(store)))
      ensures r.Some? ==> pos == old(pos) + Size(t)
      decreases t, 5
    {
      var op := PeekOp(t);
      HeadLies(elts, pos, t);
      FirstElementTells(t);
      hide Evaluable, HeadEvaluable, Lies, Size, Eval, Returns, Head, OpOf, At, HeadOk;
      var pc := pos;
      pos := pos + 1;
      if OP_LONG <= op <= OP_INTERNALVAR || op >= OP_THIS || op == OP_STRING {
        r := EvaluateOperand(op, pc, noside, t);
      } else if op >= UNOP_NEG {
        if op <= UNOP_SIZEOF {
          r := EvaluateUnary(op, pc, noside, t);
        } else {
          r := EvaluateField(op, pc, noside, t);
        }
      } else {
        r := EvaluateOperation(op, pc, noside, t);
      }
    }

    /** The cases that take no subexpressions. */
    method EvaluateOperand(op: Opcode, pc: nat, noside: NoSide, ghost t: Tree) returns (r: Option<V>)
      requires Lies(elts, pc, t) && Evaluable(t) && op == OpOf(t) && pos == pc + 1
      requires t.Const? || t.Leaf? || t.StrLit? || t.Scope? || t.This?
      modifies this`pos, this`store
      ensures Returns(r, Eval(tg, t, noside, old(store))) && pos == pc + Size(t)
    {
      HeadLies(elts, pc, t);
      OperandAlone(elts, pc, t);
      FirstElementTells(t);
      assert t.This? ==> |Head(t)| == 2;
      assert Size(t) == |Head(t)|;
      hide Head, At, Eval, Returns, Lies, Size;
      if op == OP_LONG || op == OP_DOUBLE {
        r := EvaluateConst(op, pc, noside, t);
      } else if op == OP_SCOPE {
        r := EvaluateScope(pc, noside, t);
      } else if op == OP_STRING {
        r := EvaluateString(pc, noside, t);
      } else if op == OP_THIS {
        r := EvaluateThis(noside, t);
      } else {
        r := EvaluateVariable(op, pc, noside, t);
      }
    }

    /** The binary operators and the other cases whose opcodes precede the unary ones. */
    method EvaluateOperation(op: Opcode, pc: nat, noside: NoSide, ghost t: Tree) returns (r: Option<V>)
      requires Lies(elts, pc, t) && Evaluable(t) && pos == pc + 1 && op == OpOf(t)
      requires t.Binary? || t.AssignModify? || t.Cond? || t.Call? || t.Typed?
      modifies this`pos, this`store
      ensures Returns(r, Eval(tg, t, noside, old(store)))
      ensures r.Some? ==> pos == pc + Size(t)
      decreases t, 4, 1
    {
      HeadLies(elts, pc, t);
      FirstElementTells(t);
      hide Evaluable, HeadEvaluable, Lies, Size, Eval, Returns, Head, At, HeadOk;
      if op == TERNOP_COND {
        r := EvaluateCond(pc, noside, t);
      } else if op == OP_FUNCALL {
        r := EvaluateCall(pc, noside, t);
      } else if op == UNOP_CAST || op == UNOP_MEMVAL {
        r := EvaluateTyped(op, pc, noside, t);
      } else if op == BINOP_ASSIGN_MODIFY {
        r := EvaluateAssignModify(pc, noside, t);
      } else if op == BINOP_AND || op == BINOP_OR {
        r := EvaluateLogical(op, pc, noside, t);
      } else {
        r := EvaluateBinary(op, pc, noside, t);
      }
    }

    method EvaluateThis(noside: NoSide, ghost t: Tree) returns (r: Option<V>)
      requires t.This?
      modifies this`pos
      ensures Returns(r, Eval(tg, t, noside, store)) && pos == old(pos) + 1
    {
      pos := pos + 1;
      r := tg.thisValue(store);
    }

    method EvaluateCond(pc: nat, noside: NoSide, ghost t: Tree) returns (r: Option<V>)
      requires Lies(elts, pc, t) && Evaluable(t) && pos == pc + 1 && t.Cond?
      modifies this`pos, this`store
      ensures Returns(r, Eval(tg, t, noside, old(store)))
      ensures r.Some? ==> pos == pc + Size(t)
      decreases t, 4, 0
    {
      EvaluableParts(t);
      CondParts(elts, pc, t);
      EvalCondUnfolds(tg, t, noside, store);
      hide Evaluable, HeadEvaluable, Lies, Size, Eval;
      var arg1 := EvaluateSubexp(noside, t.c);
      if arg1.None? {
        return None;
      }
      var zero := tg.isZero(arg1.value);
      var arg2 := EvaluateSubexp(if zero then Skip else noside, t.a);
      if arg2.None? {
        return None;
      }
      var arg3 := EvaluateSubexp(if zero then noside else Skip, t.b);
      if arg3.None? {
        return None;
      }
      r := if zero then arg3 else arg2;
    }

    method EvaluateField(op: Opcode, pc: nat, noside: NoSide, ghost t: Tree) returns (r: Option<V>)
      requires Lies(elts, pc, t) && Evaluable(t) && pos == pc + 1 && t.Field? && op == t.fop
      modifies this`pos, this`store
      ensures Returns(r, Eval(tg, t, noside, old(store)))
      ensures r.Some? ==> pos == pc + Size(t)
      decreases t, 4, 0
    {
      hide Evaluable, HeadEvaluable, Lies, Size, Eval, CString;
      EvaluableParts(t);
      FieldParts(elts, pc, t);
      EvalFieldUnfolds(tg, t, noside, store);
      var name := CString(elts, pc + 1);
      pos := pos + 2 + (|name| + ELEM_SIZE) / ELEM_SIZE;
      var arg1 := EvaluateSubexp(noside, t.e);
      if arg1.None? {
        return None;
      }
      if noside.Skip? {
        return Some(tg.one);
      }
      r := tg.field(op, noside.AvoidSideEffects?, name, arg1.value, store);
    }

    method EvaluateTyped(op: Opcode, pc: nat, noside: NoSide, ghost t: Tree) returns (r: Option<V>)
      requires Lies(elts, pc, t) && Evaluable(t) && pos == pc + 1 && t.Typed? && op == t.top
      modifies this`pos, this`store
      ensures Returns(r, Eval(tg, t, noside, old(store)))
      ensures r.Some? ==> pos == pc + Size(t)
      decreases t, 4, 0
    {
      hide Evaluable, HeadEvaluable, Lies, Size, Eval, Head;
      EvaluableParts(t);
      OnePart(elts, pc, t);
      MiddleElement(elts, pc, t);
      EvalFieldUnfolds(tg, t, noside, store);
      pos := pos + 2;
      var arg1 := EvaluateSubexp(noside, t.e);
      if arg1.None? {
        return None;
      }
      if noside.Skip? {
        return Some(tg.one);
      }
      r := tg.typed(op, op == UNOP_MEMVAL && noside.AvoidSideEffects?, elts[pc + 1].t, arg1.value, store);
    }

    method Assign(target: V, value: V) returns (r: Option<V>)
      modifies this`store
      ensures Returns(r, tg.assign(target, value, old(store)))
    {
      var done := tg.assign(target, value, store);
      if done.None? {
        return None;
      }
      store := done.value.1;
      r := Some(done.value.0);
    }

    method EvaluateAssignModify(pc: nat, noside: NoSide, ghost t: Tree) returns (r: Option<V>)
      requires Lies(elts, pc, t) && Evaluable(t) && pos == pc + 1 && t.AssignModify?
      modifies this`pos, this`store
      ensures Returns(r, Eval(tg, t, noside, old(store)))
      ensures r.Some? ==> pos == pc + Size(t)
      decreases t, 4, 0
    {
      hide Evaluable, HeadEvaluable, Lies, Size, Eval, Head, FinishModify;
      EvaluableParts(t);
      TwoParts(elts, pc, t);
      MiddleElement(elts, pc, t);
      EvalAssignModifyUnfolds(tg, t, noside, store);
      var op := elts[pc + 1].op;
      pos := pos + 2;
      var arg1 := EvaluateSubexp(noside, t.a);
      if arg1.None? {
        return None;
      }
      var arg2 := EvaluateSubexp(noside, t.b);
      if arg2.None? {
        return None;
      }
      r := Modify(op, arg1.value, arg2.value, noside);
    }

    method Modify(op: Opcode, a: V, b: V, noside: NoSide) returns (r: Option<V>)
      modifies this`store
      ensures Returns(r, FinishModify(tg, op, a, b, noside, old(store)))
    {
      if !noside.Normal? {
        return Some(a);
      }
      var sum := tg.binary(op, false, a, b, store);
      if sum.None? {
        return None;
      }
      r := Assign(a, sum.value);
    }

    method EvaluateLogical(op: Opcode, pc: nat, noside: NoSide, ghost t: Tree) returns (r: Option<V>)
      requires Lies(elts, pc, t) && Evaluable(t) && pos == pc + 1 && t.Binary? && op == t.bop && (op == BINOP_AND || op == BINOP_OR)
      modifies this`pos, this`store
      ensures Returns(r, Eval(tg, t, noside, old(store)))
      ensures r.Some? ==> pos == pc + Size(t)
      decreases t, 4, 0
    {
      EvaluableParts(t);
      TwoParts(elts, pc, t);
      HeadLengths(t);
      EvalLogicalUnfolds(tg, t, noside, store);
      hide Evaluable, HeadEvaluable, Lies, Size, Eval, Head;
      var arg1 := EvaluateSubexp(noside, t.a);
      if arg1.None? {
        return None;
      }
      r := DecideLogical(op, arg1.value, noside, t.b);
    }

    /** The rest of && and ||: the right operand is first evaluated for its type alone. */
    method DecideLogical(op: Opcode, arg1: V, noside: NoSide, ghost b: Tree) returns (r: Option<V>)
      requires Lies(elts, pos, b) && Evaluable(b) && (op == BINOP_AND || op == BINOP_OR)
      modifies this`pos, this`store
      ensures Returns(r, FinishLogical(tg, op, arg1, b, noside, old(store)))
      ensures r.Some? ==> pos == old(pos) + Size(b)
      decreases b, 7
    {
      hide Evaluable, HeadEvaluable, Lies, Size, Eval;
      if noside.Skip? {
        var skipped := EvaluateSubexp(Skip, b);
        if skipped.None? {
          return None;
        }
        return Some(tg.one);
      }
      var oldpos := pos;
      var typed := EvaluateSubexp(AvoidSideEffects, b);
      if typed.None? {
        return None;
      }
      pos := oldpos;
      var tem := tg.isZero(arg1);
      var decided := if op == BINOP_AND then tem else !tem;
      var arg2 := EvaluateSubexp(if decided then Skip else noside, b);
      if arg2.None? {
        return None;
      }
      r := Some(tg.truth(
        if op == BINOP_AND then !tem && !tg.isZero(arg2.value) else !tem || !tg.isZero(arg2.value)));
    }

    method EvaluateBinary(op: Opcode, pc: nat, noside: NoSide, ghost t: Tree) returns (r: Option<V>)
      requires Lies(elts, pc, t) && Evaluable(t) && pos == pc + 1 && t.Binary? && op == t.bop && op != BINOP_AND && op != BINOP_OR
      modifies this`pos, this`store
      ensures Returns(r, Eval(tg, t, noside, old(store)))
      ensures r.Some? ==> pos == pc + Size(t)
      decreases t, 4, 0
    {
      EvaluableParts(t);
      TwoParts(elts, pc, t);
      HeadLengths(t);
      EvalBinaryUnfolds(tg, t, noside, store);
      hide Evaluable, HeadEvaluable, Lies, Size, Eval, Head, EvalOperand, FinishBinary;
      var arg1 := EvaluateMaybeCoerced(Coerces(op), noside, t.a);
      if arg1.None? {
        return None;
      }
      var arg2 := EvaluateMaybeCoerced(Coerces(op), noside, t.b);
      if arg2.None? {
        return None;
      }
      r := CombineBinary(op, arg1.value, arg2.value, noside);
    }

    method EvaluateMaybeCoerced(coerce: bool, noside: NoSide, ghost t: Tree) returns (r: Option<V>)
      requires Lies(elts, pos, t) && Evaluable(t)
      modifies this`pos, this`store
      ensures Returns(r, EvalOperand(tg, coerce, t, noside, old(store)))
      ensures r.Some? ==> pos == old(pos) + Size(t)
      decreases t, 7
    {
      hide Evaluable, HeadEvaluable, Lies, Size, Eval, EvalCoerced;
      if coerce {
        r := EvaluateCoerced(noside, t);
      } else {
        r := EvaluateSubexp(noside, t);
      }
    }

    method CombineBinary(op: Opcode, arg1: V, arg2: V, noside: NoSide) returns (r: Option<V>)
      modifies this`store
      ensures Returns(r, FinishBinary(tg, op, arg1, arg2, noside, old(store)))
    {
      if op == BINOP_COMMA {
        return Some(arg2);
      }
      if op == BINOP_ASSIGN {
        if !noside.Normal? {
          return Some(arg1);
        }
        r := Assign(arg1, arg2);
        return;
      }
      if noside.Skip? {
        return Some(tg.one);
      }
      r := tg.binary(op, Shapes(op, noside), arg1, arg2, store);
    }

    method EvaluateUnary(op: Opcode, pc: nat, noside: NoSide, ghost t: Tree) returns (r: Option<V>)
      requires Lies(elts, pc, t) && Evaluable(t) && pos == pc + 1 && t.Unary? && op == t.uop
      modifies this`pos, this`store
      ensures Returns(r, Eval(tg, t, noside, old(store)))
      ensures r.Some? ==> pos == pc + Size(t)
      decreases t, 4, 0
    {
      EvaluableParts(t);
      OnePart(elts, pc, t);
      HeadLengths(t);
      HeadLies(elts, pc, t);
      EvalUnaryUnfolds(tg, t, noside, store);
      hide Evaluable, HeadEvaluable, Lies, Size, Eval, Head, At, HeadOk, EvalAddress, EvalSizeof, FinishUnary;
      if op == UNOP_ADDR && !noside.Skip? {
        r := EvaluateForAddress(noside, t.e);
        return;
      }
      if op == UNOP_SIZEOF && !noside.Skip? {
        r := EvaluateForSizeof(t.e);
        return;
      }
      var arg1 := EvaluateSubexp(noside, t.e);
      if arg1.None? {
        return None;
      }
      r := CombineUnary(op, arg1.value, noside);
    }

    method CombineUnary(op: Opcode, arg1: V, noside: NoSide) returns (r: Option<V>)
      modifies this`store
      ensures Returns(r, FinishUnary(tg, op, arg1, noside, old(store)))
    {
      if Steps(op) {
        if !noside.Normal? {
          return Some(arg1);
        }
        var stepped := tg.binary(StepOp(op), false, arg1, tg.unit, store);
        if stepped.None? {
          return None;
        }
        var done := Assign(arg1, stepped.value);
        if done.None? {
          return None;
        }
        return if op == UNOP_PREINCREMENT || op == UNOP_PREDECREMENT then done else Some(arg1);
      }
      if noside.Skip? {
        return Some(tg.one);
      }
      r := tg.unary(op, op == UNOP_IND && noside.AvoidSideEffects?, arg1, store);
    }

    method EvaluateCall(pc: nat, noside: NoSide, ghost t: Tree) returns (r: Option<V>)
      requires Lies(elts, pc, t) && Evaluable(t) && pos == pc + 1 && t.Call?
      modifies this`pos, this`store
      ensures Returns(r, Eval(tg, t, noside, old(store)))
      ensures r.Some? ==> pos == pc + Size(t)
      decreases t, 4, 0
    {
      hide Evaluable, HeadEvaluable, Lies, Size, Eval, EvalCoerced, EvalArgs, PartsLie, PartsSize, Head, FinishCall;
      EvaluableParts(t);
      CallParts(elts, pc, t);
      MiddleElement(elts, pc, t);
      EvalCallUnfolds(tg, t, noside, store);
      pos := pos + 2;
      var nargs := elts[pc + 1].n;
      var fn := EvaluateCoerced(noside, t.f);
      if fn.None? {
        return None;
      }
      var argvec := EvaluateArguments(nargs, pc + 3, noside, t);
      if argvec.None? {
        return None;
      }
      r := CallFunction(fn.value, argvec.value, noside);
    }

    method CallFunction(fn: V, argvec: seq<V>, noside: NoSide) returns (r: Option<V>)
      modifies this`store
      ensures Returns(r, FinishCall(tg, fn, argvec, noside, old(store)))
    {
      if noside.Skip? {
        return Some(tg.one);
      }
      if noside.AvoidSideEffects? {
        return tg.callShape(fn);
      }
      var called := tg.call(fn, argvec, store);
      if called.None? {
        return None;
      }
      store := called.value.1;
      r := Some(called.value.0);
    }

    /** Evaluate `nargs` arguments in order; the parts of the call start at `base`. */
    method EvaluateArguments(nargs: nat, ghost base: nat, noside: NoSide, ghost t: Tree) returns (r: Option<seq<V>>)
      requires t.Call? && nargs == |t.args| && PartsLie(elts, base, t) && (forall i :: 0 <= i < |t.args| ==> Evaluable(t.args[i])) && pos == base + PartsSize(t, 1)
      modifies this`pos, this`store
      ensures var e := EvalArgs(tg, t, t.args, noside, old(store));
        (r.None? <==> e.None?) && (r.Some? ==> e == Some((r.value, store)))
      ensures r.Some? ==> pos == base + PartsSize(t, 1 + nargs)
      decreases t, 0
    {
      hide Evaluable, HeadEvaluable, PartsLie, PartsSize, Lies, Size, EvalArgs, EvalArgsFrom, EvalCoerced, ArgsRemain;
      ghost var whole := EvalArgs(tg, t, t.args, noside, store);
      ArgsStart(tg, t, noside, store);
      var argvec: seq<V> := [];
      var i := 0;
      while i < nargs
        invariant 0 <= i <= nargs
        invariant pos == base + PartsSize(t, i + 1)
        invariant ArgsRemain(whole, argvec, EvalArgsFrom(tg, t, i, noside, store))
      {
        var arg := EvaluateArgument(i, base, noside, t, whole, argvec);
        if arg.None? {
          return None;
        }
        argvec := argvec + [arg.value];
        i := i + 1;
      }
      ArgsDone(tg, t, whole, argvec, noside, store);
      r := Some(argvec);
    }

    /** The i-th argument, given that what is `done` and what remains make up the `whole` list. */
    method EvaluateArgument(ghost i: nat, ghost base: nat, noside: NoSide, ghost t: Tree,
                            ghost whole: Option<(seq<V>, S)>, ghost done: seq<V>) returns (arg: Option<V>)
      requires t.Call? && i < |t.args| && PartsLie(elts, base, t) && (forall i :: 0 <= i < |t.args| ==> Evaluable(t.args[i])) && pos == base + PartsSize(t, i + 1)
      requires ArgsRemain(whole, done, EvalArgsFrom(tg, t, i, noside, store))
      modifies this`pos, this`store
      ensures arg.None? ==> whole.None?
      ensures arg.Some? ==> pos == base + PartsSize(t, i + 2)
      ensures arg.Some? ==> ArgsRemain(whole, done + [arg.value], EvalArgsFrom(tg, t, i + 1, noside, store))
      decreases t, 0, 0
    {
      hide Evaluable, HeadEvaluable, PartsLie, PartsSize, Lies, Size, EvalArgs, EvalArgsFrom, EvalCoerced, ArgsRemain;
      ArgumentLies(elts, base, t, i);
      ArgsStep(tg, t, whole, done, i, noside, store);
      arg := EvaluateCoerced(noside, t.args[i]);
    }

    method EvaluateCoerced(noside: NoSide, ghost t: Tree) returns (r: Option<V>)
      requires Lies(elts, pos, t) && Evaluable(t)
      modifies this`pos, this`store
      ensures Returns(r, EvalCoerced(tg, t, noside, old(store)))
      ensures r.Some? ==> pos == old(pos) + Size(t)
      decreases t, 6
    {
      hide Evaluable, HeadEvaluable, Lies, Size, Eval;
      var op := PeekOp(t);
      if op == OP_VAR_VALUE {
        PeekVariable(t);
        if tg.isArray(elts[pos + 1]) {
          var variable := elts[pos + 1];
          pos := pos + 3;
          return tg.decay(variable, store);
        }
      }
      r := EvaluateSubexp(noside, t);
    }

    /** The opcode at the cursor, not advancing it. */
    method PeekOp(ghost t: Tree) returns (op: Opcode)
      requires Lies(elts, pos, t) && Evaluable(t)
      ensures op == OpOf(t)
      ensures op == OP_VAR_VALUE <==> t.Leaf? && t.lop == OP_VAR_VALUE
      ensures op == UNOP_IND <==> t.Unary? && t.uop == UNOP_IND
      ensures op == UNOP_MEMVAL <==> t.Typed? && t.top == UNOP_MEMVAL
    {
      HeadLies(elts, pos, t);
      HeadElement(elts, pos, t, 0);
      FirstElementTells(t);
      hide Lies, HeadOk, HeadEvaluable, Head;
      op := elts[pos].op;
    }

    lemma PeekVariable(t: Tree)
      requires Lies(elts, pos, t) && Evaluable(t) && t.Leaf?
      ensures pos + 3 <= |elts| && elts[pos + 1] == t.arg && Size(t) == 3
    {
      OperandAlone(elts, pos, t);
      HeadLengths(t);
      HeadElement(elts, pos, t, 1);
    }

    /** The operand of `*e` and of `{T} e`, and the type in the latter. */
    lemma PeekInside(t: Tree)
      requires Lies(elts, pos, t) && Evaluable(t) && (t.Unary? || t.Typed?)
      ensures t.Unary? ==> Lies(elts, pos + 1, t.e) && Size(t) == 1 + Size(t.e)
      ensures t.Typed? ==> Lies(elts, pos + 3, t.e) && Size(t) == 3 + Size(t.e)
      ensures t.Typed? ==> pos + 1 < |elts| && elts[pos + 1] == Ty(t.ty)
    {
      OnePart(elts, pos, t);
      HeadLengths(t);
      if t.Typed? { HeadElement(elts, pos, t, 1); }
    }

    method EvaluateForAddress(noside: NoSide, ghost t: Tree) returns (r: Option<V>)
      requires Lies(elts, pos, t) && Evaluable(t)
      modifies this`pos, this`store
      ensures Returns(r, EvalAddress(tg, t, noside, old(store)))
      ensures r.Some? ==> pos == old(pos) + Size(t)
      decreases t, 6
    {
      EvalAddressUnfolds(tg, t, noside, store);
      hide Evaluable, HeadEvaluable, Lies, Size, Eval, EvalAddress, OpOf;
      var pc := pos;
      var op := PeekOp(t);
      EvaluableParts(t);
      if t.Unary? || t.Typed? { PeekInside(t); }
      if op == UNOP_IND {
        pos := pos + 1;
        r := EvaluateSubexp(noside, t.e);
      } else if op == UNOP_MEMVAL {
        pos := pos + 3;
        var x := EvaluateSubexp(noside, t.e);
        if x.None? {
          return None;
        }
        r := tg.pointerCast(elts[pc + 1].t, x.value, store);
      } else if op == OP_VAR_VALUE {
        PeekVariable(t);
        pos := pos + 3;
        r := tg.locate(noside.AvoidSideEffects?, elts[pc + 1], store);
      } else {
        var x := EvaluateSubexp(noside, t);
        if x.None? {
          return None;
        }
        r := tg.addressOf(noside.AvoidSideEffects?, x.value, store);
      }
    }

    /** The cursor stops three elements on at `{T} e`, whose operand is left unread. */
    method EvaluateForSizeof(ghost t: Tree) returns (r: Option<V>)
      requires Lies(elts, pos, t) && Evaluable(t)
      modifies this`pos, this`store
      ensures Returns(r, EvalSizeof(tg, t, old(store)))
      ensures r.Some? ==>
        pos == old(pos) + if t.Typed? && t.top == UNOP_MEMVAL then Size(t) - Size(t.e) else Size(t)
      decreases t, 6
    {
      EvalSizeofUnfolds(tg, t, store);
      hide Evaluable, HeadEvaluable, Lies, Size, Eval, EvalSizeof, OpOf;
      var pc := pos;
      var op := PeekOp(t);
      EvaluableParts(t);
      if t.Unary? || t.Typed? { PeekInside(t); }
      if op == UNOP_IND {
        pos := pos + 1;
        var val := EvaluateSubexp(AvoidSideEffects, t.e);
        if val.None? {
          return None;
        }
        r := Some(tg.sizeOfTarget(val.value));
      } else if op == UNOP_MEMVAL {
        pos := pos + 3;
        r := Some(tg.sizeOfType(elts[pc + 1].t));
      } else if op == OP_VAR_VALUE {
        PeekVariable(t);
        pos := pos + 3;
        r := Some(tg.sizeOfVar(elts[pc + 1]));
      } else {
        var val := EvaluateSubexp(AvoidSideEffects, t);
        if val.None? {
          return None;
        }
        r := Some(tg.sizeOfValue(val.value));
      }
    }
  }
}
