/** The grammar's semantic actions in expread: they append to a growing vector in the order of
    reductions, and count the arguments of nested calls on a chain. */
module ExpressionBuilder {
  import opened Expression

  class Builder {
    var expout: seq<Elem>        // the allocated vector, expoutSize elements of it
    var expoutPtr: nat
    var expoutSize: nat
    var funcallChain: seq<nat>   // saved arglist_len of each containing call, innermost first
    var arglistLen: nat

    ghost predicate Valid()
      reads `expout, `expoutPtr, `expoutSize
    {
      expoutSize == |expout| >= 10 && expoutPtr <= expoutSize
    }

    /** The elements emitted so far. */
    ghost function Written(): seq<Elem>
      requires Valid()
      reads `expout, `expoutPtr, `expoutSize
    {
      expout[..expoutPtr]
    }

    constructor ()
      ensures Valid() && Written() == [] && funcallChain == [] && arglistLen == 0
    {
      expout := seq(10, _ => Num(0));
      expoutPtr, expoutSize := 0, 10;
      funcallChain, arglistLen := [], 0;
    }

    method WriteExpElt(e: Elem)
      requires Valid()
      modifies this`expout, this`expoutPtr, this`expoutSize
      ensures Valid() && Written() == old(Written()) + [e]
    {
      if expoutPtr >= expoutSize {
        expout := expout + seq(expoutSize, _ => Num(0));
        expoutSize := expoutSize * 2;
      }
      expout := expout[expoutPtr := e];
      expoutPtr := expoutPtr + 1;
    }

    /** The string's bytes and its terminator are copied in after the vector has been extended, and
        its length follows. */
    method WriteExpString(s: string)
      requires Valid()
      modifies this`expout, this`expoutPtr, this`expoutSize
      ensures Valid() && Written() == old(Written()) + Chunks(s) + [Num(|s|)]
    {
      ghost var before := Written();
      var lenelt := (|s| + ELEM_SIZE) / ELEM_SIZE;
      expoutPtr := expoutPtr + lenelt;
      if expoutPtr >= expoutSize {
        var size := if expoutSize * 2 > expoutPtr + 10 then expoutSize * 2 else expoutPtr + 10;
        expout := expout + seq(size - expoutSize, _ => Num(0));
        expoutSize := size;
      }
      var beg := expoutPtr - lenelt;
      expout := expout[..beg] + Chunks(s) + expout[expoutPtr..];
      assert expout[..beg] == before;
      assert Written() == before + Chunks(s);
      WriteExpElt(Num(|s|));
    }

    method StartArglist()
      modifies this`funcallChain, this`arglistLen
      ensures funcallChain == [old(arglistLen)] + old(funcallChain) && arglistLen == 0
    {
      funcallChain := [arglistLen] + funcallChain;
      arglistLen := 0;
    }

    method EndArglist() returns (val: nat)
      requires funcallChain != []
      modifies this`funcallChain, this`arglistLen
      ensures val == old(arglistLen)
      ensures arglistLen == old(funcallChain)[0] && funcallChain == old(funcallChain)[1..]
    {
      val := arglistLen;
      arglistLen := funcallChain[0];
      funcallChain := funcallChain[1..];
    }

    method WriteGroup(op: Opcode, middle: seq<Elem>)
      requires Valid() && |middle| <= 2
      modifies this`expout, this`expoutPtr, this`expoutSize
      ensures Valid() && Written() == old(Written()) + ([Op(op)] + middle + [Op(op)])
    {
      WriteExpElt(Op(op));
      if |middle| > 0 {
        WriteExpElt(middle[0]);
      }
      if |middle| > 1 {
        WriteExpElt(middle[1]);
      }
      WriteExpElt(Op(op));
    }

    method WriteStringGroup(op: Opcode, middle: seq<Elem>, s: string)
      requires Valid() && |middle| <= 1
      modifies this`expout, this`expoutPtr, this`expoutSize
      ensures Valid() && Written() == old(Written()) + ([Op(op)] + middle + Chunks(s) + [Num(|s|), Op(op)])
    {
      hide Chunks;
      WriteExpElt(Op(op));
      if |middle| > 0 {
        WriteExpElt(middle[0]);
      }
      ghost var before := Written();
      WriteExpString(s);
      WriteExpElt(Op(op));
      assert Written() == before + Chunks(s) + [Num(|s|), Op(op)];
    }

    /** The action of the rule that recognises `t`, its parts having been reduced already.  A call's
        count comes from the argument list being closed. */
    method Reduce(t: Tree)
      requires Valid()
      requires t.Call? ==> funcallChain != [] && arglistLen == |t.args|
      modifies this
      ensures Valid() && Written() == old(Written()) + Head(t)
      ensures if t.Call? then arglistLen == old(funcallChain)[0] && funcallChain == old(funcallChain)[1..]
              else arglistLen == old(arglistLen) && funcallChain == old(funcallChain)
    {
      GroupsOfHead(t);
      hide Chunks, Head, Valid, Written;
      if t.Call? {
        var n := EndArglist();
        WriteGroup(OP_FUNCALL, [Num(n)]);
      } else if t.StrLit? {
        WriteStringGroup(OP_STRING, [], t.s);
      } else if t.Scope? {
        WriteStringGroup(OP_SCOPE, [Ty(t.ty)], t.s);
      } else if t.Field? {
        WriteStringGroup(t.fop, [], t.s);
      } else {
        ReducePlain(t);
      }
    }

    method ReducePlain(t: Tree)
      requires Valid() && !t.Call? && !t.StrLit? && !t.Scope? && !t.Field?
      modifies this`expout, this`expoutPtr, this`expoutSize
      ensures Valid() && Written() == old(Written()) + Head(t)
    {
      hide Chunks;
      match t {
        case Const(op, ty, v) => WriteGroup(op, [Ty(ty), v]);
        case Leaf(op, arg) => WriteGroup(op, [arg]);
        case This => WriteGroup(OP_THIS, []);
        case Unary(op, _) => WriteExpElt(Op(op));
        case Typed(op, ty, _) => WriteGroup(op, [Ty(ty)]);
        case Binary(op, _, _) => WriteExpElt(Op(op));
        case AssignModify(op, _, _) => WriteGroup(BINOP_ASSIGN_MODIFY, [Op(op)]);
        case Cond(_, _, _) => WriteExpElt(Op(TERNOP_COND));
      }
    }

    /** The chain and count while the parts of `t` are being read, `i` of them done. */
    ghost predicate Counting(t: Tree, i: nat, chain: seq<nat>, len: nat)
      reads `funcallChain, `arglistLen
    {
      if t.Call? && i > 0 then funcallChain == [len] + chain && arglistLen == i - 1
      else funcallChain == chain && arglistLen == len
    }

    /** What a call's rules do once its i-th part has been reduced: open the list after the function,
        count the arguments after that. */
    method CountPart(t: Tree, i: nat, ghost chain: seq<nat>, ghost len: nat)
      requires Counting(t, i, chain, len)
      modifies this`funcallChain, this`arglistLen
      ensures Counting(t, i + 1, chain, len)
    {
      if t.Call? {
        if i == 0 {
          StartArglist();                 // exp '('
        } else if i == 1 {
          arglistLen := 1;                // arglist: exp
        } else {
          arglistLen := arglistLen + 1;   // arglist: arglist ',' exp
        }
      }
    }

    /** The reductions for one expression, in the bottom-up order of the parser. */
    method Parse(t: Tree)
      requires Valid()
      modifies this
      ensures Valid() && Written() == old(Written()) + Suffix(t)
      ensures funcallChain == old(funcallChain) && arglistLen == old(arglistLen)
      decreases t, 1
    {
      hide Head, SuffixAll, Valid, Written;
      ghost var chain, len := funcallChain, arglistLen;
      ParseParts(t, chain, len);
      Reduce(t);
    }

    method ParseParts(t: Tree, ghost chain: seq<nat>, ghost len: nat)
      requires Valid() && Counting(t, 0, chain, len)
      modifies this
      ensures Valid() && Written() == old(Written()) + SuffixAll(t, Args(t))
      ensures Counting(t, |Args(t)|, chain, len)
      decreases t, 0, 1
    {
      hide SuffixAll, Args, Valid, Written;
      var parts := Args(t);
      ghost var before := Written();
      SuffixAllNone(t, parts);
      var i := 0;
      while i < |parts|
        invariant 0 <= i <= |parts|
        invariant Valid() && Written() == before + SuffixAll(t, parts[..i])
        invariant Counting(t, i, chain, len)
      {
        ParsePart(t, parts, i, before);
        CountPart(t, i, chain, len);
        i := i + 1;
      }
      assert parts[..i] == parts;
    }

    /** One part more: `before` is what had been emitted before the first. */
    method ParsePart(ghost t: Tree, parts: seq<Tree>, i: nat, ghost before: seq<Elem>)
      requires forall j :: 0 <= j < |parts| ==> parts[j] < t
      requires i < |parts| && Valid() && Written() == before + SuffixAll(t, parts[..i])
      modifies this
      ensures Valid() && Written() == before + SuffixAll(t, parts[..i + 1])
      ensures funcallChain == old(funcallChain) && arglistLen == old(arglistLen)
      decreases t, 0, 0
    {
      hide SuffixAll, Valid, Written, Suffix;
      Parse(parts[i]);
      ghost var x, y := SuffixAll(t, parts[..i]), Suffix(parts[i]);
      assert before + x + y == before + (x + y);
      SuffixAllStep(t, parts, i);
    }
  }

  lemma GroupsOfHead(t: Tree)
    ensures t.Call? ==> Head(t) == [Op(OP_FUNCALL)] + [Num(|t.args|)] + [Op(OP_FUNCALL)]
    ensures t.StrLit? ==> Head(t) == [Op(OP_STRING)] + [] + Chunks(t.s) + [Num(|t.s|), Op(OP_STRING)]
    ensures t.Scope? ==> Head(t) == [Op(OP_SCOPE)] + [Ty(t.ty)] + Chunks(t.s) + [Num(|t.s|), Op(OP_SCOPE)]
    ensures t.Field? ==> Head(t) == [Op(t.fop)] + [] + Chunks(t.s) + [Num(|t.s|), Op(t.fop)]
  {
    hide Chunks;
  }
}
