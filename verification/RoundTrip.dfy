/** Printing an expression and reading it back: exactly which expressions survive. */
module RoundTrip {
  import opened Expression
  import opened Notation
  import opened Reader
  import opened Wrappers

  // ----- the tokens give away the parentheses -----

  /** For each token that is not a grouping parenthesis, how deep inside parentheses it stands.  A
      parenthesis groups unless it follows a complete operand, when it opens an argument list;
      `after` is 1 after an operand, 2 after a type name and 0 elsewhere. */
  function Depths(toks: seq<Token>, depth: int, after: int): seq<int> {
    if toks == [] then []
    else
      var rest := toks[1..];
      match toks[0]
      case Operand(_) => [depth] + Depths(rest, depth, 1)
      case Name(_) => [depth] + Depths(rest, depth, 1)
      case TypeName(_) => [depth] + Depths(rest, depth, 2)
      case Mark(m) =>
        if m == LPAREN then (if after == 1 then [depth] else []) + Depths(rest, depth + 1, 0)
        else if m == RPAREN then Depths(rest, depth - 1, if after == 2 then 0 else 1)
        else if m == RBRACKET then [depth] + Depths(rest, depth, 1)
        else if m == INCREMENT || m == DECREMENT then [depth] + Depths(rest, depth, after)
        else [depth] + Depths(rest, depth, 0)
  }

  lemma DepthsOf(tok: Token, rest: seq<Token>, depth: int, after: int)
    ensures tok.Operand? || tok.Name? ==> Depths([tok] + rest, depth, after) == [depth] + Depths(rest, depth, 1)
    ensures tok.TypeName? ==> Depths([tok] + rest, depth, after) == [depth] + Depths(rest, depth, 2)
    ensures tok == Mark(LPAREN) ==>
      Depths([tok] + rest, depth, after) == (if after == 1 then [depth] else []) + Depths(rest, depth + 1, 0)
    ensures tok == Mark(RPAREN) ==> Depths([tok] + rest, depth, after) == Depths(rest, depth - 1, if after == 2 then 0 else 1)
    ensures tok == Mark(RBRACKET) ==> Depths([tok] + rest, depth, after) == [depth] + Depths(rest, depth, 1)
    ensures tok == Mark(INCREMENT) || tok == Mark(DECREMENT) ==> Depths([tok] + rest, depth, after) == [depth] + Depths(rest, depth, after)
    ensures tok.Mark? && tok.mark !in {LPAREN, RPAREN, RBRACKET, INCREMENT, DECREMENT} ==>
      Depths([tok] + rest, depth, after) == [depth] + Depths(rest, depth, 0)
  {
    assert ([tok] + rest)[1..] == rest;
  }

  /** The same, from the expression and its parentheses; `rest` for what follows it. */
  function Profile(t: Tree, a: Ann, depth: int, rest: seq<int>): seq<int>
    decreases t, 1, 0
  {
    var d := depth + a.parens;
    match t
    case Unary(op, e) =>
      if IsPostfix(op) then Profile(e, Kid(a, 0), d, [d] + rest) else [d] + Profile(e, Kid(a, 0), d, rest)
    case Typed(op, _, e) =>
      if op == UNOP_CAST then [d + 1] + Profile(e, Kid(a, 0), d, rest)
      else [d] + ([d] + ([d] + Profile(e, Kid(a, 0), d, rest)))
    case Binary(op, l, r) =>
      if op == BINOP_SUBSCRIPT then Profile(l, Kid(a, 0), d, [d] + Profile(r, Kid(a, 1), d, [d] + rest))
      else Profile(l, Kid(a, 0), d, [d] + Profile(r, Kid(a, 1), d, rest))
    case Cond(c, x, y) =>
      Profile(c, Kid(a, 0), d, [d] + Profile(x, Kid(a, 1), d, [d] + Profile(y, Kid(a, 2), d, rest)))
    case Field(_, _, e) => Profile(e, Kid(a, 0), d, [d] + ([d] + rest))
    case Call(f, _) => Profile(f, Kid(a, 0), d, [d] + ProfileArgs(t, a, 0, d + 1, rest))
    case _ => [d] + rest
  }

  function ProfileArgs(t: Tree, a: Ann, i: nat, d: int, rest: seq<int>): seq<int>
    requires t.Call? && i <= |t.args|
    decreases t, 0, |t.args| - i
  {
    if i == |t.args| then rest
    else
      var arg := Profile(t.args[i], Kid(a, i + 1), d, ProfileArgs(t, a, i + 1, d, rest));
      if i == 0 then arg else [d] + arg
  }

  lemma {:induction false} DepthsAreProfile(t: Tree, a: Ann, rest: seq<Token>, depth: int)
    requires Printable(t)
    ensures Depths(Emit(t, a, rest), depth, 0) == Profile(t, a, depth, Depths(rest, depth, 1))
    decreases t, 2 + a.parens, 0
  {
    hide Depths;
    if a.parens > 0 {
      ParensDeepen(t, a, rest, depth);
    } else if IsOperand(t) {
      DepthsOf(Operand(t), rest, depth, 0);
    } else if t.Binary? || t.Cond? || t.Call? {
      LongDepths(t, a, rest, depth);
    } else {
      ShortDepths(t, a, rest, depth);
    }
  }

  lemma {:induction false} ParensDeepen(t: Tree, a: Ann, rest: seq<Token>, depth: int)
    requires Printable(t) && a.parens > 0
    ensures Depths(Emit(t, a, rest), depth, 0) == Profile(t, a, depth, Depths(rest, depth, 1))
    decreases t, 1 + a.parens, 1
  {
    hide Depths;
    var close := [Mark(RPAREN)] + rest;
    DepthsOf(Mark(LPAREN), Emit(t, Peel(a), close), depth, 0);
    DepthsOf(Mark(RPAREN), rest, depth + 1, 1);
    DepthsAreProfile(t, Peel(a), close, depth + 1);
    ProfilePeels(t, a, depth, Depths(rest, depth, 1));
  }

  lemma ProfilePeels(t: Tree, a: Ann, depth: int, rest: seq<int>)
    requires a.parens > 0
    ensures Profile(t, a, depth, rest) == Profile(t, Peel(a), depth + 1, rest)
  {
    assert forall i: nat :: Kid(a, i) == Kid(Peel(a), i);
    if t.Call? {
      ProfileArgsPeel(t, a, 0, depth + a.parens + 1, rest);
    }
  }

  lemma {:induction false} ProfileArgsPeel(t: Tree, a: Ann, i: nat, d: int, rest: seq<int>)
    requires a.parens > 0 && t.Call? && i <= |t.args|
    ensures ProfileArgs(t, a, i, d, rest) == ProfileArgs(t, Peel(a), i, d, rest)
    decreases |t.args| - i
  {
    hide Profile;
    if i < |t.args| {
      ProfileArgsPeel(t, a, i + 1, d, rest);
      assert Kid(a, i + 1) == Kid(Peel(a), i + 1);
    }
  }

  lemma {:induction false} ShortDepths(t: Tree, a: Ann, rest: seq<Token>, depth: int)
    requires Printable(t) && a.parens == 0 && (t.Unary? || t.Typed? || t.Field?)
    ensures Depths(Emit(t, a, rest), depth, 0) == Profile(t, a, depth, Depths(rest, depth, 1))
    decreases t, 1, 0
  {
    hide Depths;
    PrintableParts(t);
    var e, ae := t.e, Kid(a, 0);
    match t
    case Unary(op, _) =>
      var mark := Mark(UnaryMark(op));
      if IsPostfix(op) {
        DepthsOf(mark, rest, depth, 1);
        DepthsAreProfile(e, ae, [mark] + rest, depth);
      } else {
        DepthsOf(mark, Emit(e, ae, rest), depth, 0);
        DepthsAreProfile(e, ae, rest, depth);
      }
    case Typed(op, ty, _) =>
      TypedDepths(t, Emit(e, ae, rest), depth);
      DepthsAreProfile(e, ae, rest, depth);
    case Field(op, s, _) =>
      var mark := Mark(if op == STRUCTOP_STRUCT then DOT else ARROW);
      DepthsOf(mark, [Name(s)] + rest, depth, 1);
      DepthsOf(Name(s), rest, depth, 0);
      assert [mark, Name(s)] + rest == [mark] + ([Name(s)] + rest);
      DepthsAreProfile(e, ae, [mark, Name(s)] + rest, depth);
  }

  lemma TypedDepths(t: Tree, toks: seq<Token>, depth: int)
    requires t.Typed? && HeadPrintable(t)
    ensures t.top == UNOP_CAST ==>
      Depths([Mark(LPAREN), TypeName(t.ty), Mark(RPAREN)] + toks, depth, 0) == [depth + 1] + Depths(toks, depth, 0)
    ensures t.top != UNOP_CAST ==>
      Depths([Mark(LBRACE), TypeName(t.ty), Mark(RBRACE)] + toks, depth, 0) == [depth] + ([depth] + ([depth] + Depths(toks, depth, 0)))
  {
    hide Depths;
    var ty := TypeName(t.ty);
    if t.top == UNOP_CAST {
      var r2 := [Mark(RPAREN)] + toks;
      assert [Mark(LPAREN), ty, Mark(RPAREN)] + toks == [Mark(LPAREN)] + ([ty] + r2);
      DepthsOf(Mark(LPAREN), [ty] + r2, depth, 0);
      DepthsOf(ty, r2, depth + 1, 0);
      DepthsOf(Mark(RPAREN), toks, depth + 1, 2);
    } else {
      var r2 := [Mark(RBRACE)] + toks;
      assert [Mark(LBRACE), ty, Mark(RBRACE)] + toks == [Mark(LBRACE)] + ([ty] + r2);
      DepthsOf(Mark(LBRACE), [ty] + r2, depth, 0);
      DepthsOf(ty, r2, depth, 0);
      DepthsOf(Mark(RBRACE), toks, depth, 2);
    }
  }

  lemma {:induction false} LongDepths(t: Tree, a: Ann, rest: seq<Token>, depth: int)
    requires Printable(t) && a.parens == 0 && (t.Binary? || t.Cond? || t.Call?)
    ensures Depths(Emit(t, a, rest), depth, 0) == Profile(t, a, depth, Depths(rest, depth, 1))
    decreases t, 1, 0
  {
    hide Depths;
    PrintableParts(t);
    match t
    case Binary(op, l, r) =>
      if op == BINOP_SUBSCRIPT {
        var close := [Mark(RBRACKET)] + rest;
        DepthsOf(Mark(RBRACKET), rest, depth, 1);
        DepthsAreProfile(r, Kid(a, 1), close, depth);
        DepthsOf(Mark(LBRACKET), Emit(r, Kid(a, 1), close), depth, 1);
        DepthsAreProfile(l, Kid(a, 0), [Mark(LBRACKET)] + Emit(r, Kid(a, 1), close), depth);
      } else {
        DepthsAreProfile(r, Kid(a, 1), rest, depth);
        DepthsOf(Mark(op), Emit(r, Kid(a, 1), rest), depth, 1);
        DepthsAreProfile(l, Kid(a, 0), [Mark(op)] + Emit(r, Kid(a, 1), rest), depth);
      }
    case Cond(c, x, y) =>
      var last := [Mark(COLON)] + Emit(y, Kid(a, 2), rest);
      DepthsAreProfile(y, Kid(a, 2), rest, depth);
      DepthsOf(Mark(COLON), Emit(y, Kid(a, 2), rest), depth, 1);
      DepthsAreProfile(x, Kid(a, 1), last, depth);
      DepthsOf(Mark(QUESTION), Emit(x, Kid(a, 1), last), depth, 1);
      DepthsAreProfile(c, Kid(a, 0), [Mark(QUESTION)] + Emit(x, Kid(a, 1), last), depth);
    case Call(f, _) =>
      var close := [Mark(RPAREN)] + rest;
      ArgDepths(t, a, 0, rest, depth + 1);
      DepthsOf(Mark(LPAREN), EmitArgs(t, a, 0, close), depth, 1);
      DepthsAreProfile(f, Kid(a, 0), [Mark(LPAREN)] + EmitArgs(t, a, 0, close), depth);
  }

  lemma {:induction false} ArgDepths(t: Tree, a: Ann, i: nat, rest: seq<Token>, d: int)
    requires Printable(t) && t.Call? && i <= |t.args|
    ensures var toks := EmitArgs(t, a, i, [Mark(RPAREN)] + rest);
      var p := ProfileArgs(t, a, i, d, Depths(rest, d - 1, 1));
      Depths(toks, d, if i == 0 then 0 else 1) == p
    decreases t, 0, |t.args| - i
  {
    hide Depths, Emit, Profile;
    var close := [Mark(RPAREN)] + rest;
    DepthsOf(Mark(RPAREN), rest, d, if i == 0 then 0 else 1);
    if i < |t.args| {
      PrintableParts(t);
      var more := EmitArgs(t, a, i + 1, close);
      ArgDepths(t, a, i + 1, rest, d);
      DepthsAreProfile(t.args[i], Kid(a, i + 1), more, d);
      DepthsOf(Mark(BINOP_COMMA), Emit(t.args[i], Kid(a, i + 1), more), d, 1);
    }
  }

  /** The parts of `t` are parenthesised alike, all the way down. */
  ghost predicate SameKids(t: Tree, a: Ann, b: Ann)
    decreases t, 0
  {
    forall i :: 0 <= i < |Args(t)| ==> Same(Args(t)[i], Kid(a, i), Kid(b, i))
  }

  ghost predicate Same(t: Tree, a: Ann, b: Ann)
    decreases t, 1
  {
    a.parens == b.parens && SameKids(t, a, b)
  }

  lemma SameOne(t: Tree, a: Ann, b: Ann)
    requires (t.Unary? || t.Typed? || t.Field?) && Same(t.e, Kid(a, 0), Kid(b, 0))
    ensures SameKids(t, a, b)
  {
    hide Kid, Same;
  }

  lemma SameTwo(t: Tree, a: Ann, b: Ann)
    requires t.Binary? && Same(t.a, Kid(a, 0), Kid(b, 0)) && Same(t.b, Kid(a, 1), Kid(b, 1))
    ensures SameKids(t, a, b)
  {
    hide Kid, Same;
  }

  lemma SameThree(t: Tree, a: Ann, b: Ann)
    requires t.Cond? && Same(t.c, Kid(a, 0), Kid(b, 0)) && Same(t.a, Kid(a, 1), Kid(b, 1)) && Same(t.b, Kid(a, 2), Kid(b, 2))
    ensures SameKids(t, a, b)
  {
    hide Kid, Same;
  }

  lemma Unshift(x: int, y: int, r: seq<int>, r': seq<int>)
    requires [x] + r == [y] + r'
    ensures x == y && r == r'
  {
    assert ([x] + r)[0] == x && ([y] + r')[0] == y;
    assert ([x] + r)[1..] == r && ([y] + r')[1..] == r';
  }

  /** Depths tell apart any two ways of parenthesising an expression, without saying where it ends. */
  lemma {:induction false} ProfileTells(t: Tree, a: Ann, b: Ann, da: int, db: int, r: seq<int>, r': seq<int>)
    requires Printable(t)
    requires Profile(t, a, da, r) == Profile(t, b, db, r')
    ensures da + a.parens == db + b.parens && SameKids(t, a, b) && r == r'
    decreases t, 1, 0
  {
    PrintableParts(t);
    var d, e := da + a.parens, db + b.parens;
    var a0, b0 := Kid(a, 0), Kid(b, 0);
    hide Printable, SameKids, Kid;
    match t
    case Unary(op, x) =>
      if IsPostfix(op) {
        ProfileTells(x, a0, b0, d, e, [d] + r, [e] + r');
        Unshift(d, e, r, r');
      } else {
        Unshift(d, e, Profile(x, a0, d, r), Profile(x, b0, e, r'));
        ProfileTells(x, a0, b0, d, e, r, r');
      }
      SameOne(t, a, b);
    case Typed(op, _, x) =>
      TypedTells(t, a0, b0, d, e, r, r');
      ProfileTells(x, a0, b0, d, e, r, r');
      SameOne(t, a, b);
    case Binary(op, l, x) => BinaryTells(t, a, b, d, e, r, r');
    case Cond(c, x, y) => CondTells(t, a, b, d, e, r, r');
    case Field(_, _, x) =>
      ProfileTells(x, a0, b0, d, e, [d] + ([d] + r), [e] + ([e] + r'));
      Unshift(d, e, [d] + r, [e] + r');
      Unshift(d, e, r, r');
      SameOne(t, a, b);
    case Call(f, _) => CallTells(t, a, b, d, e, r, r');
    case _ =>
      Unshift(d, e, r, r');
      LeafSame(t, a, b);
  }

  lemma LeafSame(t: Tree, a: Ann, b: Ann)
    requires Args(t) == []
    ensures SameKids(t, a, b)
  {
  }

  lemma TypedTells(t: Tree, a0: Ann, b0: Ann, d: int, e: int, r: seq<int>, r': seq<int>)
    requires t.Typed?
    requires if t.top == UNOP_CAST then [d + 1] + Profile(t.e, a0, d, r) == [e + 1] + Profile(t.e, b0, e, r')
             else [d] + ([d] + ([d] + Profile(t.e, a0, d, r))) == [e] + ([e] + ([e] + Profile(t.e, b0, e, r')))
    ensures d == e && Profile(t.e, a0, d, r) == Profile(t.e, b0, e, r')
  {
    hide Profile;
    var p, q := Profile(t.e, a0, d, r), Profile(t.e, b0, e, r');
    if t.top == UNOP_CAST {
      Unshift(d + 1, e + 1, p, q);
    } else {
      Unshift(d, e, [d] + ([d] + p), [e] + ([e] + q));
      Unshift(d, e, [d] + p, [e] + q);
      Unshift(d, e, p, q);
    }
  }

  lemma {:induction false} BinaryTells(t: Tree, a: Ann, b: Ann, d: int, e: int, r: seq<int>, r': seq<int>)
    requires Printable(t)
    requires t.Binary?
    requires var x, y := if t.bop == BINOP_SUBSCRIPT then [d] + r else r, if t.bop == BINOP_SUBSCRIPT then [e] + r' else r';
      Profile(t.a, Kid(a, 0), d, [d] + Profile(t.b, Kid(a, 1), d, x)) == Profile(t.a, Kid(b, 0), e, [e] + Profile(t.b, Kid(b, 1), e, y))
    ensures d == e && SameKids(t, a, b) && r == r'
    decreases t, 0, 0
  {
    PrintableParts(t);
    hide Printable, HeadPrintable, Profile, SameKids, Kid;
    var x, y := if t.bop == BINOP_SUBSCRIPT then [d] + r else r, if t.bop == BINOP_SUBSCRIPT then [e] + r' else r';
    var p, q := Profile(t.b, Kid(a, 1), d, x), Profile(t.b, Kid(b, 1), e, y);
    ProfileTells(t.a, Kid(a, 0), Kid(b, 0), d, e, [d] + p, [e] + q);
    Unshift(d, e, p, q);
    ProfileTells(t.b, Kid(a, 1), Kid(b, 1), d, e, x, y);
    if t.bop == BINOP_SUBSCRIPT {
      Unshift(d, e, r, r');
    }
    SameTwo(t, a, b);
  }

  lemma {:induction false} CondTells(t: Tree, a: Ann, b: Ann, d: int, e: int, r: seq<int>, r': seq<int>)
    requires Printable(t)
    requires t.Cond?
    requires Profile(t.c, Kid(a, 0), d, [d] + Profile(t.a, Kid(a, 1), d, [d] + Profile(t.b, Kid(a, 2), d, r)))
          == Profile(t.c, Kid(b, 0), e, [e] + Profile(t.a, Kid(b, 1), e, [e] + Profile(t.b, Kid(b, 2), e, r')))
    ensures d == e && SameKids(t, a, b) && r == r'
    decreases t, 0, 0
  {
    PrintableParts(t);
    hide Printable, HeadPrintable, Profile, SameKids, Kid;
    var p2, q2 := Profile(t.b, Kid(a, 2), d, r), Profile(t.b, Kid(b, 2), e, r');
    var p1, q1 := Profile(t.a, Kid(a, 1), d, [d] + p2), Profile(t.a, Kid(b, 1), e, [e] + q2);
    ProfileTells(t.c, Kid(a, 0), Kid(b, 0), d, e, [d] + p1, [e] + q1);
    Unshift(d, e, p1, q1);
    ProfileTells(t.a, Kid(a, 1), Kid(b, 1), d, e, [d] + p2, [e] + q2);
    Unshift(d, e, p2, q2);
    ProfileTells(t.b, Kid(a, 2), Kid(b, 2), d, e, r, r');
    SameThree(t, a, b);
  }

  lemma {:induction false} CallTells(t: Tree, a: Ann, b: Ann, d: int, e: int, r: seq<int>, r': seq<int>)
    requires Printable(t)
    requires t.Call?
    requires Profile(t.f, Kid(a, 0), d, [d] + ProfileArgs(t, a, 0, d + 1, r)) == Profile(t.f, Kid(b, 0), e, [e] + ProfileArgs(t, b, 0, e + 1, r'))
    ensures d == e && SameKids(t, a, b) && r == r'
    decreases t, 0, |t.args| + 1
  {
    PrintableParts(t);
    hide Printable, HeadPrintable, Profile, SameKids, Kid, ProfileArgs;
    var p, q := ProfileArgs(t, a, 0, d + 1, r), ProfileArgs(t, b, 0, e + 1, r');
    ProfileTells(t.f, Kid(a, 0), Kid(b, 0), d, e, [d] + p, [e] + q);
    Unshift(d, e, p, q);
    ArgsTell(t, a, b, 0, d + 1, r, r');
    SameMany(t, a, b);
  }

  ghost predicate SameArgsFrom(t: Tree, a: Ann, b: Ann, i: nat)
    requires t.Call?
  {
    forall j :: i <= j < |t.args| ==> Same(t.args[j], Kid(a, j + 1), Kid(b, j + 1))
  }

  lemma SameMany(t: Tree, a: Ann, b: Ann)
    requires t.Call? && Same(t.f, Kid(a, 0), Kid(b, 0)) && SameArgsFrom(t, a, b, 0)
    ensures SameKids(t, a, b)
  {
    hide Kid, Same, SameArgsFrom;
    var ps := Args(t);
    assert |ps| == 1 + |t.args| && ps[0] == t.f;
    forall i | 0 <= i < |ps|
      ensures Same(ps[i], Kid(a, i), Kid(b, i))
    {
      if i > 0 {
        SameArg(t, a, b, i - 1);
      }
    }
  }

  lemma SameArg(t: Tree, a: Ann, b: Ann, j: nat)
    requires t.Call? && j < |t.args| && SameArgsFrom(t, a, b, 0)
    ensures Same(Args(t)[j + 1], Kid(a, j + 1), Kid(b, j + 1))
  {
    hide Kid, Same;
    assert Args(t)[j + 1] == t.args[j];
  }

  lemma {:induction false} ArgsTell(t: Tree, a: Ann, b: Ann, i: nat, d: int, r: seq<int>, r': seq<int>)
    requires Printable(t)
    requires t.Call? && i <= |t.args|
    requires ProfileArgs(t, a, i, d, r) == ProfileArgs(t, b, i, d, r')
    ensures SameArgsFrom(t, a, b, i) && r == r'
    decreases t, 0, |t.args| - i
  {
    PrintableParts(t);
    hide Printable, HeadPrintable, Profile, SameKids, Kid;
    if i < |t.args| {
      var p, q := ProfileArgs(t, a, i + 1, d, r), ProfileArgs(t, b, i + 1, d, r');
      if i > 0 {
        Unshift(d, d, Profile(t.args[i], Kid(a, i + 1), d, p), Profile(t.args[i], Kid(b, i + 1), d, q));
      }
      ProfileTells(t.args[i], Kid(a, i + 1), Kid(b, i + 1), d, d, p, q);
      ArgsTell(t, a, b, i + 1, d, r, r');
      assert Same(t.args[i], Kid(a, i + 1), Kid(b, i + 1));
    }
  }

  lemma {:induction false} SameSatisfyGrammar(t: Tree, a: Ann, b: Ann)
    requires SameKids(t, a, b) && GrammarOk(t, a)
    ensures GrammarOk(t, b)
  {
    hide Demand, Kid;
    forall i | 0 <= i < |Args(t)|
      ensures Level(Args(t)[i], Kid(b, i)) >= Demand(t, i) && GrammarOk(Args(t)[i], Kid(b, i))
    {
      SameSatisfyGrammar(Args(t)[i], Kid(a, i), Kid(b, i));
    }
  }

  // ----- the results -----

  /** The reader accepts, for each expression, exactly the ways of writing it that have the
      parentheses the precedences call for; so no text has two readings. */
  lemma ReaderExact(toks: seq<Token>, t: Tree)
    ensures Read(toks) == Some(t) <==> exists a :: Wrote(t, a, toks, [])
  {
    hide ReadExp, Wrote;
    if Read(toks) == Some(t) {
      var a := ReadExpSound(EXP1, toks);
    }
    forall a | Wrote(t, a, toks, [])
      ensures Read(toks) == Some(t)
    {
      WroteReads(toks, t, a);
    }
  }

  lemma WroteReads(toks: seq<Token>, t: Tree, a: Ann)
    requires Wrote(t, a, toks, [])
    ensures Read(toks) == Some(t)
  {
    LevelGrips(t, a, EXP1);
    hide ReadExp, Level, Grip, Emit, GrammarOk, Printable;
    ReadsWhole(EXP1, t, a, []);
  }

  /** Two ways of writing one expression as the same tokens are equally good for the grammar. */
  lemma WritingsAgree(t: Tree, a: Ann, b: Ann)
    requires Printable(t) && Emit(t, a, []) == Emit(t, b, []) && GrammarOk(t, a)
    ensures GrammarOk(t, b)
  {
    hide Printable, Emit, GrammarOk, Profile, SameKids, Depths;
    DepthsAreProfile(t, a, [], 0);
    DepthsAreProfile(t, b, [], 0);
    ProfileTells(t, a, b, 0, 0, Depths([], 0, 1), Depths([], 0, 1));
    SameSatisfyGrammar(t, a, b);
  }

  /** What print_expression prints reads back as the same expression exactly when no `^` stands
      directly under `&` and no `@` directly under an arithmetic operator. */
  lemma PrintedReadsBack(t: Tree)
    requires Printable(t)
    ensures Read(Print(t, PREC_NULL, [])) == Some(t) <==> Agrees(t)
  {
    hide Printable, Emit, GrammarOk, Read, Agrees, PrintParens;
    var a := PrintParens(t, PREC_NULL);
    var toks := Print(t, PREC_NULL, []);
    PrintedAsDemanded(t, PREC_NULL);
    ReaderExact(toks, t);
    if GrammarOk(t, a) {
      assert Wrote(t, a, toks, []);
    }
    if Read(toks) == Some(t) {
      var b :| Wrote(t, b, toks, []);
      WritingsAgree(t, b, a);
    }
  }

  /** `x & (y ^ z)` is printed without its parentheses and reads back as `(x & y) ^ z`. */
  lemma CaretUnderAmpersand(x: Tree, y: Tree, z: Tree)
    requires IsOperand(x) && HeadOk(x) && IsOperand(y) && HeadOk(y) && IsOperand(z) && HeadOk(z)
    ensures var t := Binary(BINOP_LOGAND, x, Binary(BINOP_LOGXOR, y, z));
      Read(Print(t, PREC_NULL, [])) == Some(Binary(BINOP_LOGXOR, Binary(BINOP_LOGAND, x, y), z))
  {
    var inner, left := Binary(BINOP_LOGXOR, y, z), Binary(BINOP_LOGAND, x, y);
    var t, other := Binary(BINOP_LOGAND, x, inner), Binary(BINOP_LOGXOR, left, z);
    var leaf := Ann(0, []);
    var t4 := [Operand(z)] + [];
    var t2 := [Operand(y)] + ([Mark(BINOP_LOGXOR)] + t4);
    var toks := [Operand(x)] + ([Mark(BINOP_LOGAND)] + t2);
    assert Print(t, PREC_NULL, []) == toks by {
      CaretPrints(t, PREC_NULL, x, inner, []);
      CaretPrints(inner, Surround(t, 1), y, z, []);
    }
    hide Printable, HeadPrintable, Emit, GrammarOk, Print, Wrote;
    WroteOperand(x, toks, [Mark(BINOP_LOGAND)] + t2);
    WroteOperand(y, t2, [Mark(BINOP_LOGXOR)] + t4);
    WroteOperand(z, t4, []);
    WroteInfix(left, leaf, leaf, toks, t2, [Mark(BINOP_LOGXOR)] + t4);
    WroteInfix(other, Ann(0, [leaf, leaf]), leaf, toks, t4, []);
    WroteReads(toks, other, Ann(0, [Ann(0, [leaf, leaf]), leaf]));
  }

  lemma CaretPrints(t: Tree, prec: int, l: Tree, r: Tree, rest: seq<Token>)
    requires t.Binary? && IsInfix(t.bop) && t.a == l && t.b == r && IsOperand(l) && PrintPrec(t.bop) >= prec
    ensures Print(t, prec, rest) == [Operand(l)] + ([Mark(t.bop)] + Print(r, Surround(t, 1), rest))
    ensures IsOperand(r) ==> Print(t, prec, rest) == [Operand(l)] + ([Mark(t.bop)] + ([Operand(r)] + rest))
  {
    var p := PrintParens(t, prec);
    assert Args(t) == [l, r];
    assert Kid(p, 0) == PrintParens(l, Surround(t, 0)) && Kid(p, 1) == PrintParens(r, Surround(t, 1));
    assert p.parens == 0 && Kid(p, 0).parens == 0;
    var more := [Mark(t.bop)] + Emit(r, Kid(p, 1), rest);
    assert Emit(t, p, rest) == Emit(l, Kid(p, 0), more);
    assert Emit(l, Kid(p, 0), more) == [Operand(l)] + more;
    assert IsOperand(r) ==> PrintParens(r, Surround(t, 1)).parens == 0;
  }
}
