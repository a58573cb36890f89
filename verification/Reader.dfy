/** The expression grammar with its declared precedences, as a reader of tokens, and what printed
    expressions read back as. */
module Reader {
  import opened Expression
  import opened Notation
  import opened Wrappers

  function PrefixOp(mark: int): Option<Opcode> {
    if mark == BINOP_SUB then Some(UNOP_NEG)
    else if mark == BINOP_MUL then Some(UNOP_IND)
    else if mark == BINOP_LOGAND then Some(UNOP_ADDR)
    else if mark == BANG then Some(UNOP_ZEROP)
    else if mark == TILDE then Some(UNOP_LOGNOT)
    else if mark == INCREMENT then Some(UNOP_PREINCREMENT)
    else if mark == DECREMENT then Some(UNOP_PREDECREMENT)
    else None
  }

  predicate IsInfixToken(tok: Token) {
    tok.Mark? && (IsInfix(tok.mark) || tok.mark == QUESTION)
  }

  predicate IsPostfixToken(tok: Token) {
    tok.Mark? && tok.mark in {DOT, ARROW, LBRACKET, LPAREN, INCREMENT, DECREMENT}
  }

  /** The single tokens that are expressions, as the lexer makes them. */
  predicate IsWord(tok: Token) {
    tok.Operand? && IsOperand(tok.t) && HeadOk(tok.t)
  }

  /** The token `mark` is next, and what follows it. */
  function Skip(mark: int, toks: seq<Token>): (r: Option<seq<Token>>)
    ensures r.Some? ==> toks == [Mark(mark)] + r.value
  {
    if toks != [] && toks[0] == Mark(mark) then Some(toks[1..]) else None
  }

  /** An expression of level `min` or above, and the tokens left over. */
  function ReadExp(min: int, toks: seq<Token>): (r: Option<(Tree, seq<Token>)>)
    ensures r.Some? ==> |r.value.1| < |toks|
    decreases |toks|, 3
  {
    var (t, rest) :- ReadUnary(toks);
    Climb(min, t, rest)
  }

  /** Take in infix operators of level `min` or above, `lhs` being the left operand so far. */
  function Climb(min: int, lhs: Tree, toks: seq<Token>): (r: Option<(Tree, seq<Token>)>)
    ensures r.Some? ==> |r.value.1| <= |toks|
    decreases |toks|, 1
  {
    if toks == [] || !IsInfixToken(toks[0]) || InfixLevel(toks[0].mark) < min then Some((lhs, toks))
    else if toks[0].mark == QUESTION then
      var (x, rest) :- ReadExp(EXP, toks[1..]);
      var rest' :- Skip(COLON, rest);
      var (y, rest'') :- ReadExp(InfixLevel(QUESTION), rest');
      Climb(min, Cond(lhs, x, y), rest'')
    else
      var op := toks[0].mark;
      var (rhs, rest) :- ReadExp(if op == BINOP_ASSIGN then InfixLevel(op) else InfixLevel(op) + 1, toks[1..]);
      Climb(min, Binary(op, lhs, rhs), rest)
  }

  function ReadUnary(toks: seq<Token>): (r: Option<(Tree, seq<Token>)>)
    ensures r.Some? ==> |r.value.1| < |toks|
    decreases |toks|, 2
  {
    if toks == [] then None
    else if IsWord(toks[0]) then ReadPostfix(toks[0].t, toks[1..])
    else if !toks[0].Mark? then None
    else if toks[0].mark == LPAREN && |toks| > 2 && toks[1].TypeName? && toks[2] == Mark(RPAREN) then
      var (e, rest) :- ReadUnary(toks[3..]);
      Some((Typed(UNOP_CAST, toks[1].ty, e), rest))
    else if toks[0].mark == LBRACE && |toks| > 2 && toks[1].TypeName? && toks[2] == Mark(RBRACE) then
      var (e, rest) :- ReadUnary(toks[3..]);
      Some((Typed(UNOP_MEMVAL, toks[1].ty, e), rest))
    else if toks[0].mark == LPAREN then
      var (e, rest) :- ReadExp(EXP1, toks[1..]);
      var rest' :- Skip(RPAREN, rest);
      ReadPostfix(e, rest')
    else
      var op :- PrefixOp(toks[0].mark);
      var (e, rest) :- ReadUnary(toks[1..]);
      Some((Unary(op, e), rest))
  }

  function ReadPostfix(lhs: Tree, toks: seq<Token>): (r: Option<(Tree, seq<Token>)>)
    ensures r.Some? ==> |r.value.1| <= |toks|
    decreases |toks|, 0
  {
    if toks == [] || !IsPostfixToken(toks[0]) then Some((lhs, toks))
    else if toks[0].mark == DOT || toks[0].mark == ARROW then
      if |toks| < 2 || !toks[1].Name? || !NulFree(toks[1].name) then None
      else ReadPostfix(Field(if toks[0].mark == DOT then STRUCTOP_STRUCT else STRUCTOP_PTR, toks[1].name, lhs), toks[2..])
    else if toks[0].mark == LBRACKET then
      var (i, rest) :- ReadExp(EXP1, toks[1..]);
      var rest' :- Skip(RBRACKET, rest);
      ReadPostfix(Binary(BINOP_SUBSCRIPT, lhs, i), rest')
    else if toks[0].mark == LPAREN then
      var (args, rest) :- ReadArgs(toks[1..]);
      ReadPostfix(Call(lhs, args), rest)
    else
      ReadPostfix(Unary(if toks[0].mark == INCREMENT then UNOP_POSTINCREMENT else UNOP_POSTDECREMENT, lhs), toks[1..])
  }

  /** An argument list and the parenthesis that closes it. */
  function ReadArgs(toks: seq<Token>): (r: Option<(seq<Tree>, seq<Token>)>)
    ensures r.Some? ==> |r.value.1| < |toks|
    decreases |toks|, 4
  {
    if toks != [] && toks[0] == Mark(RPAREN) then Some(([], toks[1..]))
    else
      var (arg, rest) :- ReadExp(EXP, toks);
      var (args, rest') :- ReadMoreArgs(rest);
      Some(([arg] + args, rest'))
  }

  function ReadMoreArgs(toks: seq<Token>): (r: Option<(seq<Tree>, seq<Token>)>)
    ensures r.Some? ==> |r.value.1| < |toks|
    decreases |toks|, 4
  {
    if toks != [] && toks[0] == Mark(RPAREN) then Some(([], toks[1..]))
    else
      var toks' :- Skip(BINOP_COMMA, toks);
      var (arg, rest) :- ReadExp(EXP, toks');
      var (args, rest') :- ReadMoreArgs(rest);
      Some(([arg] + args, rest'))
  }

  /** The rule `start: exp1`, with nothing left over. */
  function Read(toks: seq<Token>): Option<Tree> {
    var (t, rest) :- ReadExp(EXP1, toks);
    if rest == [] then Some(t) else None
  }

  // ----- whatever has the parentheses it needs reads back as itself -----

  /** How tightly the next token holds on to what is before it. */
  function Pull(toks: seq<Token>): (p: int)
    ensures 0 <= p <= SUFFIX
  {
    if toks == [] then 0
    else if IsPostfixToken(toks[0]) then SUFFIX
    else if IsInfixToken(toks[0]) then InfixLevel(toks[0].mark)
    else 0
  }

  /** `t` is not broken up by a following token that pulls less than this. */
  function Grip(t: Tree, a: Ann): int {
    if a.parens > 0 then SUFFIX + 1
    else match t
      case Unary(op, _) => if IsPostfix(op) then SUFFIX + 1 else UNARY + 1
      case Typed(_, _, _) => UNARY + 1
      case Binary(op, _, _) => if op == BINOP_SUBSCRIPT then SUFFIX + 1 else Demand(t, 1)
      case Cond(_, _, _) => Demand(t, 2)
      case _ => SUFFIX + 1
  }

  lemma LevelGrips(t: Tree, a: Ann, level: int)
    requires Level(t, a) >= level
    ensures Grip(t, a) >= level
    ensures level != InfixLevel(BINOP_ASSIGN) && level != InfixLevel(QUESTION) ==> Grip(t, a) > level
  {
  }

  lemma EmitStarts(t: Tree, a: Ann, rest: seq<Token>)
    ensures var toks := Emit(t, a, rest); toks != [] && !toks[0].TypeName? && toks[0] != Mark(RPAREN)
    decreases t, a.parens
  {
    if a.parens == 0 {
      match t
      case Unary(op, e) => EmitStarts(e, Kid(a, 0), [Mark(UnaryMark(op))] + rest);
      case Binary(op, l, r) =>
        EmitStarts(l, Kid(a, 0), [Mark(op)] + Emit(r, Kid(a, 1), rest));
        EmitStarts(l, Kid(a, 0), [Mark(LBRACKET)] + Emit(r, Kid(a, 1), [Mark(RBRACKET)] + rest));
      case Cond(c, x, y) =>
        EmitStarts(c, Kid(a, 0), [Mark(QUESTION)] + Emit(x, Kid(a, 1), [Mark(COLON)] + Emit(y, Kid(a, 2), rest)));
      case Field(op, s, e) =>
        EmitStarts(e, Kid(a, 0), [Mark(if op == STRUCTOP_STRUCT then DOT else ARROW), Name(s)] + rest);
      case Call(f, _) =>
        EmitStarts(f, Kid(a, 0), [Mark(LPAREN)] + EmitArgs(t, a, 0, [Mark(RPAREN)] + rest));
      case _ =>
    }
  }

  /** Reading stops after `t` where the next token does not reach into it. */
  lemma {:induction false} ReadsWhole(min: int, t: Tree, a: Ann, rest: seq<Token>)
    requires Printable(t) && GrammarOk(t, a) && EXP1 <= min <= Level(t, a) && Pull(rest) < Grip(t, a)
    requires Pull(rest) < min
    ensures ReadExp(min, Emit(t, a, rest)) == Some((t, rest))
    decreases t, a.parens, 5, 0
  {
    Climbs(min, t, a, rest);
    hide Emit, GrammarOk, Printable, Level, Grip, ReadExp;
  }

  lemma {:induction false} Climbs(min: int, t: Tree, a: Ann, rest: seq<Token>)
    requires Printable(t) && GrammarOk(t, a) && EXP1 <= min <= Level(t, a) && Pull(rest) < Grip(t, a) && Pull(rest) < SUFFIX
    ensures ReadExp(min, Emit(t, a, rest)) == Climb(min, t, rest)
    decreases t, a.parens, 4, 0
  {
    if Level(t, a) >= UNARY {
      UnaryReads(t, a, rest);
      hide Emit, GrammarOk, Printable, Level, Grip, Climb, ReadUnary;
    } else if t.Binary? {
      InfixClimbs(min, t, a, rest);
    } else {
      CondClimbs(min, t, a, rest);
    }
  }

  lemma {:induction false} InfixClimbs(min: int, t: Tree, a: Ann, rest: seq<Token>)
    requires Printable(t) && GrammarOk(t, a) && EXP1 <= min <= Level(t, a) && Pull(rest) < Grip(t, a) && Pull(rest) < SUFFIX
    requires a.parens == 0 && t.Binary? && IsInfix(t.bop)
    ensures ReadExp(min, Emit(t, a, rest)) == Climb(min, t, rest)
    decreases t, a.parens, 3, 0
  {
    PrintableParts(t);
    GrammarOkParts(t, a);
    var op, l, r := t.bop, t.a, t.b;
    var right := Emit(r, Kid(a, 1), rest);
    var toks := [Mark(op)] + right;
    assert toks[1..] == right;
    LevelGrips(l, Kid(a, 0), Demand(t, 0));
    LevelGrips(r, Kid(a, 1), Demand(t, 1));
    assert Emit(t, a, rest) == Emit(l, Kid(a, 0), toks);
    hide Emit, Printable, HeadPrintable, GrammarOk, ReadExp;
    Climbs(min, l, Kid(a, 0), toks);
    ReadsWhole(Demand(t, 1), r, Kid(a, 1), rest);
  }

  lemma {:induction false} CondClimbs(min: int, t: Tree, a: Ann, rest: seq<Token>)
    requires Printable(t) && GrammarOk(t, a) && EXP1 <= min <= Level(t, a) && Pull(rest) < Grip(t, a) && Pull(rest) < SUFFIX
    requires a.parens == 0 && t.Cond?
    ensures ReadExp(min, Emit(t, a, rest)) == Climb(min, t, rest)
    decreases t, a.parens, 3, 0
  {
    PrintableParts(t);
    GrammarOkParts(t, a);
    var c, x, y := t.c, t.a, t.b;
    var last := Emit(y, Kid(a, 2), rest);
    var colon := [Mark(COLON)] + last;
    var middle := Emit(x, Kid(a, 1), colon);
    var toks := [Mark(QUESTION)] + middle;
    assert toks[1..] == middle && colon[1..] == last;
    LevelGrips(c, Kid(a, 0), Demand(t, 0));
    LevelGrips(x, Kid(a, 1), Demand(t, 1));
    LevelGrips(y, Kid(a, 2), Demand(t, 2));
    assert Emit(t, a, rest) == Emit(c, Kid(a, 0), toks);
    hide Emit, Printable, HeadPrintable, GrammarOk, ReadExp;
    Climbs(min, c, Kid(a, 0), toks);
    ReadsWhole(EXP, x, Kid(a, 1), colon);
    ReadsWhole(Demand(t, 2), y, Kid(a, 2), rest);
  }

  lemma {:induction false} UnaryReads(t: Tree, a: Ann, rest: seq<Token>)
    requires Printable(t) && GrammarOk(t, a) && Level(t, a) >= UNARY && Pull(rest) < SUFFIX
    ensures ReadUnary(Emit(t, a, rest)) == Some((t, rest))
    decreases t, a.parens, 3, 0
  {
    if Level(t, a) == SUFFIX {
      PostfixReads(t, a, rest);
      hide Emit, GrammarOk, Printable, Level, ReadUnary;
      assert ReadPostfix(t, rest) == Some((t, rest));
    } else {
      PrintableParts(t);
      GrammarOkParts(t, a);
      var operand := Emit(t.e, Kid(a, 0), rest);
      UnaryReads(t.e, Kid(a, 0), rest);
      EmitStarts(t.e, Kid(a, 0), rest);
      hide GrammarOk, Printable, HeadPrintable, Level;
      if t.Unary? {
        var toks := [Mark(UnaryMark(t.uop))] + operand;
        assert Emit(t, a, rest) == toks && toks[1..] == operand;
      } else {
        var toks := [Mark(if t.top == UNOP_CAST then LPAREN else LBRACE), TypeName(t.ty),
                     Mark(if t.top == UNOP_CAST then RPAREN else RBRACE)] + operand;
        assert Emit(t, a, rest) == toks && toks[3..] == operand;
      }
    }
  }

  lemma {:induction false} PostfixReads(t: Tree, a: Ann, rest: seq<Token>)
    requires Printable(t) && GrammarOk(t, a) && Level(t, a) == SUFFIX
    ensures ReadUnary(Emit(t, a, rest)) == ReadPostfix(t, rest)
    decreases t, a.parens, 2, 0
  {
    if a.parens > 0 {
      ParensRead(t, a, rest);
    } else if IsOperand(t) {
      var toks := [Operand(t)] + rest;
      assert Emit(t, a, rest) == toks && toks[1..] == rest;
    } else {
      PrintableParts(t);
      GrammarOkParts(t, a);
      match t
      case Unary(op, e) =>
        var toks := [Mark(UnaryMark(op))] + rest;
        assert Emit(t, a, rest) == Emit(e, Kid(a, 0), toks) && toks[1..] == rest;
        hide Emit, Printable, GrammarOk, ReadUnary;
        PostfixReads(e, Kid(a, 0), toks);
      case Binary(_, l, r) => SubscriptReads(t, a, rest);
      case Field(op, s, e) =>
        var toks := [Mark(if op == STRUCTOP_STRUCT then DOT else ARROW), Name(s)] + rest;
        assert Emit(t, a, rest) == Emit(e, Kid(a, 0), toks) && toks[2..] == rest;
        hide Emit, Printable, GrammarOk, ReadUnary;
        PostfixReads(e, Kid(a, 0), toks);
      case Call(f, _) => CallReads(t, a, rest);
    }
  }

  lemma {:induction false} ParensRead(t: Tree, a: Ann, rest: seq<Token>)
    requires Printable(t) && GrammarOk(t, a) && a.parens > 0
    ensures ReadUnary(Emit(t, a, rest)) == ReadPostfix(t, rest)
    decreases t, a.parens, 1, 0
  {
    var close := [Mark(RPAREN)] + rest;
    var inner := Emit(t, Peel(a), close);
    var toks := [Mark(LPAREN)] + inner;
    assert Emit(t, a, rest) == toks && toks[1..] == inner && close[1..] == rest;
    EmitStarts(t, Peel(a), close);
    assert GrammarOk(t, Peel(a)) by {
      forall i | 0 <= i < |Args(t)|
        ensures Kid(Peel(a), i) == Kid(a, i)
      {
      }
    }
    LevelGrips(t, Peel(a), EXP1);
    hide Emit, Printable, GrammarOk, Level, ReadExp;
    ReadsWhole(EXP1, t, Peel(a), close);
  }

  lemma {:induction false} SubscriptReads(t: Tree, a: Ann, rest: seq<Token>)
    requires Printable(t) && GrammarOk(t, a) && a.parens == 0 && t.Binary? && t.bop == BINOP_SUBSCRIPT
    ensures ReadUnary(Emit(t, a, rest)) == ReadPostfix(t, rest)
    decreases t, a.parens, 1, 0
  {
    PrintableParts(t);
    GrammarOkParts(t, a);
    var close := [Mark(RBRACKET)] + rest;
    var inner := Emit(t.b, Kid(a, 1), close);
    var toks := [Mark(LBRACKET)] + inner;
    assert Emit(t, a, rest) == Emit(t.a, Kid(a, 0), toks) && toks[1..] == inner && close[1..] == rest;
    LevelGrips(t.b, Kid(a, 1), EXP1);
    hide Emit, Printable, GrammarOk, ReadUnary, ReadExp;
    PostfixReads(t.a, Kid(a, 0), toks);
    ReadsWhole(EXP1, t.b, Kid(a, 1), close);
  }

  lemma {:induction false} CallReads(t: Tree, a: Ann, rest: seq<Token>)
    requires Printable(t) && GrammarOk(t, a) && a.parens == 0 && t.Call?
    ensures ReadUnary(Emit(t, a, rest)) == ReadPostfix(t, rest)
    decreases t, a.parens, 1, 0
  {
    PrintableParts(t);
    GrammarOkParts(t, a);
    var inner := EmitArgs(t, a, 0, [Mark(RPAREN)] + rest);
    var toks := [Mark(LPAREN)] + inner;
    assert Emit(t, a, rest) == Emit(t.f, Kid(a, 0), toks) && toks[1..] == inner;
    ArgsRead(t, a, rest);
    hide Emit, Printable, GrammarOk, ReadUnary, ReadArgs, EmitArgs;
    PostfixReads(t.f, Kid(a, 0), toks);
  }

  lemma {:induction false} ArgsRead(t: Tree, a: Ann, rest: seq<Token>)
    requires Printable(t) && GrammarOk(t, a) && t.Call?
    ensures ReadArgs(EmitArgs(t, a, 0, [Mark(RPAREN)] + rest)) == Some((t.args, rest))
    decreases t, 0, 0, |t.args| + 1
  {
    hide Emit, Printable, GrammarOk, ReadExp, ReadMoreArgs, Level, Grip, Pull, Kid;
    var close := [Mark(RPAREN)] + rest;
    assert close[1..] == rest;
    if t.args != [] {
      NoMoreArgs(rest);
      var more := EmitArgs(t, a, 1, close);
      MoreArgsRead(t, a, 1, rest);
      OneArgRead(t, a, 0, close);
      EmitStarts(t.args[0], Kid(a, 1), more);
      assert t.args == [t.args[0]] + t.args[1..];
    }
  }

  lemma MoreArgsPull(t: Tree, a: Ann, i: nat, rest: seq<Token>)
    requires t.Call? && 1 <= i <= |t.args| && Pull(rest) < EXP
    ensures Pull(EmitArgs(t, a, i, rest)) < EXP
  {
    hide Emit;
  }

  lemma {:induction false} MoreArgsRead(t: Tree, a: Ann, i: nat, rest: seq<Token>)
    requires Printable(t) && GrammarOk(t, a) && t.Call? && 1 <= i <= |t.args|
    ensures ReadMoreArgs(EmitArgs(t, a, i, [Mark(RPAREN)] + rest)) == Some((t.args[i..], rest))
    decreases t, 0, 0, |t.args| - i
  {
    hide Emit, Printable, GrammarOk, ReadExp, Level, Grip, Pull, Kid, ReadMoreArgs;
    var close := [Mark(RPAREN)] + rest;
    NoMoreArgs(rest);
    if i == |t.args| {
      assert t.args[i..] == [];
    } else {
      var arg, tail, ai := t.args[i], t.args[i + 1..], Kid(a, i + 1);
      assert t.args[i..] == [arg] + tail;
      var more := EmitArgs(t, a, i + 1, close);
      assert EmitArgs(t, a, i, close) == [Mark(BINOP_COMMA)] + Emit(arg, ai, more);
      hide EmitArgs;
      MoreArgsRead(t, a, i + 1, rest);
      OneArgRead(t, a, i, close);
      OneMoreArg(Emit(arg, ai, more), arg, more, tail, rest);
    }
  }

  lemma NoMoreArgs(rest: seq<Token>)
    ensures ReadMoreArgs([Mark(RPAREN)] + rest) == Some(([], rest)) && Pull([Mark(RPAREN)] + rest) < EXP
  {
    assert ([Mark(RPAREN)] + rest)[1..] == rest;
  }

  lemma {:induction false} OneArgRead(t: Tree, a: Ann, i: nat, close: seq<Token>)
    requires Printable(t) && GrammarOk(t, a) && t.Call? && i < |t.args| && Pull(close) < EXP
    ensures var more := EmitArgs(t, a, i + 1, close);
      ReadExp(EXP, Emit(t.args[i], Kid(a, i + 1), more)) == Some((t.args[i], more))
    decreases t, 0, 0, 0
  {
    PrintableParts(t);
    GrammarOkArg(t, a, i);
    LevelGrips(t.args[i], Kid(a, i + 1), EXP);
    MoreArgsPull(t, a, i + 1, close);
    hide Emit, EmitArgs, Printable, GrammarOk, ReadExp, Level, Grip, Pull;
    ReadsWhole(EXP, t.args[i], Kid(a, i + 1), EmitArgs(t, a, i + 1, close));
  }

  lemma OneMoreArg(toks: seq<Token>, arg: Tree, more: seq<Token>, args: seq<Tree>, rest: seq<Token>)
    requires ReadExp(EXP, toks) == Some((arg, more)) && ReadMoreArgs(more) == Some((args, rest))
    ensures ReadMoreArgs([Mark(BINOP_COMMA)] + toks) == Some(([arg] + args, rest))
  {
    hide ReadExp;
    assert ([Mark(BINOP_COMMA)] + toks)[1..] == toks;
  }

  // ----- whatever is read had the parentheses it needs -----

  /** `t`, written with `a`, is what was read: the tokens are its own and the rest. */
  ghost predicate Wrote(t: Tree, a: Ann, toks: seq<Token>, rest: seq<Token>) {
    Printable(t) && GrammarOk(t, a) && toks == Emit(t, a, rest)
  }

  lemma {:induction false} ReadExpSound(min: int, toks: seq<Token>) returns (a: Ann)
    requires EXP1 <= min <= UNARY && ReadExp(min, toks).Some?
    ensures var (t, rest) := ReadExp(min, toks).value;
      Wrote(t, a, toks, rest) && Level(t, a) >= min && Pull(rest) < min
    decreases |toks|, 3
  {
    hide Emit, Printable, GrammarOk;
    a := ReadUnarySound(toks);
    var (t, rest) := ReadUnary(toks).value;
    hide ReadUnary;
    a := ClimbSound(min, t, a, toks, rest);
  }

  lemma {:induction false} ClimbSound(min: int, lhs: Tree, al: Ann, all: seq<Token>, toks: seq<Token>) returns (a: Ann)
    requires Wrote(lhs, al, all, toks) && EXP1 <= min <= UNARY
    requires Level(lhs, al) >= min && Pull(toks) < Grip(lhs, al) && Pull(toks) < SUFFIX
    requires Climb(min, lhs, toks).Some?
    ensures var (t, rest) := Climb(min, lhs, toks).value;
      Wrote(t, a, all, rest) && Level(t, a) >= min && Pull(rest) < min
    decreases |toks|, 1
  {
    if toks == [] || !IsInfixToken(toks[0]) || InfixLevel(toks[0].mark) < min {
      a := al;
    } else if toks[0].mark == QUESTION {
      a := ClimbCondSound(min, lhs, al, all, toks);
    } else {
      a := ClimbInfixSound(min, lhs, al, all, toks);
    }
  }

  lemma {:induction false} ClimbInfixSound(min: int, lhs: Tree, al: Ann, all: seq<Token>, toks: seq<Token>) returns (a: Ann)
    requires Wrote(lhs, al, all, toks) && EXP1 <= min <= UNARY
    requires Level(lhs, al) >= min && Pull(toks) < Grip(lhs, al)
    requires Climb(min, lhs, toks).Some?
    requires toks != [] && IsInfixToken(toks[0]) && toks[0].mark != QUESTION && InfixLevel(toks[0].mark) >= min
    ensures var (t, rest) := Climb(min, lhs, toks).value;
      Wrote(t, a, all, rest) && Level(t, a) >= min && Pull(rest) < min
    decreases |toks|, 0
  {
    hide Wrote, ReadExp;
    var op := toks[0].mark;
    var demand := if op == BINOP_ASSIGN then InfixLevel(op) else InfixLevel(op) + 1;
    var ar := ReadExpSound(demand, toks[1..]);
    var (rhs, rest) := ReadExp(demand, toks[1..]).value;
    var t := Binary(op, lhs, rhs);
    assert toks == [Mark(op)] + toks[1..];
    WroteInfix(t, al, ar, all, toks[1..], rest);
    a := ClimbSound(min, t, Ann(0, [al, ar]), all, rest);
  }

  lemma {:induction false} ClimbCondSound(min: int, lhs: Tree, al: Ann, all: seq<Token>, toks: seq<Token>) returns (a: Ann)
    requires Wrote(lhs, al, all, toks) && EXP1 <= min <= UNARY
    requires Level(lhs, al) >= min && Pull(toks) < Grip(lhs, al)
    requires Climb(min, lhs, toks).Some?
    requires toks != [] && toks[0] == Mark(QUESTION) && InfixLevel(QUESTION) >= min
    ensures var (t, rest) := Climb(min, lhs, toks).value;
      Wrote(t, a, all, rest) && Level(t, a) >= min && Pull(rest) < min
    decreases |toks|, 0
  {
    hide Wrote, ReadExp;
    var ax := ReadExpSound(EXP, toks[1..]);
    var (x, colon) := ReadExp(EXP, toks[1..]).value;
    var last := Skip(COLON, colon).value;
    var ay := ReadExpSound(InfixLevel(QUESTION), last);
    var (y, rest) := ReadExp(InfixLevel(QUESTION), last).value;
    var t := Cond(lhs, x, y);
    assert toks == [Mark(QUESTION)] + toks[1..];
    WroteCond(t, al, ax, ay, all, toks[1..], last, rest);
    a := ClimbSound(min, t, Ann(0, [al, ax, ay]), all, rest);
  }

  lemma {:induction false} ReadUnarySound(toks: seq<Token>) returns (a: Ann)
    requires ReadUnary(toks).Some?
    ensures var (t, rest) := ReadUnary(toks).value;
      Wrote(t, a, toks, rest) && Level(t, a) >= UNARY && Pull(rest) < SUFFIX
    decreases |toks|, 2
  {
    hide Wrote, ReadPostfix, ReadExp;
    var first := toks[0];
    if IsWord(first) {
      assert toks == [first] + toks[1..];
      WroteOperand(first.t, toks, toks[1..]);
      a := ReadPostfixSound(first.t, Ann(0, []), toks, toks[1..]);
    } else if first.mark == LPAREN && |toks| > 2 && toks[1].TypeName? && toks[2] == Mark(RPAREN) {
      var ae := ReadUnarySound(toks[3..]);
      a := Ann(0, [ae]);
      WroteCast(UNOP_CAST, ae, toks);
    } else if first.mark == LBRACE && |toks| > 2 && toks[1].TypeName? && toks[2] == Mark(RBRACE) {
      var ae := ReadUnarySound(toks[3..]);
      a := Ann(0, [ae]);
      WroteCast(UNOP_MEMVAL, ae, toks);
    } else if first.mark == LPAREN {
      a := ReadParensSound(toks);
    } else {
      var ae := ReadUnarySound(toks[1..]);
      a := Ann(0, [ae]);
      assert toks == [first] + toks[1..];
      WrotePrefix(PrefixOp(first.mark).value, ReadUnary(toks[1..]).value.0, ae, toks[1..], ReadUnary(toks[1..]).value.1);
    }
  }

  lemma {:induction false} ReadParensSound(toks: seq<Token>) returns (a: Ann)
    requires toks != [] && toks[0] == Mark(LPAREN) && ReadExp(EXP1, toks[1..]).Some?
    requires Skip(RPAREN, ReadExp(EXP1, toks[1..]).value.1).Some?
    requires var (e, rest) := ReadExp(EXP1, toks[1..]).value; ReadPostfix(e, Skip(RPAREN, rest).value).Some?
    ensures var (e, rest) := ReadExp(EXP1, toks[1..]).value;
      var (t, rest') := ReadPostfix(e, Skip(RPAREN, rest).value).value;
      Wrote(t, a, toks, rest') && Level(t, a) >= UNARY && Pull(rest') < SUFFIX
    decreases |toks|, 1
  {
    hide Wrote, ReadPostfix, ReadExp;
    var ae := ReadExpSound(EXP1, toks[1..]);
    var (e, close) := ReadExp(EXP1, toks[1..]).value;
    var rest := Skip(RPAREN, close).value;
    assert toks == [Mark(LPAREN)] + toks[1..];
    WroteParens(e, ae, toks[1..], rest);
    a := ReadPostfixSound(e, Ann(ae.parens + 1, ae.kids), toks, rest);
  }

  lemma {:induction false} ReadPostfixSound(lhs: Tree, al: Ann, all: seq<Token>, toks: seq<Token>) returns (a: Ann)
    requires Wrote(lhs, al, all, toks) && Level(lhs, al) == SUFFIX && ReadPostfix(lhs, toks).Some?
    ensures var (t, rest) := ReadPostfix(lhs, toks).value;
      Wrote(t, a, all, rest) && Level(t, a) == SUFFIX && Pull(rest) < SUFFIX
    decreases |toks|, 0
  {
    hide Wrote, ReadExp, ReadArgs;
    if toks == [] || !IsPostfixToken(toks[0]) {
      a := al;
    } else if toks[0].mark == DOT || toks[0].mark == ARROW {
      var t := Field(if toks[0].mark == DOT then STRUCTOP_STRUCT else STRUCTOP_PTR, toks[1].name, lhs);
      assert toks == [toks[0], toks[1]] + toks[2..];
      WroteField(t, al, all, toks[2..]);
      a := ReadPostfixSound(t, Ann(0, [al]), all, toks[2..]);
    } else if toks[0].mark == LBRACKET {
      var ai := ReadExpSound(EXP1, toks[1..]);
      var (i, close) := ReadExp(EXP1, toks[1..]).value;
      var rest := Skip(RBRACKET, close).value;
      var t := Binary(BINOP_SUBSCRIPT, lhs, i);
      assert toks == [Mark(LBRACKET)] + toks[1..];
      WroteSubscript(t, al, ai, all, toks[1..], rest);
      a := ReadPostfixSound(t, Ann(0, [al, ai]), all, rest);
    } else if toks[0].mark == LPAREN {
      var args, rest := ReadArgs(toks[1..]).value.0, ReadArgs(toks[1..]).value.1;
      var as' := ReadArgsSound(toks[1..]);
      var t := Call(lhs, args);
      assert toks == [Mark(LPAREN)] + toks[1..];
      WroteCall(t, al, as', all, toks[1..], rest);
      a := ReadPostfixSound(t, Ann(0, [al] + as'), all, rest);
    } else {
      var t := Unary(if toks[0].mark == INCREMENT then UNOP_POSTINCREMENT else UNOP_POSTDECREMENT, lhs);
      assert toks == [toks[0]] + toks[1..];
      WrotePostfix(t, al, all, toks[1..]);
      a := ReadPostfixSound(t, Ann(0, [al]), all, toks[1..]);
    }
  }

  /** Arguments with a comma before each, and `rest`. */
  function EmitMore(args: seq<Tree>, as': seq<Ann>, rest: seq<Token>): seq<Token>
    requires |args| == |as'|
  {
    if args == [] then rest
    else [Mark(BINOP_COMMA)] + Emit(args[0], as'[0], EmitMore(args[1..], as'[1..], rest))
  }

  ghost predicate ArgsOk(args: seq<Tree>, as': seq<Ann>) {
    |args| == |as'| && forall i :: 0 <= i < |args| ==>
      Printable(args[i]) && GrammarOk(args[i], as'[i]) && Level(args[i], as'[i]) >= EXP
  }

  lemma {:induction false} ReadMoreArgsSound(toks: seq<Token>) returns (as': seq<Ann>)
    requires ReadMoreArgs(toks).Some?
    ensures var (args, rest) := ReadMoreArgs(toks).value;
      ArgsOk(args, as') && toks == EmitMore(args, as', [Mark(RPAREN)] + rest)
    decreases |toks|, 4
  {
    hide ReadExp, Emit, Printable, GrammarOk, Level;
    if toks != [] && toks[0] == Mark(RPAREN) {
      as' := [];
      assert toks == [Mark(RPAREN)] + toks[1..];
    } else {
      var toks' := Skip(BINOP_COMMA, toks).value;
      var a := ReadExpSound(EXP, toks');
      var rest := ReadExp(EXP, toks').value.1;
      var more := ReadMoreArgsSound(rest);
      as' := [a] + more;
      var args := ReadMoreArgs(toks).value.0;
      assert args[1..] == ReadMoreArgs(rest).value.0 && as'[1..] == more;
    }
  }

  lemma {:induction false} ReadArgsSound(toks: seq<Token>) returns (as': seq<Ann>)
    requires ReadArgs(toks).Some?
    ensures var (args, rest) := ReadArgs(toks).value;
      ArgsOk(args, as')
      && toks == if args == [] then [Mark(RPAREN)] + rest
                 else Emit(args[0], as'[0], EmitMore(args[1..], as'[1..], [Mark(RPAREN)] + rest))
    decreases |toks|, 4
  {
    hide ReadExp, ReadMoreArgs, Emit, Printable, GrammarOk, Level;
    if toks != [] && toks[0] == Mark(RPAREN) {
      as' := [];
      assert toks == [Mark(RPAREN)] + toks[1..];
    } else {
      var a := ReadExpSound(EXP, toks);
      var rest := ReadExp(EXP, toks).value.1;
      var more := ReadMoreArgsSound(rest);
      as' := [a] + more;
      var args := ReadArgs(toks).value.0;
      assert args[1..] == ReadMoreArgs(rest).value.0 && as'[1..] == more;
    }
  }

  // Putting together what was read, one lemma for each kind.

  lemma WroteOperand(t: Tree, toks: seq<Token>, rest: seq<Token>)
    requires IsOperand(t) && HeadOk(t) && toks == [Operand(t)] + rest
    ensures Wrote(t, Ann(0, []), toks, rest)
  {
  }

  lemma WroteParens(t: Tree, a: Ann, toks: seq<Token>, rest: seq<Token>)
    requires Wrote(t, a, toks, [Mark(RPAREN)] + rest)
    ensures Wrote(t, Ann(a.parens + 1, a.kids), [Mark(LPAREN)] + toks, rest)
  {
    var a' := Ann(a.parens + 1, a.kids);
    assert Peel(a') == a;
    forall i | 0 <= i < |Args(t)|
      ensures Kid(a', i) == Kid(a, i)
    {
    }
  }

  lemma WrotePrefix(op: Opcode, e: Tree, a: Ann, toks: seq<Token>, rest: seq<Token>)
    requires Wrote(e, a, toks, rest) && Level(e, a) >= UNARY && IsPrefix(op)
    ensures Wrote(Unary(op, e), Ann(0, [a]), [Mark(UnaryMark(op))] + toks, rest)
  {
    hide Level;
  }

  lemma WroteCast(op: Opcode, ae: Ann, toks: seq<Token>)
    requires (op == UNOP_CAST || op == UNOP_MEMVAL) && |toks| > 2 && toks[1].TypeName? && ReadUnary(toks[3..]).Some?
    requires toks[0] == Mark(if op == UNOP_CAST then LPAREN else LBRACE)
    requires toks[2] == Mark(if op == UNOP_CAST then RPAREN else RBRACE)
    requires var (e, rest) := ReadUnary(toks[3..]).value; Wrote(e, ae, toks[3..], rest) && Level(e, ae) >= UNARY
    ensures var (e, rest) := ReadUnary(toks[3..]).value; Wrote(Typed(op, toks[1].ty, e), Ann(0, [ae]), toks, rest)
  {
    assert toks == [toks[0], toks[1], toks[2]] + toks[3..];
    hide ReadUnary, Level;
  }

  lemma WrotePostfix(t: Tree, a: Ann, all: seq<Token>, rest: seq<Token>)
    requires t.Unary? && IsPostfix(t.uop)
    requires Wrote(t.e, a, all, [Mark(UnaryMark(t.uop))] + rest) && Level(t.e, a) == SUFFIX
    ensures Wrote(t, Ann(0, [a]), all, rest)
  {
    hide Level;
  }

  lemma WroteField(t: Tree, a: Ann, all: seq<Token>, rest: seq<Token>)
    requires t.Field? && HeadOk(t) && Level(t.e, a) == SUFFIX
    requires Wrote(t.e, a, all, [Mark(if t.fop == STRUCTOP_STRUCT then DOT else ARROW), Name(t.s)] + rest)
    ensures Wrote(t, Ann(0, [a]), all, rest)
  {
    hide Level;
  }

  lemma WroteSubscript(t: Tree, al: Ann, ar: Ann, all: seq<Token>, toks: seq<Token>, rest: seq<Token>)
    requires t.Binary? && t.bop == BINOP_SUBSCRIPT && Level(t.a, al) == SUFFIX
    requires Wrote(t.a, al, all, [Mark(LBRACKET)] + toks) && Wrote(t.b, ar, toks, [Mark(RBRACKET)] + rest)
    ensures Wrote(t, Ann(0, [al, ar]), all, rest)
  {
    hide Level;
  }

  lemma WroteInfix(t: Tree, al: Ann, ar: Ann, all: seq<Token>, toks: seq<Token>, rest: seq<Token>)
    requires t.Binary? && IsInfix(t.bop) && Grip(t.a, al) > InfixLevel(t.bop) && Level(t.b, ar) >= Demand(t, 1)
    requires Wrote(t.a, al, all, [Mark(t.bop)] + toks) && Wrote(t.b, ar, toks, rest)
    ensures Wrote(t, Ann(0, [al, ar]), all, rest)
  {
    GripHolds(t.a, al, InfixLevel(t.bop));
    hide Level, Grip;
  }

  lemma WroteCond(t: Tree, ac: Ann, ax: Ann, ay: Ann, all: seq<Token>, toks: seq<Token>, last: seq<Token>, rest: seq<Token>)
    requires t.Cond? && Grip(t.c, ac) > InfixLevel(QUESTION)
    requires Level(t.a, ax) >= EXP && Level(t.b, ay) >= InfixLevel(QUESTION)
    requires Wrote(t.c, ac, all, [Mark(QUESTION)] + toks)
    requires Wrote(t.a, ax, toks, [Mark(COLON)] + last) && Wrote(t.b, ay, last, rest)
    ensures Wrote(t, Ann(0, [ac, ax, ay]), all, rest)
  {
    GripHolds(t.c, ac, InfixLevel(QUESTION));
    hide Level, Grip;
  }

  /** What an operator of level `p` does not break up may stand to the left of it. */
  lemma GripHolds(t: Tree, a: Ann, p: int)
    requires Grip(t, a) > p
    ensures Level(t, a) >= p && (p == InfixLevel(BINOP_ASSIGN) || p == InfixLevel(QUESTION) ==> Level(t, a) > p)
  {
  }

  lemma {:induction false} EmitArgsIsMore(t: Tree, a: Ann, i: nat, rest: seq<Token>)
    requires t.Call? && 1 <= i <= |t.args| && |a.kids| == |t.args| + 1
    ensures EmitArgs(t, a, i, rest) == EmitMore(t.args[i..], a.kids[i + 1..], rest)
    decreases |t.args| - i
  {
    hide Emit;
    if i < |t.args| {
      EmitArgsIsMore(t, a, i + 1, rest);
      assert t.args[i..][1..] == t.args[i + 1..] && a.kids[i + 1..][1..] == a.kids[i + 2..];
    }
  }

  lemma WroteCall(t: Tree, af: Ann, as': seq<Ann>, all: seq<Token>, toks: seq<Token>, rest: seq<Token>)
    requires t.Call? && Level(t.f, af) == SUFFIX && ArgsOk(t.args, as')
    requires Wrote(t.f, af, all, [Mark(LPAREN)] + toks)
    requires var close := [Mark(RPAREN)] + rest;
      toks == if t.args == [] then close else Emit(t.args[0], as'[0], EmitMore(t.args[1..], as'[1..], close))
    ensures Wrote(t, Ann(0, [af] + as'), all, rest)
  {
    var a, close := Ann(0, [af] + as'), [Mark(RPAREN)] + rest;
    var ps := Args(t);
    assert toks == EmitArgs(t, a, 0, close) by {
      if t.args != [] {
        EmitArgsIsMore(t, a, 1, close);
        assert a.kids[2..] == as'[1..] && Kid(a, 1) == as'[0];
        hide Emit;
      }
    }
    assert Emit(t, a, rest) == Emit(t.f, af, [Mark(LPAREN)] + toks);
    hide Emit, Level, EmitArgs, EmitMore;
    forall i | 0 <= i < |ps|
      ensures Printable(ps[i]) && Level(ps[i], Kid(a, i)) >= Demand(t, i) && GrammarOk(ps[i], Kid(a, i))
    {
      if i > 0 {
        assert ps[i] == t.args[i - 1] && Kid(a, i) == as'[i - 1];
      }
    }
  }
}
