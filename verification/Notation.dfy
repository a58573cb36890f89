/** Expressions as text, token by token: where the printer puts parentheses, and where the grammar's
    own precedences need them. */
module Notation {
  import opened Expression

  // Punctuation marks are numbered.  A mark that can stand between operands bears the number of its
  // binary operator, so `-`, `*` and `&` are the same marks whether prefix or infix.
  const QUESTION: int := 60
  const COLON: int := 61
  const LPAREN: int := 62
  const RPAREN: int := 63
  const LBRACKET: int := 64
  const RBRACKET: int := 65
  const LBRACE: int := 66
  const RBRACE: int := 67
  const DOT: int := 68
  const ARROW: int := 69
  const INCREMENT: int := 70
  const DECREMENT: int := 71
  const BANG: int := 72
  const TILDE: int := 73

  /** A constant, variable, register, history value, string or `this` is one token. */
  datatype Token = Operand(t: Tree) | Mark(mark: int) | Name(name: string) | TypeName(ty: CType)

  predicate IsOperand(t: Tree) { t.Const? || t.Leaf? || t.StrLit? || t.This? }
  predicate IsPostfix(op: Opcode) { op == UNOP_POSTINCREMENT || op == UNOP_POSTDECREMENT }
  predicate IsPrefix(op: Opcode) { IsUnary(op) && !IsPostfix(op) && op != UNOP_SIZEOF }
  predicate IsInfix(op: int) { 0 <= op < BINOP_SUBSCRIPT }

  function UnaryMark(op: Opcode): int {
    if op == UNOP_NEG then BINOP_SUB
    else if op == UNOP_IND then BINOP_MUL
    else if op == UNOP_ADDR then BINOP_LOGAND
    else if op == UNOP_ZEROP then BANG
    else if op == UNOP_LOGNOT then TILDE
    else if op == UNOP_PREINCREMENT || op == UNOP_POSTINCREMENT then INCREMENT
    else DECREMENT
  }

  predicate HeadPrintable(t: Tree) {
    && HeadOk(t) && !t.Scope? && !t.AssignModify?
    && (t.Unary? ==> t.uop != UNOP_SIZEOF)
    && (t.Binary? ==> IsInfix(t.bop) || t.bop == BINOP_SUBSCRIPT)
  }

  predicate Printable(t: Tree) {
    HeadPrintable(t) && forall i :: 0 <= i < |Args(t)| ==> Printable(Args(t)[i])
  }

  lemma PrintableParts(t: Tree)
    requires Printable(t)
    ensures HeadPrintable(t)
    ensures t.Unary? || t.Typed? || t.Field? ==> Printable(t.e)
    ensures t.Binary? || t.Cond? ==> Printable(t.a) && Printable(t.b)
    ensures t.Cond? ==> Printable(t.c)
    ensures t.Call? ==> Printable(t.f) && forall i :: 0 <= i < |t.args| ==> Printable(t.args[i])
  {
    hide HeadPrintable;
    var ps := Args(t);
    assert |ps| > 0 ==> Printable(ps[0]);
    assert |ps| > 1 ==> Printable(ps[1]);
    assert |ps| > 2 ==> Printable(ps[2]);
    if t.Call? {
      forall i | 0 <= i < |t.args|
        ensures Printable(t.args[i])
      {
        assert ps[i + 1] == t.args[i];
      }
    }
  }

  // ----- an expression written out with parentheses -----

  /** How many pairs of parentheses go around an expression, and likewise for each of its parts. */
  datatype Ann = Ann(parens: nat, kids: seq<Ann>)

  function Kid(a: Ann, i: nat): Ann {
    if i < |a.kids| then a.kids[i] else Ann(0, [])
  }

  function Peel(a: Ann): Ann
    requires a.parens > 0
  {
    Ann(a.parens - 1, a.kids)
  }

  /** The tokens of `t` written with the parentheses `a`, and `rest` after them. */
  function Emit(t: Tree, a: Ann, rest: seq<Token>): seq<Token>
    decreases t, 1 + a.parens, 0
  {
    if a.parens > 0 then [Mark(LPAREN)] + Emit(t, Peel(a), [Mark(RPAREN)] + rest)
    else match t
      case Unary(op, e) =>
        if IsPostfix(op) then Emit(e, Kid(a, 0), [Mark(UnaryMark(op))] + rest)
        else [Mark(UnaryMark(op))] + Emit(e, Kid(a, 0), rest)
      case Typed(op, ty, e) =>
        if op == UNOP_CAST then [Mark(LPAREN), TypeName(ty), Mark(RPAREN)] + Emit(e, Kid(a, 0), rest)
        else [Mark(LBRACE), TypeName(ty), Mark(RBRACE)] + Emit(e, Kid(a, 0), rest)
      case Binary(op, l, r) =>
        if op == BINOP_SUBSCRIPT then
          Emit(l, Kid(a, 0), [Mark(LBRACKET)] + Emit(r, Kid(a, 1), [Mark(RBRACKET)] + rest))
        else Emit(l, Kid(a, 0), [Mark(op)] + Emit(r, Kid(a, 1), rest))
      case Cond(c, x, y) =>
        Emit(c, Kid(a, 0), [Mark(QUESTION)] + Emit(x, Kid(a, 1), [Mark(COLON)] + Emit(y, Kid(a, 2), rest)))
      case Field(op, s, e) =>
        Emit(e, Kid(a, 0), [Mark(if op == STRUCTOP_STRUCT then DOT else ARROW), Name(s)] + rest)
      case Call(f, _) =>
        Emit(f, Kid(a, 0), [Mark(LPAREN)] + EmitArgs(t, a, 0, [Mark(RPAREN)] + rest))
      case _ => [Operand(t)] + rest
  }

  /** The arguments of a call from the i-th on, each after the first with a comma before it. */
  function EmitArgs(t: Tree, a: Ann, i: nat, rest: seq<Token>): seq<Token>
    requires t.Call? && i <= |t.args|
    decreases t, 0, |t.args| - i
  {
    if i == |t.args| then rest
    else if i == 0 then Emit(t.args[0], Kid(a, 1), EmitArgs(t, a, 1, rest))
    else [Mark(BINOP_COMMA)] + Emit(t.args[i], Kid(a, i + 1), EmitArgs(t, a, i + 1, rest))
  }

  // ----- the grammar's precedences -----

  const EXP1: int := 1          // with the comma operator
  const EXP: int := 2           // without it
  const UNARY: int := 16
  const SUFFIX: int := 17

  function InfixLevel(op: int): (p: int)
    ensures EXP1 <= p < UNARY
  {
    if op == BINOP_COMMA then 1
    else if op == BINOP_ASSIGN then 3
    else if op == QUESTION then 4
    else if op == BINOP_OR then 5
    else if op == BINOP_AND then 6
    else if op == BINOP_LOGIOR then 7
    else if op == BINOP_LOGXOR then 8
    else if op == BINOP_LOGAND then 9
    else if op == BINOP_EQUAL || op == BINOP_NOTEQUAL then 10
    else if op == BINOP_LESS || op == BINOP_GTR || op == BINOP_LEQ || op == BINOP_GEQ then 11
    else if op == BINOP_LSH || op == BINOP_RSH then 12
    else if op == BINOP_REPEAT then 13
    else if op == BINOP_ADD || op == BINOP_SUB then 14
    else 15
  }

  /** How tightly the grammar takes `t` to hold together, written with the parentheses `a`. */
  function Level(t: Tree, a: Ann): (p: int)
    ensures EXP1 <= p <= SUFFIX
  {
    if a.parens > 0 then SUFFIX
    else match t
      case Unary(op, _) => if IsPostfix(op) then SUFFIX else UNARY
      case Typed(_, _, _) => UNARY
      case Binary(op, _, _) => if op == BINOP_SUBSCRIPT then SUFFIX else InfixLevel(op)
      case Cond(_, _, _) => InfixLevel(QUESTION)
      case _ => SUFFIX
  }

  /** The level a part must have at least where it stands unparenthesised. */
  function Demand(t: Tree, i: nat): (p: int)
    ensures EXP1 <= p <= SUFFIX
  {
    match t
    case Unary(op, _) => if IsPostfix(op) then SUFFIX else UNARY
    case Typed(_, _, _) => UNARY
    case Binary(op, _, _) =>
      if op == BINOP_SUBSCRIPT then (if i == 0 then SUFFIX else EXP1)
      else if op == BINOP_ASSIGN then (if i == 0 then InfixLevel(op) + 1 else InfixLevel(op))
      else if i == 0 then InfixLevel(op) else InfixLevel(op) + 1
    case Cond(_, _, _) =>
      if i == 0 then InfixLevel(QUESTION) + 1 else if i == 1 then EXP else InfixLevel(QUESTION)
    case Field(_, _, _) => SUFFIX
    case Call(_, _) => if i == 0 then SUFFIX else EXP
    case _ => SUFFIX
  }

  /** `a` has every pair of parentheses that the grammar needs to take `t` for `t`. */
  predicate GrammarOk(t: Tree, a: Ann) {
    forall i :: 0 <= i < |Args(t)| ==>
      Level(Args(t)[i], Kid(a, i)) >= Demand(t, i) && GrammarOk(Args(t)[i], Kid(a, i))
  }

  lemma GrammarOkParts(t: Tree, a: Ann)
    requires GrammarOk(t, a)
    ensures t.Unary? || t.Typed? || t.Field? ==> GrammarOk(t.e, Kid(a, 0)) && Level(t.e, Kid(a, 0)) >= Demand(t, 0)
    ensures t.Binary? ==> GrammarOk(t.a, Kid(a, 0)) && Level(t.a, Kid(a, 0)) >= Demand(t, 0)
    ensures t.Binary? ==> GrammarOk(t.b, Kid(a, 1)) && Level(t.b, Kid(a, 1)) >= Demand(t, 1)
    ensures t.Cond? ==> GrammarOk(t.c, Kid(a, 0)) && Level(t.c, Kid(a, 0)) >= Demand(t, 0)
    ensures t.Cond? ==> GrammarOk(t.a, Kid(a, 1)) && Level(t.a, Kid(a, 1)) >= Demand(t, 1)
    ensures t.Cond? ==> GrammarOk(t.b, Kid(a, 2)) && Level(t.b, Kid(a, 2)) >= Demand(t, 2)
    ensures t.Call? ==> GrammarOk(t.f, Kid(a, 0)) && Level(t.f, Kid(a, 0)) >= Demand(t, 0)
  {
    var ps := Args(t);
    hide Level, Demand, Kid;
    assert |ps| > 0 ==> Level(ps[0], Kid(a, 0)) >= Demand(t, 0) && GrammarOk(ps[0], Kid(a, 0));
    assert |ps| > 1 ==> Level(ps[1], Kid(a, 1)) >= Demand(t, 1) && GrammarOk(ps[1], Kid(a, 1));
    assert |ps| > 2 ==> Level(ps[2], Kid(a, 2)) >= Demand(t, 2) && GrammarOk(ps[2], Kid(a, 2));
  }

  lemma GrammarOkArg(t: Tree, a: Ann, i: nat)
    requires t.Call? && i < |t.args| && GrammarOk(t, a)
    ensures GrammarOk(t.args[i], Kid(a, i + 1)) && Level(t.args[i], Kid(a, i + 1)) >= EXP
  {
    var ps := Args(t);
    assert ps[i + 1] == t.args[i];
    hide Level, Kid;
    assert Level(ps[i + 1], Kid(a, i + 1)) >= Demand(t, i + 1) && GrammarOk(ps[i + 1], Kid(a, i + 1));
  }

  // ----- the printer's precedences -----

  const PREC_NULL: int := 0
  const PREC_COMMA: int := 1
  const PREC_ABOVE_COMMA: int := 2
  const PREC_ASSIGN: int := 3
  const PREC_OR: int := 4
  const PREC_AND: int := 5
  const PREC_LOGIOR: int := 6
  const PREC_LOGAND: int := 7
  const PREC_LOGXOR: int := 8
  const PREC_EQUAL: int := 9
  const PREC_ORDER: int := 10
  const PREC_SHIFT: int := 11
  const PREC_ADD: int := 12
  const PREC_MUL: int := 13
  const PREC_REPEAT: int := 14
  const PREC_HYPER: int := 15
  const PREC_PREFIX: int := 16
  const PREC_SUFFIX: int := 17

  function PrintPrec(op: Opcode): int {
    if op == BINOP_COMMA then PREC_COMMA
    else if op == BINOP_ASSIGN then PREC_ASSIGN
    else if op == BINOP_OR then PREC_OR
    else if op == BINOP_AND then PREC_AND
    else if op == BINOP_LOGIOR then PREC_LOGIOR
    else if op == BINOP_LOGAND then PREC_LOGAND
    else if op == BINOP_LOGXOR then PREC_LOGXOR
    else if op == BINOP_EQUAL || op == BINOP_NOTEQUAL then PREC_EQUAL
    else if op == BINOP_LESS || op == BINOP_GTR || op == BINOP_LEQ || op == BINOP_GEQ then PREC_ORDER
    else if op == BINOP_LSH || op == BINOP_RSH then PREC_SHIFT
    else if op == BINOP_ADD || op == BINOP_SUB then PREC_ADD
    else if op == BINOP_REPEAT then PREC_REPEAT
    else if IsInfix(op) then PREC_MUL
    else PREC_PREFIX
  }

  /** The printer parenthesises an expression whose level is below that of its surroundings. */
  function PrintLevel(t: Tree): int {
    match t
    case Unary(op, _) => if IsPostfix(op) then PREC_SUFFIX else PREC_PREFIX
    case Typed(_, _, _) => PREC_PREFIX
    case Binary(op, _, _) => if op == BINOP_SUBSCRIPT then PREC_SUFFIX else PrintPrec(op)
    case Cond(_, _, _) => PREC_COMMA
    case _ => PREC_SUFFIX
  }

  /** The surrounding precedence that the i-th part of `t` is printed with. */
  function Surround(t: Tree, i: nat): int {
    match t
    case Unary(op, _) => if IsPostfix(op) then PREC_SUFFIX else PREC_PREFIX
    case Typed(_, _, _) => PREC_PREFIX
    case Binary(op, _, _) =>
      if op == BINOP_SUBSCRIPT then (if i == 0 then PREC_SUFFIX else PREC_ABOVE_COMMA)
      else PrintPrec(op) + if (op == BINOP_ASSIGN) == (i == 0) then 1 else 0
    case Cond(_, _, _) => PREC_HYPER
    case Field(_, _, _) => PREC_SUFFIX
    case Call(_, _) => if i == 0 then PREC_SUFFIX else PREC_ABOVE_COMMA
    case _ => PREC_NULL
  }

  /** The parentheses that print_subexp gives `t` in surroundings of precedence `prec`. */
  function PrintParens(t: Tree, prec: int): Ann {
    Ann(if PrintLevel(t) < prec then 1 else 0,
        seq(|Args(t)|, i requires 0 <= i < |Args(t)| => PrintParens(Args(t)[i], Surround(t, i))))
  }

  /** What print_subexp prints, followed by `rest`. */
  function Print(t: Tree, prec: int, rest: seq<Token>): seq<Token> {
    Emit(t, PrintParens(t, prec), rest)
  }

  // ----- where the two precedences disagree -----

  /** `^` directly under `&`, or `@` directly under an arithmetic operator: the printer takes these
      to bind more tightly than the grammar does, and leaves their parentheses out. */
  predicate Clashes(t: Tree, part: Tree) {
    && t.Binary? && part.Binary?
    && ((t.bop == BINOP_LOGAND && part.bop == BINOP_LOGXOR) || (t.bop <= BINOP_REM && part.bop == BINOP_REPEAT))
  }

  predicate Agrees(t: Tree) {
    forall i :: 0 <= i < |Args(t)| ==> !Clashes(t, Args(t)[i]) && Agrees(Args(t)[i])
  }

  /** One part: the printer gives it what the grammar demands, except in a clash. */
  lemma PartPrintedAsDemanded(t: Tree, i: nat)
    requires HeadPrintable(t) && i < |Args(t)| && HeadPrintable(Args(t)[i])
    ensures Level(Args(t)[i], PrintParens(Args(t)[i], Surround(t, i))) >= Demand(t, i) <==> !Clashes(t, Args(t)[i])
  {
    var part := Args(t)[i];
    var parens := PrintParens(part, Surround(t, i));
    assert parens.parens == if PrintLevel(part) < Surround(t, i) then 1 else 0;
    hide PrintParens;
    if t.Binary? && IsInfix(t.bop) && part.Binary? {
      InfixInInfix(t, i, part.bop);
    }
  }

  lemma InfixInInfix(t: Tree, i: nat, op: Opcode)
    requires t.Binary? && IsInfix(t.bop) && i < 2 && (IsInfix(op) || op == BINOP_SUBSCRIPT)
    ensures var unclear := (t.bop == BINOP_LOGAND && op == BINOP_LOGXOR) || (t.bop <= BINOP_REM && op == BINOP_REPEAT);
      IsInfix(op) ==> (PrintPrec(op) < Surround(t, i) || InfixLevel(op) >= Demand(t, i) <==> !unclear)
  {
  }

  /** The printed parentheses are enough for the grammar exactly when no part clashes. */
  lemma {:induction false} PrintedAsDemanded(t: Tree, prec: int)
    requires Printable(t)
    ensures GrammarOk(t, PrintParens(t, prec)) <==> Agrees(t)
  {
    hide HeadPrintable, Level, Demand, Clashes;
    var a := PrintParens(t, prec);
    forall i | 0 <= i < |Args(t)|
      ensures Kid(a, i) == PrintParens(Args(t)[i], Surround(t, i))
      ensures Level(Args(t)[i], Kid(a, i)) >= Demand(t, i) <==> !Clashes(t, Args(t)[i])
      ensures GrammarOk(Args(t)[i], Kid(a, i)) <==> Agrees(Args(t)[i])
    {
      PartPrintedAsDemanded(t, i);
      PrintedAsDemanded(Args(t)[i], Surround(t, i));
    }
  }
}
