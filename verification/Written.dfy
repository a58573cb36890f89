/** Printed expressions spelled out: the marks of every operation, and just which operators are
    parenthesised under which, in the printer's order and in the grammar's. */
module Written {
  import opened Expression
  import opened Notation

  /** Binary operators from the loosest to the tightest, as the printer has them. */
  const PRINTED: seq<set<Opcode>> := [
    {BINOP_COMMA}, {BINOP_ASSIGN}, {BINOP_OR}, {BINOP_AND}, {BINOP_LOGIOR}, {BINOP_LOGAND}, {BINOP_LOGXOR},
    {BINOP_EQUAL, BINOP_NOTEQUAL}, {BINOP_LESS, BINOP_GTR, BINOP_LEQ, BINOP_GEQ}, {BINOP_LSH, BINOP_RSH},
    {BINOP_ADD, BINOP_SUB}, {BINOP_MUL, BINOP_DIV, BINOP_REM}, {BINOP_REPEAT}]

  /** The same, as the grammar declares them. */
  const DECLARED: seq<set<Opcode>> := [
    {BINOP_COMMA}, {BINOP_ASSIGN}, {BINOP_OR}, {BINOP_AND}, {BINOP_LOGIOR}, {BINOP_LOGXOR}, {BINOP_LOGAND},
    {BINOP_EQUAL, BINOP_NOTEQUAL}, {BINOP_LESS, BINOP_GTR, BINOP_LEQ, BINOP_GEQ}, {BINOP_LSH, BINOP_RSH},
    {BINOP_REPEAT}, {BINOP_ADD, BINOP_SUB}, {BINOP_MUL, BINOP_DIV, BINOP_REM}]

  lemma RungOf(op: Opcode, i: nat)
    requires i < |PRINTED| && op in PRINTED[i]
    ensures IsInfix(op) && PrintPrec(op) == (if i == 0 then 1 else i + 2) && (op == BINOP_ASSIGN <==> i == 1)
  {
  }

  lemma DeclaredRungOf(op: Opcode, i: nat)
    requires i < |DECLARED| && op in DECLARED[i]
    ensures IsInfix(op) && InfixLevel(op) == (if i == 0 then 1 else if i == 1 then 3 else i + 3) && (op == BINOP_ASSIGN <==> i == 1)
  {
  }

  /** Every operator is somewhere in both. */
  lemma RungFor(op: Opcode) returns (i: nat, j: nat)
    requires IsInfix(op)
    ensures i < |PRINTED| && op in PRINTED[i] && j < |DECLARED| && op in DECLARED[j]
  {
    var p, q := PrintPrec(op), InfixLevel(op);
    i := if p == 1 then 0 else p - 2;
    j := if q == 1 then 0 else if q == 3 then 1 else q - 3;
  }

  /** An operand of a binary operator is printed in parentheses just when its own operator is looser,
      or as loose and on the wrong side: all but assignment are taken from the left. */
  lemma OperandParens(t: Tree, i: nat, side: nat)
    requires t.Binary? && i < |PRINTED| && t.bop in PRINTED[i] && side < 2
    ensures var part := if side == 0 then t.a else t.b;
      var outer := PrintParens(part, Surround(t, side)).parens;
      match part
      case Binary(op, _, _) =>
        forall j :: 0 <= j < |PRINTED| && op in PRINTED[j] ==>
          outer == if j < i || (j == i && (side == 0 <==> t.bop == BINOP_ASSIGN)) then 1 else 0
      case Cond(_, _, _) => outer == if t.bop == BINOP_COMMA && side == 0 then 0 else 1
      case _ => outer == 0
  {
    RungOf(t.bop, i);
    var part := if side == 0 then t.a else t.b;
    hide PRINTED;
    if part.Binary? {
      forall j | 0 <= j < |PRINTED| && part.bop in PRINTED[j]
        ensures IsInfix(part.bop) && PrintPrec(part.bop) == if j == 0 then 1 else j + 2
      {
        RungOf(part.bop, j);
      }
      hide PrintPrec;
      assert PrintLevel(part) < Surround(t, side) ==> PrintParens(part, Surround(t, side)).parens == 1;
    }
  }

  /** And the grammar needs them just when it is so in the grammar's order. */
  lemma OperandDemand(t: Tree, i: nat, side: nat, j: nat)
    requires t.Binary? && i < |DECLARED| && t.bop in DECLARED[i] && side < 2
    requires var part := if side == 0 then t.a else t.b; j < |DECLARED| && part.Binary? && part.bop in DECLARED[j]
    ensures var part := if side == 0 then t.a else t.b;
      Level(part, Ann(0, [])) < Demand(t, side) <==> j < i || (j == i && (side == 0 <==> t.bop == BINOP_ASSIGN))
  {
    DeclaredRungOf(t.bop, i);
    DeclaredRungOf((if side == 0 then t.a else t.b).bop, j);
    hide DECLARED, InfixLevel;
  }

  lemma OperandPrinted(t: Tree, prec: int, rest: seq<Token>)
    requires IsOperand(t) && prec <= PREC_SUFFIX
    ensures Print(t, prec, rest) == [Operand(t)] + rest
  {
  }

  /** The part at place `i` as it is printed. */
  lemma PartPrinted(t: Tree, prec: int, i: nat, rest: seq<Token>)
    requires i < |Args(t)| && IsOperand(Args(t)[i])
    ensures Emit(Args(t)[i], Kid(PrintParens(t, prec), i), rest) == [Operand(Args(t)[i])] + rest
  {
    assert Kid(PrintParens(t, prec), i) == PrintParens(Args(t)[i], Surround(t, i));
    OperandPrinted(Args(t)[i], Surround(t, i), rest);
  }

  /** Parts of other operations: a conditional parenthesises all operators in it, an argument or
      subscript the comma, and unary and suffix operations what is looser than they are. */
  lemma PartParens(t: Tree, i: nat)
    requires HeadPrintable(t) && !t.Binary? && i < |Args(t)| && HeadPrintable(Args(t)[i])
    ensures var part := Args(t)[i];
      var outer := PrintParens(part, Surround(t, i)).parens;
      match part
      case Binary(op, _, _) => outer == if op == BINOP_SUBSCRIPT || (t.Call? && i > 0 && op != BINOP_COMMA) then 0 else 1
      case Cond(_, _, _) => outer == 1
      case Typed(_, _, _) => outer == if t.Field? || (t.Call? && i == 0) || (t.Unary? && IsPostfix(t.uop)) then 1 else 0
      case Unary(op, _) =>
        outer == if !IsPostfix(op) && (t.Field? || (t.Call? && i == 0) || (t.Unary? && IsPostfix(t.uop))) then 1 else 0
      case _ => outer == 0
  {
    var part := Args(t)[i];
    assert PrintParens(part, Surround(t, i)).parens == if PrintLevel(part) < Surround(t, i) then 1 else 0;
    hide PrintParens, Args;
  }

  lemma SubscriptParens(t: Tree, side: nat)
    requires HeadPrintable(t) && t.Binary? && t.bop == BINOP_SUBSCRIPT && side < 2
    requires HeadPrintable(if side == 0 then t.a else t.b)
    ensures var part := if side == 0 then t.a else t.b;
      var outer := PrintParens(part, Surround(t, side)).parens;
      match part
      case Binary(op, _, _) => outer == if op == BINOP_SUBSCRIPT || (side == 1 && op != BINOP_COMMA) then 0 else 1
      case Cond(_, _, _) => outer == 1
      case Typed(_, _, _) => outer == 1 - side
      case Unary(op, _) => outer == if !IsPostfix(op) && side == 0 then 1 else 0
      case _ => outer == 0
  {
    var part := if side == 0 then t.a else t.b;
    assert PrintParens(part, Surround(t, side)).parens == if PrintLevel(part) < Surround(t, side) then 1 else 0;
    hide PrintParens;
  }

  /** What each operation with one operand looks like. */
  lemma UnaryWritten(op: Opcode, x: Tree)
    requires IsOperand(x)
    ensures var toks := Print(Unary(op, x), PREC_NULL, []);
      && (op == UNOP_NEG ==> toks == [Mark(BINOP_SUB), Operand(x)])
      && (op == UNOP_IND ==> toks == [Mark(BINOP_MUL), Operand(x)])
      && (op == UNOP_ADDR ==> toks == [Mark(BINOP_LOGAND), Operand(x)])
      && (op == UNOP_ZEROP ==> toks == [Mark(BANG), Operand(x)])
      && (op == UNOP_LOGNOT ==> toks == [Mark(TILDE), Operand(x)])
      && (op == UNOP_PREINCREMENT ==> toks == [Mark(INCREMENT), Operand(x)])
      && (op == UNOP_PREDECREMENT ==> toks == [Mark(DECREMENT), Operand(x)])
      && (op == UNOP_POSTINCREMENT ==> toks == [Operand(x), Mark(INCREMENT)])
      && (op == UNOP_POSTDECREMENT ==> toks == [Operand(x), Mark(DECREMENT)])
  {
    var t, mark := Unary(op, x), [Mark(UnaryMark(op))];
    assert mark + [] == mark;
    PartPrinted(t, PREC_NULL, 0, []);
    PartPrinted(t, PREC_NULL, 0, mark);
    assert PrintParens(t, PREC_NULL).parens == 0;
    hide PrintParens, Kid;
  }

  lemma TypedWritten(op: Opcode, ty: CType, x: Tree)
    requires IsOperand(x) && (op == UNOP_CAST || op == UNOP_MEMVAL)
    ensures Print(Typed(op, ty, x), PREC_NULL, []) ==
      if op == UNOP_CAST then [Mark(LPAREN), TypeName(ty), Mark(RPAREN), Operand(x)]
      else [Mark(LBRACE), TypeName(ty), Mark(RBRACE), Operand(x)]
  {
    var t := Typed(op, ty, x);
    PartPrinted(t, PREC_NULL, 0, []);
    assert PrintParens(t, PREC_NULL).parens == 0;
    hide PrintParens, Kid;
  }

  lemma FieldWritten(op: Opcode, s: string, x: Tree)
    requires IsOperand(x) && (op == STRUCTOP_STRUCT || op == STRUCTOP_PTR)
    ensures Print(Field(op, s, x), PREC_NULL, []) == [Operand(x), Mark(if op == STRUCTOP_STRUCT then DOT else ARROW), Name(s)]
  {
    var t := Field(op, s, x);
    var after := [Mark(if op == STRUCTOP_STRUCT then DOT else ARROW), Name(s)];
    assert after + [] == after;
    PartPrinted(t, PREC_NULL, 0, after);
    assert PrintParens(t, PREC_NULL).parens == 0;
    hide PrintParens, Kid;
  }

  lemma InfixWritten(op: Opcode, x: Tree, y: Tree)
    requires IsOperand(x) && IsOperand(y) && IsInfix(op)
    ensures Print(Binary(op, x, y), PREC_NULL, []) == [Operand(x), Mark(op), Operand(y)]
  {
    var t := Binary(op, x, y);
    assert Args(t) == [x, y];
    PartPrinted(t, PREC_NULL, 1, []);
    PartPrinted(t, PREC_NULL, 0, [Mark(op)] + ([Operand(y)] + []));
    assert PrintParens(t, PREC_NULL).parens == 0;
    hide PrintParens, Kid, Args;
  }

  lemma SubscriptWritten(x: Tree, y: Tree)
    requires IsOperand(x) && IsOperand(y)
    ensures Print(Binary(BINOP_SUBSCRIPT, x, y), PREC_NULL, []) == [Operand(x), Mark(LBRACKET), Operand(y), Mark(RBRACKET)]
  {
    var t := Binary(BINOP_SUBSCRIPT, x, y);
    assert Args(t) == [x, y];
    PartPrinted(t, PREC_NULL, 1, [Mark(RBRACKET)] + []);
    PartPrinted(t, PREC_NULL, 0, [Mark(LBRACKET)] + ([Operand(y)] + ([Mark(RBRACKET)] + [])));
    assert PrintParens(t, PREC_NULL).parens == 0;
    hide PrintParens, Kid, Args;
  }
}
