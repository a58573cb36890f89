/** print_subexp: printing a vector in prefix order with a moving cursor.  As in the evaluator, the
    tree whose prefix form lies at the cursor is a ghost parameter, and so is what the caller will
    print after it. */
module Printer {
  import opened Expression
  import opened Layout
  import opened Notation

  datatype OpPrint = OpPrint(mark: int, opcode: Opcode, precedence: int, rightAssoc: bool)

  const OP_PRINT_TAB: seq<OpPrint> := [
    OpPrint(BINOP_COMMA, BINOP_COMMA, PREC_COMMA, false),
    OpPrint(BINOP_ASSIGN, BINOP_ASSIGN, PREC_ASSIGN, true),
    OpPrint(BINOP_OR, BINOP_OR, PREC_OR, false),
    OpPrint(BINOP_AND, BINOP_AND, PREC_AND, false),
    OpPrint(BINOP_LOGIOR, BINOP_LOGIOR, PREC_LOGIOR, false),
    OpPrint(BINOP_LOGAND, BINOP_LOGAND, PREC_LOGAND, false),
    OpPrint(BINOP_LOGXOR, BINOP_LOGXOR, PREC_LOGXOR, false),
    OpPrint(BINOP_EQUAL, BINOP_EQUAL, PREC_EQUAL, false),
    OpPrint(BINOP_NOTEQUAL, BINOP_NOTEQUAL, PREC_EQUAL, false),
    OpPrint(BINOP_LEQ, BINOP_LEQ, PREC_ORDER, false),
    OpPrint(BINOP_GEQ, BINOP_GEQ, PREC_ORDER, false),
    OpPrint(BINOP_GTR, BINOP_GTR, PREC_ORDER, false),
    OpPrint(BINOP_LESS, BINOP_LESS, PREC_ORDER, false),
    OpPrint(BINOP_RSH, BINOP_RSH, PREC_SHIFT, false),
    OpPrint(BINOP_LSH, BINOP_LSH, PREC_SHIFT, false),
    OpPrint(BINOP_ADD, BINOP_ADD, PREC_ADD, false),
    OpPrint(BINOP_SUB, BINOP_SUB, PREC_ADD, false),
    OpPrint(BINOP_MUL, BINOP_MUL, PREC_MUL, false),
    OpPrint(BINOP_DIV, BINOP_DIV, PREC_MUL, false),
    OpPrint(BINOP_REM, BINOP_REM, PREC_MUL, false),
    OpPrint(BINOP_REPEAT, BINOP_REPEAT, PREC_REPEAT, false),
    OpPrint(BINOP_SUB, UNOP_NEG, PREC_PREFIX, false),
    OpPrint(BANG, UNOP_ZEROP, PREC_PREFIX, false),
    OpPrint(TILDE, UNOP_LOGNOT, PREC_PREFIX, false),
    OpPrint(BINOP_MUL, UNOP_IND, PREC_PREFIX, false),
    OpPrint(BINOP_LOGAND, UNOP_ADDR, PREC_PREFIX, false),
    OpPrint(INCREMENT, UNOP_PREINCREMENT, PREC_PREFIX, false),
    OpPrint(DECREMENT, UNOP_PREDECREMENT, PREC_PREFIX, false)
  ]

  /** Every row says of its operator what the printer's precedences and marks are. */
  lemma RowsRight(i: nat)
    requires i < |OP_PRINT_TAB|
    ensures var row := OP_PRINT_TAB[i];
      && row.precedence == PrintPrec(row.opcode) && (row.rightAssoc <==> row.opcode == BINOP_ASSIGN)
      && row.mark == (if IsInfix(row.opcode) then row.opcode else UnaryMark(row.opcode))
      && (IsInfix(row.opcode) || IsPrefix(row.opcode))
  {
  }

  /** Where an operator's row is. */
  lemma RowFor(op: Opcode) returns (i: nat)
    requires IsInfix(op) || IsPrefix(op)
    ensures i < |OP_PRINT_TAB| && OP_PRINT_TAB[i].opcode == op
  {
    i :=
      if op == BINOP_COMMA then 0 else if op == BINOP_ASSIGN then 1 else if op == BINOP_OR then 2
      else if op == BINOP_AND then 3 else if op == BINOP_LOGIOR then 4 else if op == BINOP_LOGAND then 5
      else if op == BINOP_LOGXOR then 6 else if op == BINOP_EQUAL then 7 else if op == BINOP_NOTEQUAL then 8
      else if op == BINOP_LEQ then 9 else if op == BINOP_GEQ then 10 else if op == BINOP_GTR then 11
      else if op == BINOP_LESS then 12 else if op == BINOP_RSH then 13 else if op == BINOP_LSH then 14
      else if op == BINOP_ADD then 15 else if op == BINOP_SUB then 16 else if op == BINOP_MUL then 17
      else if op == BINOP_DIV then 18 else if op == BINOP_REM then 19 else if op == BINOP_REPEAT then 20
      else if op == UNOP_NEG then 21 else if op == UNOP_ZEROP then 22 else if op == UNOP_LOGNOT then 23
      else if op == UNOP_IND then 24 else if op == UNOP_ADDR then 25 else if op == UNOP_PREINCREMENT then 26
      else 27;
  }

  /** The scan of op_print_tab. */
  method FindOp(op: Opcode) returns (row: OpPrint)
    requires IsInfix(op) || IsPrefix(op)
    ensures row.opcode == op && row.precedence == PrintPrec(op) && (row.rightAssoc <==> op == BINOP_ASSIGN)
    ensures row.mark == if IsInfix(op) then op else UnaryMark(op)
  {
    ghost var at := RowFor(op);
    hide PrintPrec, UnaryMark, OP_PRINT_TAB;
    var tem := 0;
    while OP_PRINT_TAB[tem].opcode != op
      invariant 0 <= tem <= at
      decreases at - tem
    {
      tem := tem + 1;
    }
    RowsRight(tem);
    row := OP_PRINT_TAB[tem];
  }

  // ----- what is printed, kind by kind -----

  function Bare(t: Tree): Ann {
    Ann(0, PrintParens(t, PREC_NULL).kids)
  }

  /** `t` without parentheses of its own, and `rest`. */
  function PrintBare(t: Tree, rest: seq<Token>): seq<Token> {
    Emit(t, Bare(t), rest)
  }

  lemma PrintWraps(t: Tree, prec: int, rest: seq<Token>)
    ensures Print(t, prec, rest) ==
      if PrintLevel(t) < prec then [Mark(LPAREN)] + PrintBare(t, [Mark(RPAREN)] + rest) else PrintBare(t, rest)
  {
    var p := PrintParens(t, prec);
    assert p.kids == Bare(t).kids;
    if PrintLevel(t) < prec {
      assert Peel(p) == Bare(t);
    }
  }

  lemma KidPrinted(t: Tree, i: nat)
    requires i < |Args(t)|
    ensures Kid(Bare(t), i) == PrintParens(Args(t)[i], Surround(t, i))
  {
    hide Surround, PrintLevel;
  }

  lemma BareOne(t: Tree, rest: seq<Token>)
    requires t.Unary? || t.Typed? || t.Field?
    ensures t.Unary? && IsPostfix(t.uop) ==> PrintBare(t, rest) == Print(t.e, PREC_SUFFIX, [Mark(UnaryMark(t.uop))] + rest)
    ensures t.Unary? && !IsPostfix(t.uop) ==> PrintBare(t, rest) == [Mark(UnaryMark(t.uop))] + Print(t.e, PREC_PREFIX, rest)
    ensures t.Typed? && t.top == UNOP_CAST ==>
      PrintBare(t, rest) == [Mark(LPAREN), TypeName(t.ty), Mark(RPAREN)] + Print(t.e, PREC_PREFIX, rest)
    ensures t.Typed? && t.top != UNOP_CAST ==>
      PrintBare(t, rest) == [Mark(LBRACE), TypeName(t.ty), Mark(RBRACE)] + Print(t.e, PREC_PREFIX, rest)
    ensures t.Field? ==>
      PrintBare(t, rest) == Print(t.e, PREC_SUFFIX, [Mark(if t.fop == STRUCTOP_STRUCT then DOT else ARROW), Name(t.s)] + rest)
  {
    KidPrinted(t, 0);
    hide PrintParens;
  }

  lemma BareTwo(t: Tree, rest: seq<Token>)
    requires t.Binary?
    ensures t.bop == BINOP_SUBSCRIPT ==>
      PrintBare(t, rest) == Print(t.a, PREC_SUFFIX, [Mark(LBRACKET)] + Print(t.b, PREC_ABOVE_COMMA, [Mark(RBRACKET)] + rest))
    ensures t.bop != BINOP_SUBSCRIPT ==>
      PrintBare(t, rest) == Print(t.a, Surround(t, 0), [Mark(t.bop)] + Print(t.b, Surround(t, 1), rest))
  {
    KidPrinted(t, 0);
    KidPrinted(t, 1);
    hide PrintParens;
  }

  lemma BareCond(t: Tree, rest: seq<Token>)
    requires t.Cond?
    ensures PrintBare(t, rest) ==
      Print(t.c, PREC_HYPER, [Mark(QUESTION)] + Print(t.a, PREC_HYPER, [Mark(COLON)] + Print(t.b, PREC_HYPER, rest)))
  {
    KidPrinted(t, 0);
    KidPrinted(t, 1);
    KidPrinted(t, 2);
    hide PrintParens;
  }

  /** The arguments from the i-th on, and `rest`. */
  function PrintArgs(t: Tree, i: nat, rest: seq<Token>): seq<Token>
    requires t.Call? && i <= |t.args|
  {
    EmitArgs(t, Bare(t), i, rest)
  }

  lemma BareCall(t: Tree, rest: seq<Token>)
    requires t.Call?
    ensures PrintBare(t, rest) == Print(t.f, PREC_SUFFIX, [Mark(LPAREN)] + PrintArgs(t, 0, [Mark(RPAREN)] + rest))
  {
    KidPrinted(t, 0);
    hide PrintParens;
  }

  lemma PrintArgsStep(t: Tree, i: nat, rest: seq<Token>)
    requires t.Call? && i <= |t.args|
    ensures i == |t.args| ==> PrintArgs(t, i, rest) == rest
    ensures i < |t.args| ==>
      var arg := Print(t.args[i], PREC_ABOVE_COMMA, PrintArgs(t, i + 1, rest));
      PrintArgs(t, i, rest) == if i == 0 then arg else [Mark(BINOP_COMMA)] + arg
  {
    if i < |t.args| {
      KidPrinted(t, i + 1);
      assert Args(t)[i + 1] == t.args[i];
      hide PrintParens, Emit;
    }
  }

  /** What the elements of an operand say. */
  lemma OperandElements(v: seq<Elem>, at: nat, t: Tree)
    requires Lies(v, at, t) && IsOperand(t)
    ensures HeadOk(t)
    ensures t.Const? ==> Size(t) == 4 && at + 2 < |v| && v[at + 1] == Ty(t.ty) && v[at + 2] == t.val && t.cop == OpOf(t)
    ensures t.Leaf? ==> Size(t) == 3 && at + 1 < |v| && v[at + 1] == t.arg && t.lop == OpOf(t)
    ensures t.StrLit? ==> Size(t) == 3 + (|t.s| + ELEM_SIZE) / ELEM_SIZE && CString(v, at + 1) == t.s
    ensures t.This? ==> Size(t) == 2
  {
    OperandAlone(v, at, t);
    HeadLies(v, at, t);
    hide Lies, Prefix, Chunks, CString;
    assert Size(t) == |Head(t)|;
    if t.StrLit? {
      CStringInHead(v, at, [Op(OP_STRING)], t.s, [Num(|t.s|), Op(OP_STRING)]);
    } else if t.Const? {
      HeadElement(v, at, t, 1);
      HeadElement(v, at, t, 2);
    } else if t.Leaf? {
      HeadElement(v, at, t, 1);
    }
  }

  class Printer {
    const elts: seq<Elem>
    var pos: nat
    var stream: seq<Token>

    constructor (elts: seq<Elem>)
      ensures this.elts == elts && pos == 0 && stream == []
    {
      this.elts, pos, stream := elts, 0, [];
    }

    method Put(tok: Token, ghost rest: seq<Token>)
      modifies this`stream
      ensures stream == old(stream) + [tok] && stream + rest == old(stream) + ([tok] + rest)
    {
      stream := stream + [tok];
    }

    method PutTwo(a: Token, b: Token, ghost rest: seq<Token>)
      modifies this`stream
      ensures stream + rest == old(stream) + ([a, b] + rest)
    {
      stream := stream + [a, b];
    }

    method PutThree(a: Token, b: Token, c: Token, ghost rest: seq<Token>)
      modifies this`stream
      ensures stream + rest == old(stream) + ([a, b, c] + rest)
    {
      stream := stream + [a, b, c];
    }

    method PrintSubexp(prec: int, ghost t: Tree, ghost rest: seq<Token>)
      requires Lies(elts, pos, t) && Printable(t) && prec <= PREC_SUFFIX
      modifies this`pos, this`stream
      ensures pos == old(pos) + Size(t) && stream + rest == old(stream) + Print(t, prec, rest)
      decreases t, 2
    {
      HeadLies(elts, pos, t);
      HeadElement(elts, pos, t, 0);
      FirstElementTells(t);
      PrintableParts(t);
      PrintWraps(t, prec, rest);
      var pc := pos;
      var opcode := elts[pc].op;
      pos := pos + 1;
      hide Lies, Size, Head, OpOf, At, HeadOk, Printable, Print, PrintBare;
      if OP_LONG <= opcode <= OP_INTERNALVAR || opcode == OP_STRING || opcode == OP_THIS {
        PrintOperand(opcode, pc, t, rest);
      } else if opcode == OP_FUNCALL {
        PrintCall(pc, t, rest);
      } else if opcode == TERNOP_COND {
        PrintCond(prec, pc, t, rest);
      } else if opcode == STRUCTOP_STRUCT || opcode == STRUCTOP_PTR {
        PrintField(opcode, pc, t, rest);
      } else if opcode == BINOP_SUBSCRIPT {
        PrintSubscript(pc, t, rest);
      } else if opcode == UNOP_POSTINCREMENT || opcode == UNOP_POSTDECREMENT {
        PrintPostfix(opcode, pc, t, rest);
      } else if opcode == UNOP_CAST || opcode == UNOP_MEMVAL {
        PrintTyped(opcode, prec, pc, t, rest);
      } else if opcode > BINOP_END {
        PrintPrefix(opcode, prec, pc, t, rest);
      } else {
        PrintInfix(opcode, prec, pc, t, rest);
      }
    }

    method PrintOperand(opcode: Opcode, pc: nat, ghost t: Tree, ghost rest: seq<Token>)
      requires Lies(elts, pc, t) && pos == pc + 1 && IsOperand(t) && opcode == OpOf(t)
      modifies this`pos, this`stream
      ensures pos == pc + Size(t) && stream + rest == old(stream) + PrintBare(t, rest)
    {
      OperandElements(elts, pc, t);
      FirstElementTells(t);
      assert PrintBare(t, rest) == [Operand(t)] + rest;
      hide Lies, Size, Head, PrintBare, CString, OpOf, WellFormed;
      if opcode == OP_LONG || opcode == OP_DOUBLE {
        pos := pos + 3;
        Put(Operand(Const(opcode, elts[pc + 1].t, elts[pc + 2])), rest);
      } else if opcode == OP_STRING {
        var str := CString(elts, pc + 1);
        pos := pos + 2 + (|str| + ELEM_SIZE) / ELEM_SIZE;
        Put(Operand(StrLit(str)), rest);
      } else if opcode == OP_THIS {
        pos := pos + 1;
        Put(Operand(This), rest);
      } else {
        pos := pos + 2;
        Put(Operand(Leaf(opcode, elts[pc + 1])), rest);
      }
    }

    method PrintCall(pc: nat, ghost t: Tree, ghost rest: seq<Token>)
      requires Lies(elts, pc, t) && Printable(t) && pos == pc + 1 && t.Call?
      modifies this`pos, this`stream
      ensures pos == pc + Size(t) && stream + rest == old(stream) + PrintBare(t, rest)
      decreases t, 1
    {
      CallParts(elts, pc, t);
      HeadLengths(t);
      HeadElement(elts, pc, t, 1);
      PrintableParts(t);
      BareCall(t, rest);
      assert elts[pc + 1] == Num(|t.args|);
      hide Lies, Size, Head, Printable, HeadPrintable, Print, PrintBare, PartsLie, PartsSize, PrintArgs;
      pos := pos + 2;
      var nargs := elts[pc + 1].n;
      ghost var close := [Mark(RPAREN)] + rest;
      PrintSubexp(PREC_SUFFIX, t.f, [Mark(LPAREN)] + PrintArgs(t, 0, close));
      Put(Mark(LPAREN), PrintArgs(t, 0, close));
      PrintArguments(nargs, pc + 3, t, close);
      Put(Mark(RPAREN), rest);
    }

    /** The loop over arguments; `base` is where the call's parts start. */
    method PrintArguments(nargs: nat, ghost base: nat, ghost t: Tree, ghost close: seq<Token>)
      requires t.Call? && nargs == |t.args| && PartsLie(elts, base, t) && pos == base + PartsSize(t, 1)
      requires forall i :: 0 <= i < |t.args| ==> Printable(t.args[i])
      modifies this`pos, this`stream
      ensures pos == base + PartsSize(t, 1 + nargs) && stream + close == old(stream) + PrintArgs(t, 0, close)
      decreases t, 0, 1
    {
      hide Printable, Print, PartsLie, PartsSize, PrintArgs;
      ghost var all := stream + PrintArgs(t, 0, close);
      var tem := 0;
      while tem < nargs
        invariant 0 <= tem <= nargs
        invariant pos == base + PartsSize(t, tem + 1)
        invariant stream + PrintArgs(t, tem, close) == all
      {
        PrintArg(tem, base, t, close);
        tem := tem + 1;
      }
      PrintArgsStep(t, nargs, close);
    }

    /** One turn of that loop. */
    method PrintArg(tem: nat, ghost base: nat, ghost t: Tree, ghost close: seq<Token>)
      requires t.Call? && tem < |t.args| && PartsLie(elts, base, t) && Printable(t.args[tem])
      requires pos == base + PartsSize(t, tem + 1)
      modifies this`pos, this`stream
      ensures pos == base + PartsSize(t, tem + 2)
      ensures stream + PrintArgs(t, tem + 1, close) == old(stream) + PrintArgs(t, tem, close)
      decreases t, 0, 0
    {
      ArgumentLies(elts, base, t, tem);
      PrintArgsStep(t, tem, close);
      hide Lies, Size, Printable, Print, PartsLie, PartsSize, PrintArgs;
      ghost var more := PrintArgs(t, tem + 1, close);
      if tem > 0 {
        Put(Mark(BINOP_COMMA), Print(t.args[tem], PREC_ABOVE_COMMA, more));
      }
      PrintSubexp(PREC_ABOVE_COMMA, t.args[tem], more);
    }

    method PrintCond(prec: int, pc: nat, ghost t: Tree, ghost rest: seq<Token>)
      requires Lies(elts, pc, t) && Printable(t) && pos == pc + 1 && t.Cond? && prec <= PREC_SUFFIX
      modifies this`pos, this`stream
      ensures pos == pc + Size(t) && stream + rest == old(stream) + Print(t, prec, rest)
      decreases t, 1
    {
      PrintWraps(t, prec, rest);
      hide Lies, Size, Printable, HeadPrintable, Print, PrintBare;
      var wrap := prec > PREC_COMMA;
      ghost var after := if wrap then [Mark(RPAREN)] + rest else rest;
      if wrap {
        Put(Mark(LPAREN), PrintBare(t, after));
      }
      PrintCondBare(pc, t, after);
      if wrap {
        Put(Mark(RPAREN), rest);
      }
    }

    method PrintCondBare(ghost pc: nat, ghost t: Tree, ghost rest: seq<Token>)
      requires Lies(elts, pc, t) && Printable(t) && pos == pc + 1 && t.Cond?
      modifies this`pos, this`stream
      ensures pos == pc + Size(t) && stream + rest == old(stream) + PrintBare(t, rest)
      decreases t, 0, 2
    {
      CondParts(elts, pc, t);
      PrintableParts(t);
      BareCond(t, rest);
      hide Lies, Size, Printable, HeadPrintable, Print, PrintBare;
      ghost var last := Print(t.b, PREC_HYPER, rest);
      ghost var middle := Print(t.a, PREC_HYPER, [Mark(COLON)] + last);
      PrintSubexp(PREC_HYPER, t.c, [Mark(QUESTION)] + middle);
      Put(Mark(QUESTION), middle);
      PrintSubexp(PREC_HYPER, t.a, [Mark(COLON)] + last);
      Put(Mark(COLON), last);
      PrintSubexp(PREC_HYPER, t.b, rest);
    }

    method PrintField(opcode: Opcode, pc: nat, ghost t: Tree, ghost rest: seq<Token>)
      requires Lies(elts, pc, t) && Printable(t) && pos == pc + 1 && t.Field? && opcode == t.fop
      modifies this`pos, this`stream
      ensures pos == pc + Size(t) && stream + rest == old(stream) + PrintBare(t, rest)
      decreases t, 1
    {
      FieldParts(elts, pc, t);
      PrintableParts(t);
      BareOne(t, rest);
      hide Lies, Size, Printable, HeadPrintable, Print, PrintBare, CString;
      var name := CString(elts, pc + 1);
      pos := pos + 2 + (|name| + ELEM_SIZE) / ELEM_SIZE;
      var mark := Mark(if opcode == STRUCTOP_STRUCT then DOT else ARROW);
      PrintSubexp(PREC_SUFFIX, t.e, [mark, Name(name)] + rest);
      PutTwo(mark, Name(name), rest);
    }

    method PrintSubscript(pc: nat, ghost t: Tree, ghost rest: seq<Token>)
      requires Lies(elts, pc, t) && Printable(t) && pos == pc + 1 && t.Binary? && t.bop == BINOP_SUBSCRIPT
      modifies this`pos, this`stream
      ensures pos == pc + Size(t) && stream + rest == old(stream) + PrintBare(t, rest)
      decreases t, 1
    {
      TwoParts(elts, pc, t);
      HeadLengths(t);
      PrintableParts(t);
      BareTwo(t, rest);
      hide Lies, Size, Head, Printable, HeadPrintable, Print, PrintBare;
      ghost var close := [Mark(RBRACKET)] + rest;
      ghost var inner := Print(t.b, PREC_ABOVE_COMMA, close);
      PrintSubexp(PREC_SUFFIX, t.a, [Mark(LBRACKET)] + inner);
      Put(Mark(LBRACKET), inner);
      PrintSubexp(PREC_ABOVE_COMMA, t.b, close);
      Put(Mark(RBRACKET), rest);
    }

    method PrintPostfix(opcode: Opcode, pc: nat, ghost t: Tree, ghost rest: seq<Token>)
      requires Lies(elts, pc, t) && Printable(t) && pos == pc + 1 && t.Unary? && opcode == t.uop && IsPostfix(opcode)
      modifies this`pos, this`stream
      ensures pos == pc + Size(t) && stream + rest == old(stream) + PrintBare(t, rest)
      decreases t, 1
    {
      OnePart(elts, pc, t);
      HeadLengths(t);
      PrintableParts(t);
      BareOne(t, rest);
      hide Lies, Size, Head, Printable, HeadPrintable, Print, PrintBare;
      var mark := Mark(if opcode == UNOP_POSTINCREMENT then INCREMENT else DECREMENT);
      PrintSubexp(PREC_SUFFIX, t.e, [mark] + rest);
      Put(mark, rest);
    }

    method PrintTyped(opcode: Opcode, prec: int, pc: nat, ghost t: Tree, ghost rest: seq<Token>)
      requires Lies(elts, pc, t) && Printable(t) && pos == pc + 1 && t.Typed? && opcode == t.top && prec <= PREC_SUFFIX
      modifies this`pos, this`stream
      ensures pos == pc + Size(t) && stream + rest == old(stream) + Print(t, prec, rest)
      decreases t, 1
    {
      PrintWraps(t, prec, rest);
      OnePart(elts, pc, t);
      HeadLengths(t);
      HeadElement(elts, pc, t, 1);
      PrintableParts(t);
      assert elts[pc + 1] == Ty(t.ty);
      hide Lies, Size, Head, Printable, Print, PrintBare;
      pos := pos + 2;
      var wrap := prec > PREC_PREFIX;
      ghost var after := if wrap then [Mark(RPAREN)] + rest else rest;
      BareOne(t, after);
      if wrap {
        Put(Mark(LPAREN), PrintBare(t, after));
      }
      ghost var operand := Print(t.e, PREC_PREFIX, after);
      var ty := TypeName(elts[pc + 1].t);
      if opcode == UNOP_CAST {
        PutThree(Mark(LPAREN), ty, Mark(RPAREN), operand);
      } else {
        PutThree(Mark(LBRACE), ty, Mark(RBRACE), operand);
      }
      PrintSubexp(PREC_PREFIX, t.e, after);
      if wrap {
        Put(Mark(RPAREN), rest);
      }
    }

    method PrintPrefix(opcode: Opcode, prec: int, pc: nat, ghost t: Tree, ghost rest: seq<Token>)
      requires Lies(elts, pc, t) && Printable(t) && pos == pc + 1 && t.Unary? && opcode == t.uop && !IsPostfix(opcode)
      requires prec <= PREC_SUFFIX
      modifies this`pos, this`stream
      ensures pos == pc + Size(t) && stream + rest == old(stream) + Print(t, prec, rest)
      decreases t, 1
    {
      PrintWraps(t, prec, rest);
      OnePart(elts, pc, t);
      HeadLengths(t);
      PrintableParts(t);
      var row := FindOp(opcode);
      hide Lies, Size, Head, Printable, Print, PrintBare;
      var wrap := row.precedence < prec;
      ghost var after := if wrap then [Mark(RPAREN)] + rest else rest;
      BareOne(t, after);
      if wrap {
        Put(Mark(LPAREN), PrintBare(t, after));
      }
      Put(Mark(row.mark), Print(t.e, PREC_PREFIX, after));
      PrintSubexp(PREC_PREFIX, t.e, after);
      if wrap {
        Put(Mark(RPAREN), rest);
      }
    }

    method PrintInfix(opcode: Opcode, prec: int, pc: nat, ghost t: Tree, ghost rest: seq<Token>)
      requires Lies(elts, pc, t) && Printable(t) && pos == pc + 1 && t.Binary? && opcode == t.bop && IsInfix(opcode)
      requires prec <= PREC_SUFFIX
      modifies this`pos, this`stream
      ensures pos == pc + Size(t) && stream + rest == old(stream) + Print(t, prec, rest)
      decreases t, 1
    {
      PrintWraps(t, prec, rest);
      TwoParts(elts, pc, t);
      HeadLengths(t);
      PrintableParts(t);
      var row := FindOp(opcode);
      assert row.precedence <= PREC_REPEAT by { assert IsInfix(opcode); }
      assert Surround(t, 0) == row.precedence + (if row.rightAssoc then 1 else 0);
      assert Surround(t, 1) == row.precedence + (if row.rightAssoc then 0 else 1);
      hide Lies, Size, Head, Printable, HeadPrintable, Print, PrintBare, PrintPrec, Surround;
      var wrap := row.precedence < prec;
      ghost var after := if wrap then [Mark(RPAREN)] + rest else rest;
      BareTwo(t, after);
      if wrap {
        Put(Mark(LPAREN), PrintBare(t, after));
      }
      ghost var right := Print(t.b, Surround(t, 1), after);
      PrintSubexp(row.precedence + (if row.rightAssoc then 1 else 0), t.a, [Mark(opcode)] + right);
      Put(Mark(row.mark), right);
      PrintSubexp(row.precedence + (if row.rightAssoc then 0 else 1), t.b, after);
      if wrap {
        Put(Mark(RPAREN), rest);
      }
    }
  }
}
