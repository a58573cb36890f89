/** The stages joined: parse_c_1 builds and reorders the vector, evaluate_expression runs it and
    print_expression writes it out again. */
module ExpressionCommand {
  import opened Expression
  import opened Wrappers
  import opened Evaluation
  import ExpressionBuilder
  import Prefixify
  import Evaluator
  import Notation
  import Printer
  import Reader
  import RoundTrip

  /** The vector for the expression with tree `t`, cut to length and in the order of execution. */
  method ParseC1(t: Tree) returns (expout: array<Elem>)
    requires WellFormed(t)
    ensures fresh(expout) && expout[..] == Prefix(t)
  {
    hide WellFormed, Suffix, Prefix;
    var builder := new ExpressionBuilder.Builder();
    builder.Parse(t);
    var elts := builder.expout[..builder.expoutPtr];
    assert elts == [] + Suffix(t) == Suffix(t);
    expout := new Elem[|elts|](i requires 0 <= i < |elts| => elts[i]);
    assert expout[..] == elts;
    Prefixify.PrefixifyExpression(expout, t);
  }

  /** The whole way: tree to suffix vector to prefix vector to value.  The answer and the program's
      final state are what the modes say, hence C's where no operand that is guarded or under sizeof
      makes strings. */
  method EvaluateExpression<V(0), S>(tg: Target<V, S>, t: Tree, store: S) returns (r: Option<V>, final: S)
    requires WellFormed(t) && Evaluable(t)
    ensures r.None? <==> Eval(tg, t, Normal, store).None?
    ensures r.Some? ==> Eval(tg, t, Normal, store) == Some((r.value, final))
    ensures r.Some? && GuardsStringFree(t) ==> CEval(tg, t, store, false) == Some((r.value, final))
  {
    var expout := ParseC1(t);
    hide WellFormed, Evaluable, HeadEvaluable, Prefix, Eval, CEval, GuardsStringFree;
    var run := new Evaluator.Evaluator(tg, expout[..], store);
    assert expout[..][0..|Prefix(t)|] == Prefix(t);
    r := run.EvaluateSubexp(Normal, t);
    final := run.store;
    if GuardsStringFree(t) {
      NormalRefinesC(tg, t, store);
    }
  }

  /** What is printed for a parsed expression reads back as that expression, exactly when the two
      precedence orders agree on it. */
  method PrintExpression(t: Tree) returns (stream: seq<Notation.Token>)
    requires Notation.Printable(t) && WellFormed(t)
    ensures stream == Notation.Print(t, Notation.PREC_NULL, [])
    ensures Reader.Read(stream) == Some(t) <==> Notation.Agrees(t)
  {
    var expout := ParseC1(t);
    hide WellFormed, Prefix, Notation.Printable, Notation.Print, Notation.Agrees, Reader.Read;
    var printer := new Printer.Printer(expout[..]);
    assert expout[..][0..|Prefix(t)|] == Prefix(t);
    printer.PrintSubexp(Notation.PREC_NULL, t, []);
    stream := printer.stream;
    assert stream == stream + [] == [] + Notation.Print(t, Notation.PREC_NULL, []);
    RoundTrip.PrintedReadsBack(t);
  }
}
