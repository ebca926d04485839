/** What the functions, constants and operators of the evaluator compute, and the text an expression is
    written as, said without the evaluator's own table. */
module CalcMeaning {
  import opened Text
  import opened CalcEval
  import opened CalcGrammar
  import opened CalcComplete

  // ---- Functions of any number of values ------------------------------------------------------

  /** `min` is a value no greater than any other, `max` one no less. */
  lemma LeastAndGreatest(o: Ops, a: seq<real>)
    requires a != []
    ensures var r := Apply(o, "min", a); r.Val? && r.v in a && forall x | x in a :: r.v <= x
    ensures var r := Apply(o, "max", a); r.Val? && r.v in a && forall x | x in a :: x <= r.v
  {
    hide Minimum, Maximum;
  }

  /** `sum` of one value is that value, and one more value is added; `avg` times the count is the sum. */
  lemma SumAndAverage(o: Ops, a: seq<real>, x: real)
    ensures Apply(o, "sum", [x]) == Val(x)
    ensures a != [] ==>
              && Apply(o, "sum", a).Val? && Apply(o, "avg", a).Val?
              && Apply(o, "sum", a + [x]) == Val(Apply(o, "sum", a).v + x)
              && Apply(o, "avg", a).v * (|a| as real) == Apply(o, "sum", a).v
  {
    SumOne(x);
    SumMore(a, x);
    hide Sum, Minimum, Maximum;
    Average(Sum(a), |a|);
  }

  lemma SumOne(x: real)
    ensures Sum([x]) == x
  {
    assert [x][..0] == [];
  }

  lemma SumMore(a: seq<real>, x: real)
    ensures Sum(a + [x]) == Sum(a) + x
  {
    assert (a + [x])[..|a|] == a;
  }

  lemma Average(s: real, n: nat)
    ensures n > 0 ==> s / (n as real) * (n as real) == s
  {
  }

  // ---- Functions of one value --------------------------------------------------------------------

  predicate Whole(x: real)
  {
    x.Floor as real == x
  }

  /** `floor` and `ceil` are the nearest whole numbers below and above; `round` is a nearest one, of two
      the one farther from zero. */
  lemma Rounding(o: Ops, x: real)
    ensures var r := Apply(o, "floor", [x]); r.Val? && Whole(r.v) && r.v <= x < r.v + 1.0
    ensures var r := Apply(o, "ceil", [x]); r.Val? && Whole(r.v) && r.v - 1.0 < x <= r.v
    ensures var r := Apply(o, "round", [x]);
            && r.Val? && Whole(r.v) && -0.5 <= r.v - x <= 0.5
            && (r.v - x == 0.5 ==> x >= 0.0) && (r.v - x == -0.5 ==> x < 0.0)
  {
    WholeInt(x.Floor);
    WholeInt((-x).Floor);
    WholeInt((x + 0.5).Floor);
    WholeInt((-x + 0.5).Floor);
    hide Whole;
    assert Apply(o, "ceil", [x]) == Val(Ceil(x)) && Apply(o, "round", [x]) == Val(Round(x));
  }

  lemma WholeInt(n: int)
    ensures Whole(n as real) && Whole(-(n as real))
  {
    var y := -(n as real);
    assert (-n) as real == y;
    assert y.Floor == -n;
  }

  /** `abs` is the larger of the value and its negation. */
  lemma Magnitude(o: Ops, x: real)
    ensures var r := Apply(o, "abs", [x]); r.Val? && r.v >= x && r.v >= -x && (r.v == x || r.v == -x)
  {
  }

  /** The library functions, with the values they refuse. */
  lemma LibraryFunctions(o: Ops, x: real)
    ensures Apply(o, "sqrt", [x]) == if x < 0.0 then Fail("sqrt of negative") else Val(o.sqrt(x))
    ensures Apply(o, "log", [x]) == if x <= 0.0 then Fail("log domain") else Val(o.log10(x))
    ensures Apply(o, "ln", [x]) == if x <= 0.0 then Fail("ln domain") else Val(o.ln(x))
    ensures Apply(o, "exp", [x]) == Val(o.exp(x))
    ensures Apply(o, "sin", [x]) == Val(o.sin(x))
    ensures Apply(o, "cos", [x]) == Val(o.cos(x))
    ensures Apply(o, "tan", [x]) == Val(o.tan(x))
  {
    hide *;
    Domains(o, x);
    Plain(o, x);
  }

  lemma Domains(o: Ops, x: real)
    ensures Apply(o, "sqrt", [x]) == if x < 0.0 then Fail("sqrt of negative") else Val(o.sqrt(x))
    ensures Apply(o, "log", [x]) == if x <= 0.0 then Fail("log domain") else Val(o.log10(x))
    ensures Apply(o, "ln", [x]) == if x <= 0.0 then Fail("ln domain") else Val(o.ln(x))
  {
    hide Sum, Minimum, Maximum, Ceil, Round, Abs;
  }

  lemma Plain(o: Ops, x: real)
    ensures Apply(o, "exp", [x]) == Val(o.exp(x)) && Apply(o, "sin", [x]) == Val(o.sin(x))
    ensures Apply(o, "cos", [x]) == Val(o.cos(x)) && Apply(o, "tan", [x]) == Val(o.tan(x))
  {
    hide Sum, Minimum, Maximum, Ceil, Round, Abs;
  }

  // ---- Names and counts -----------------------------------------------------------------------------

  /** Eleven functions take one value, four take one or more, and there are no others; there are two
      constants. */
  lemma NamesAndCounts(o: Ops, id: string, a: seq<real>)
    ensures id in {"sqrt", "abs", "floor", "ceil", "round", "log", "ln", "exp", "sin", "cos", "tan"} && |a| != 1 ==>
              Apply(o, id, a) == Fail(id + "() expects 1 arg(s)")
    ensures id in {"min", "max", "sum", "avg"} && a == [] ==> Apply(o, id, a) == Fail(id + "() needs >=1 arg")
    ensures id !in {"sqrt", "abs", "floor", "ceil", "round", "log", "ln", "exp", "sin", "cos", "tan",
                    "min", "max", "sum", "avg"} ==>
              Apply(o, id, a) == Fail("unknown function '" + id + "'")
    ensures Constant("pi") == Val(3.14159265358979323846) && Constant("e") == Val(2.71828182845904523536)
    ensures id != "pi" && id != "e" ==> Constant(id) == Fail("unknown name '" + id + "'")
  {
    hide Sum, Minimum, Maximum, Ceil, Round, Abs;
  }

  // ---- A call in a tree ---------------------------------------------------------------------------------

  lemma {:induction false} ArgumentValues(o: Ops, args: seq<Tree>)
    ensures var r := TreeValues(o, args);
            && (r.Good? ==> |r.a| == |args| && forall i | 0 <= i < |args| :: TreeValue(o, args[i]) == Val(r.a[i]))
            && (r.Bad? ==>
                  exists i :: && 0 <= i < |args| && TreeValue(o, args[i]) == Fail(r.msg)
                              && forall k | 0 <= k < i :: TreeValue(o, args[k]).Val?)
    decreases |args|
  {
    if args != [] {
      var front, last := args[..|args| - 1], args[|args| - 1];
      ArgumentValues(o, front);
      var r := TreeValues(o, front);
      if r.Bad? {
        var i :| && 0 <= i < |front| && TreeValue(o, front[i]) == Fail(r.msg)
                 && forall k | 0 <= k < i :: TreeValue(o, front[k]).Val?;
        assert args[i] == front[i] && forall k | 0 <= k < i :: args[k] == front[k];
      } else {
        assert forall k | 0 <= k < |front| :: args[k] == front[k] && TreeValue(o, front[k]).Val?;
        assert args[|front|] == last;
      }
    }
  }

  /** A call has the function's value at the values of its arguments, or the first error of one. */
  lemma CallMeaning(o: Ops, id: string, args: seq<Tree>, vs: seq<real>)
    ensures |vs| == |args| && (forall i | 0 <= i < |args| :: TreeValue(o, args[i]) == Val(vs[i])) ==>
              TreeValue(o, Tree.Call(id, args)) == Apply(o, id, vs)
    ensures forall i | 0 <= i < |args| && TreeValue(o, args[i]).Fail?
                       && (forall k | 0 <= k < i :: TreeValue(o, args[k]).Val?) ::
              TreeValue(o, Tree.Call(id, args)) == TreeValue(o, args[i])
  {
    ArgumentValues(o, args);
    CallIs(o, id, args);
    hide TreeValue, TreeValues, Apply;
    var r := TreeValues(o, args);
    if r.Good? && |vs| == |args| && forall i | 0 <= i < |args| :: TreeValue(o, args[i]) == Val(vs[i]) {
      assert forall i | 0 <= i < |args| :: Val(r.a[i]) == Val(vs[i]);
      assert r.a == vs;
    }
    if r.Bad? {
      var j :| && 0 <= j < |args| && TreeValue(o, args[j]) == Fail(r.msg)
               && forall k | 0 <= k < j :: TreeValue(o, args[k]).Val?;
      forall i | 0 <= i < |args| && TreeValue(o, args[i]).Fail? && forall k | 0 <= k < i :: TreeValue(o, args[k]).Val?
        ensures TreeValue(o, Tree.Call(id, args)) == TreeValue(o, args[i])
      {
        assert i == j;
      }
    }
  }

  lemma CallIs(o: Ops, id: string, args: seq<Tree>)
    ensures TreeValue(o, Tree.Call(id, args)) ==
            (var r := TreeValues(o, args); if r.Bad? then Fail(r.msg) else Apply(o, id, r.a))
  {
    hide Apply, TreeValues, NumberOf, Constant;
  }

  // ---- The text of an expression ---------------------------------------------------------------------------

  /** The usual text, with brackets round what binds looser than its place. */
  function Print(a: Tree): (s: string)
    decreases a, 0
  {
    match a
    case Lit(lex) => lex
    case Const(id) => id
    case Call(id, args) => id + "(" + PrintList(args) + ")"
    case Signed(minus, x) => (if minus then "-" else "+") + Operand(x, 2)
    case Bin(op, l, r) =>
      match op
      case Add => Operand(l, 0) + "+" + Operand(r, 1)
      case Sub => Operand(l, 0) + "-" + Operand(r, 1)
      case Mul => Operand(l, 1) + "*" + Operand(r, 2)
      case Div => Operand(l, 1) + "/" + Operand(r, 2)
      case Mod => Operand(l, 1) + "%" + Operand(r, 2)
      case Pow => Operand(l, 3) + "**" + Operand(r, 2)
  }

  function Operand(a: Tree, level: nat): (s: string)
    decreases a, 1
  {
    if Level(a) < level then "(" + Print(a) + ")" else Print(a)
  }

  function PrintList(args: seq<Tree>): (s: string)
    decreases args, 2
  {
    if args == [] then ""
    else if |args| == 1 then Print(args[0])
    else PrintList(args[..|args| - 1]) + "," + Print(args[|args| - 1])
  }

  lemma {:induction false} ShownExpr(a: Tree)
    ensures ExprText(ShowExpr(a)) == Print(a)
    decreases a, Level(a), 0
  {
    if Level(a) == 0 {
      ShownExpr(a.l);
      ShownTerm(a.r);
      SumText(a);
    } else {
      ShownTerm(a);
    }
  }

  lemma SumText(a: Tree)
    requires Level(a) == 0
    ensures ExprText(ShowExpr(a)) ==
            ExprText(ShowExpr(a.l)) + ((if a.op == Add then "+" else "-") + TermText(ShowTerm(a.r)))
  {
  }

  lemma {:induction false} ShownTerm(a: Tree)
    ensures TermText(ShowTerm(a)) == Operand(a, 1)
    decreases a, if Level(a) == 0 then 3 else Level(a) - 1, 1
  {
    if Level(a) == 1 {
      ShownTerm(a.l);
      ShownFactor(a.r);
    } else {
      ShownFactor(a);
    }
  }

  lemma {:induction false} ShownFactor(a: Tree)
    ensures FactorText(ShowFactor(a)) == Operand(a, 2)
    decreases a, if Level(a) <= 1 then Level(a) + 2 else Level(a) - 2, 0
  {
    match a
    case Signed(minus, x) => ShownFactor(x);
    case Bin(Pow, l, r) =>
      ShownPrimary(l);
      ShownFactor(r);
    case _ => ShownPrimary(a);
  }

  lemma {:induction false} ShownPrimary(a: Tree)
    ensures PrimaryText(ShowPrimary(a)) == Operand(a, 3)
    decreases a, if Level(a) == 3 then 0 else Level(a) + 1, 0
  {
    match a
    case Lit(lex) =>
    case Const(id) =>
    case Call(id, args) => ShownArgs(args);
    case _ => ShownExpr(a);
  }

  lemma {:induction false} ShownArgs(args: seq<Tree>)
    ensures ArgsText(ShowArgs(args)) == PrintList(args)
    decreases args, 1, 1
  {
    if |args| == 1 {
      ShownExpr(args[0]);
    } else if args != [] {
      ShownArgs(args[..|args| - 1]);
      ShownExpr(args[|args| - 1]);
    }
  }

  /** The usual text of any expression evaluates to the expression's value, or to its first error. */
  lemma TextEvaluates(o: Ops, a: Tree)
    requires TreeOk(a)
    ensures EvalExpr(o, Print(a)) == TreeValue(o, a)
  {
    hide *;
    ShownExpr(a);
    PrintedEvaluates(o, a);
  }

  // ---- Texts that are no expression ----------------------------------------------------------------------

  /** White space alone is an error of its own, and so is a bracket after an expression that has a value. */
  lemma NoExpression(o: Ops, blank: string, a: Tree)
    requires Blank(blank) && TreeOk(a)
    ensures EvalExpr(o, blank) == Fail("empty expression")
    ensures EvalExpr(o, Print(a) + ")") ==
            if TreeValue(o, a).Val? then Fail("unexpected trailing input") else TreeValue(o, a)
  {
    AllBlank(blank, 0);
    EmptyText(o, blank);
    hide *;
    ShownExpr(a);
    ShowExprIs(o, a);
    var t := ShowExpr(a);
    var p, s := |ExprText(t)|, ExprText(t) + ")";
    BracketStops(ExprText(t));
    StopIs(s, p);
    ReadExpr(o, t, s, 0);
    SumEnds(o, s, ExprValue(o, t), p);
    Rest(o, s, p, ExprValue(o, t));
  }

  lemma EmptyText(o: Ops, s: string)
    requires Skip(s, 0) == |s|
    ensures EvalExpr(o, s) == Fail("empty expression")
  {
  }

  lemma BracketStops(t: string)
    ensures var s := t + ")"; OccursAt(s, t, 0) && StopExpr(s, |t|) && Skip(s, |t|) == |t| < |s|
  {
    var s := t + ")";
    assert s[|t|] == ')' && s[..|t|] == t;
  }

  lemma Rest(o: Ops, s: string, p: nat, x: Calc)
    requires PExpr(o, s, 0) == Outcome(x, p) && Skip(s, 0) < |s| && p <= |s| && Skip(s, p) < |s|
    ensures EvalExpr(o, s) == if x.Val? then Fail("unexpected trailing input") else x
  {
    hide PExpr, Skip;
  }

  lemma {:induction false} AllBlank(s: string, i: nat)
    requires Blank(s) && i <= |s|
    ensures Skip(s, i) == |s|
    decreases |s| - i
  {
    if i < |s| {
      AllBlank(s, i + 1);
    }
  }

  /** The characters of names by character code. */
  lemma NamesByCode(c: char)
    ensures IsIdent(c) <==>
            65 <= c as int <= 90 || 97 <= c as int <= 122 || 48 <= c as int <= 57 || c as int == 95
    ensures IsAlpha(c) <==> 65 <= c as int <= 90 || 97 <= c as int <= 122
  {
  }
}
