/** What the grammar's exactness needs of the library's number reader. */
module CalcReader {
  import opened Text
  import opened Wrappers
  import opened CalcEval
  import opened CalcGrammar
  import opened CalcComplete

  /** On this text and value the evaluator and the grammar agree. */
  ghost predicate Agrees(o: Ops, s: string, v: real)
  {
    EvalExpr(o, s) == Val(v) <==> exists t :: Derives(t, s) && ExprValue(o, t) == Val(v)
  }

  /** The number reader that knows lexemes only. */
  function LexemesOnly(o: Ops): (p: Ops)
  {
    o.(stod := tok => if IsLexeme(tok) then o.stod(tok) else None)
  }

  /** A tree's value depends on what is read for lexemes only. */
  lemma {:induction false} SameExpr(o: Ops, t: Expr)
    requires ExprOk(t)
    ensures ExprValue(LexemesOnly(o), t) == ExprValue(o, t)
  {
    match t
    case ETerm(u) => SameTerm(o, u);
    case EBin(l, _, _, r) =>
      SameExpr(o, l);
      SameTerm(o, r);
  }

  lemma {:induction false} SameTerm(o: Ops, t: Term)
    requires TermOk(t)
    ensures TermValue(LexemesOnly(o), t) == TermValue(o, t)
  {
    match t
    case TFactor(f) => SameFactor(o, f);
    case TBin(l, _, _, r) =>
      SameTerm(o, l);
      SameFactor(o, r);
  }

  lemma {:induction false} SameFactor(o: Ops, t: Factor)
    requires FactorOk(t)
    ensures FactorValue(LexemesOnly(o), t) == FactorValue(o, t)
  {
    match t
    case FSign(_, _, f) => SameFactor(o, f);
    case FPower(p) => SamePower(o, p);
  }

  lemma {:induction false} SamePower(o: Ops, t: Power)
    requires PowerOk(t)
    ensures PowerValue(LexemesOnly(o), t) == PowerValue(o, t)
  {
    match t
    case PBase(b) => SamePrimary(o, b);
    case PPow(b, _, e) =>
      SamePrimary(o, b);
      SameFactor(o, e);
  }

  lemma {:induction false} SamePrimary(o: Ops, t: Primary)
    requires PrimaryOk(t)
    ensures PrimaryValue(LexemesOnly(o), t) == PrimaryValue(o, t)
  {
    hide IsLexeme;
    match t
    case Num(_, lex) =>
    case Paren(_, e, _) => SameExpr(o, e);
    case Name(_, _) =>
    case FunCall(_, id, _, args, _) =>
      SameArgs(o, args);
      match ArgsValue(o, args)
      case Bad(_) =>
      case Good(a) => SameApply(o, id, a);
  }

  lemma SameApply(o: Ops, id: string, a: seq<real>)
    ensures Apply(LexemesOnly(o), id, a) == Apply(o, id, a)
  {
  }

  lemma {:induction false} SameArgs(o: Ops, t: Args)
    requires ArgsOk(t)
    ensures ArgsValue(LexemesOnly(o), t) == ArgsValue(o, t)
  {
    match t
    case NoArgs =>
    case OneArg(e) => SameExpr(o, e);
    case MoreArgs(a, _, e) =>
      SameArgs(o, a);
      SameExpr(o, e);
  }

  /** A run that is the whole text has the value the number reader gives it. */
  lemma RunEvaluates(o: Ops, lex: string)
    requires IsRun(lex)
    ensures EvalExpr(o, lex) == NumberOf(o, lex)
  {
    var n := |lex|;
    RunEnds(lex);
    assert lex[0..n] == lex;
    hide IsRun, Skip, NumberEnd, PIdent, NumberOf;
    PowerTurn(o, lex, 0);
    TermStart(o, lex, 0);
    ExprStart(o, lex, 0);
    if NumberOf(o, lex).Val? {
      TermTurn(o, lex, n, NumberOf(o, lex).v);
      ExprTurn(o, lex, n, NumberOf(o, lex).v);
    }
  }

  lemma RunEnds(lex: string)
    requires IsRun(lex)
    ensures Skip(lex, 0) == 0 && Skip(lex, |lex|) == |lex| && NumberEnd(lex, 0, 0) == |lex|
    ensures lex != "" && (IsDigit(lex[0]) || lex[0] == '.')
  {
    NumberTo(lex, 0, 0, |lex|);
  }

  /** The evaluator accepts exactly the grammar, for all texts and values, if and only if the number
      reader uses up no run that ends in an exponent mark. */
  lemma GrammarNeedsStod(o: Ops)
    ensures (forall s, v :: Agrees(o, s, v)) <==> CStod(o)
  {
    hide *;
    if CStod(o) {
      forall s, v ensures Agrees(o, s, v) {
        AcceptsExactlyTheGrammar(o, s, v);
        AgreesIs(o, s, v);
      }
    } else {
      var lex := UsedUp(o);
      var v := NumberOf(o, lex).v;
      RunEvaluates(o, lex);
      RunEvaluates(LexemesOnly(o), lex);
      NotRead(o, lex);
      AgreesIs(o, lex, v);
      forall t ensures !Derives(t, lex) {
        if Derives(t, lex) {
          DerivableEvaluates(o, t, lex);
          DerivableEvaluates(LexemesOnly(o), t, lex);
          DerivedOk(t, lex);
          SameExpr(o, t);
        }
      }
    }
  }

  lemma AgreesIs(o: Ops, s: string, v: real)
    ensures Agrees(o, s, v) <==> (EvalExpr(o, s) == Val(v) <==> exists t :: Derives(t, s) && ExprValue(o, t) == Val(v))
  {
    hide Derives, EvalExpr, ExprValue;
  }

  lemma UsedUp(o: Ops) returns (lex: string)
    requires !CStod(o)
    ensures IsRun(lex) && !IsLexeme(lex) && NumberOf(o, lex).Val?
  {
    hide NumberOf;
    lex :| IsRun(lex) && IsExpMark(lex[|lex| - 1]) && !NumberOf(o, lex).Fail?;
  }

  lemma NotRead(o: Ops, lex: string)
    requires !IsLexeme(lex)
    ensures NumberOf(LexemesOnly(o), lex).Fail?
  {
  }

  lemma DerivedOk(t: Expr, s: string)
    requires Derives(t, s)
    ensures ExprOk(t)
  {
  }
}
