/** Every text the grammar derives is parsed: to its value, or to its first error. */
module CalcComplete {
  import opened Text
  import opened CalcEval
  import opened CalcGrammar

  lemma OccursSplit(s: string, i: nat, a: string, b: string)
    requires OccursAt(s, a + b, i)
    ensures OccursAt(s, a, i) && OccursAt(s, b, i + |a|)
  {
    assert s[i..i + |a + b|][..|a|] == s[i..i + |a|];
    assert s[i..i + |a + b|][|a|..] == s[i + |a|..i + |a| + |b|];
  }

  lemma OccursChar(s: string, i: nat, t: string, k: nat)
    requires OccursAt(s, t, i) && k < |t|
    ensures i + k < |s| && s[i + k] == t[k]
  {
    assert s[i..i + |t|][k] == s[i + k];
  }

  /** White space is skipped up to the next token. */
  lemma SkipOver(s: string, i: nat, ws: string)
    requires OccursAt(s, ws, i) && Blank(ws)
    requires i + |ws| < |s| ==> !IsSpace(s[i + |ws|])
    ensures Skip(s, i) == i + |ws|
  {
    HereIs(s, i, ws);
    hide OccursAt;
    forall j | i <= j < i + |ws| ensures IsSpace(s[j]) {
      OccursChar(s, i, ws, j - i);
    }
    SkipTo(s, i, i + |ws|);
  }

  lemma {:induction false} SkipTo(s: string, i: nat, k: nat)
    requires i <= k <= |s| && forall j | i <= j < k :: IsSpace(s[j])
    requires k < |s| ==> !IsSpace(s[k])
    ensures Skip(s, i) == k
    decreases k - i
  {
    if i < k {
      SkipTo(s, i + 1, k);
    }
  }

  /** A token of text `tok` behind white space `ws`. */
  lemma TokenAt(s: string, i: nat, ws: string, tok: string, rest: string)
    requires OccursAt(s, ws + tok + rest, i) && Blank(ws) && tok != "" && !IsSpace(tok[0])
    ensures Skip(s, i) == i + |ws| && OccursAt(s, tok, i + |ws|) && OccursAt(s, rest, i + |ws| + |tok|)
    ensures i + |ws| < |s| && s[i + |ws|] == tok[0]
  {
    hide OccursAt, Skip;
    OccursSplit(s, i, ws + tok, rest);
    OccursSplit(s, i, ws, tok);
    OccursChar(s, i + |ws|, tok, 0);
    SkipOver(s, i, ws);
  }

  // ---- What may follow ----------------------------------------------------------------------

  predicate Mark(c: char)
  {
    c == '+' || c == '-' || c == '*' || c == '/' || c == '%' || c == ',' || c == ')'
  }

  /** White space, an operator, a comma, a closing bracket or the end follows. */
  predicate Stop(s: string, p: nat)
  {
    p <= |s| && (p < |s| ==> IsSpace(s[p]) || Mark(s[p])) && (Skip(s, p) < |s| ==> Mark(s[Skip(s, p)]))
  }

  predicate StopPower(s: string, p: nat)
  {
    Stop(s, p) && !PowerAt(s, Skip(s, p))
  }

  predicate StopTerm(s: string, p: nat)
  {
    && Stop(s, p)
    && var k := Skip(s, p);
       !At(s, k, '*') && !At(s, k, '/') && !At(s, k, '%')
  }

  predicate StopExpr(s: string, p: nat)
  {
    StopTerm(s, p) && !At(s, Skip(s, p), '+') && !At(s, Skip(s, p), '-')
  }

  /** The next token is the mark `c`, and no second `*` follows a first one. */
  lemma StopBefore(s: string, p: nat, ws: string, c: char, rest: string)
    requires OccursAt(s, ws + [c] + rest, p) && Blank(ws) && Mark(c)
    requires c == '*' ==> rest != "" && rest[0] != '*'
    ensures Skip(s, p) == p + |ws| && At(s, p + |ws|, c) && StopPower(s, p)
    ensures c != '*' && c != '/' && c != '%' ==> StopTerm(s, p)
    ensures OccursAt(s, rest, p + |ws| + 1)
  {
    TokenAt(s, p, ws, [c], rest);
    if ws != "" {
      assert ws + [c] + rest == ws + ([c] + rest);
      OccursSplit(s, p, ws, [c] + rest);
      OccursChar(s, p, ws, 0);
    }
    if c == '*' {
      OccursChar(s, p + |ws| + 1, rest, 0);
    }
  }

  // ---- Outcomes -------------------------------------------------------------------------------

  function Outcome(r: Calc, p: nat): (q: Parsed<real>)
  {
    match r
    case Val(v) => Ok(v, p)
    case Fail(m) => Err(m)
  }

  function TermFrom(o: Ops, s: string, r: Calc, p: nat): (q: Parsed<real>)
    requires p <= |s|
  {
    match r
    case Val(v) => TermLoop(o, s, p, v)
    case Fail(m) => Err(m)
  }

  function ExprFrom(o: Ops, s: string, r: Calc, p: nat): (q: Parsed<real>)
    requires p <= |s|
  {
    match r
    case Val(v) => ExprLoop(o, s, p, v)
    case Fail(m) => Err(m)
  }

  /** No derived text starts with `*`. */
  lemma {:induction false} FactorStart(t: Factor)
    requires FactorOk(t)
    ensures FactorText(t) != "" && FactorText(t)[0] != '*'
  {
    match t
    case FSign(ws, minus, f) =>
      assert ws != "" ==> IsSpace(ws[0]);
    case FPower(p) =>
      PrimaryStart(p.b);
      assert PowerText(p)[0] == PrimaryText(p.b)[0];
  }

  lemma PrimaryStart(t: Primary)
    requires PrimaryOk(t)
    ensures PrimaryText(t) != "" && PrimaryText(t)[0] != '*'
  {
    assert t.ws != "" ==> IsSpace(t.ws[0]) && PrimaryText(t)[0] == t.ws[0];
  }

  // ---- The parser on derived text ----------------------------------------------------------------

  lemma {:induction false} ReadExpr(o: Ops, t: Expr, s: string, i: nat)
    requires ExprOk(t) && OccursAt(s, ExprText(t), i) && StopTerm(s, i + |ExprText(t)|)
    ensures i + |ExprText(t)| <= |s| && Skip(s, i) < |s| && !At(s, Skip(s, i), ')')
    ensures PExpr(o, s, i) == ExprFrom(o, s, ExprValue(o, t), i + |ExprText(t)|)
    decreases t
  {
    hide *;
    var p := i + |ExprText(t)|;
    match t
    case ETerm(u) =>
      ExprParts(o, t);
      StopIs(s, p);
      ReadTerm(o, u, s, i);
      ExprStart(o, s, i);
      FromTerm(o, s, TermValue(o, u), p);
    case EBin(l, ws, plus, r) =>
      ExprParts(o, t);
      var c := if plus then '+' else '-';
      MarkIs(c);
      var q := i + |ExprText(l)|;
      OccursSplit(s, i, ExprText(l), ws + [c] + TermText(r));
      StopBefore(s, q, ws, c, TermText(r));
      ReadExpr(o, l, s, i);
      StopIs(s, p);
      ReadTerm(o, r, s, q + |ws| + 1);
      FromSum(o, s, ExprValue(o, l), q, plus, TermValue(o, r), p);
  }

  lemma MarkIs(c: char)
    ensures c == '+' || c == '-' || c == '*' || c == '/' || c == '%' || c == ',' || c == ')' ==> Mark(c)
  {
  }

  /** A derivation step of a sum, as text and as value. */
  lemma ExprParts(o: Ops, t: Expr)
    requires ExprOk(t)
    ensures t.ETerm? ==> TermOk(t.t) && ExprText(t) == TermText(t.t) && ExprValue(o, t) == TermValue(o, t.t)
    ensures t.EBin? ==>
              && ExprOk(t.l) && Blank(t.ws) && TermOk(t.r)
              && ExprText(t) == ExprText(t.l) + (t.ws + [if t.plus then '+' else '-'] + TermText(t.r))
              && ExprValue(o, t) ==
                 (var x, y := ExprValue(o, t.l), TermValue(o, t.r);
                  if x.Fail? then x else if y.Fail? then y else Val(Sums(t.plus, x.v, y.v)))
  {
    hide TermText, TermOk, TermValue, Blank;
  }

  /** Each kind of stop includes the weaker ones. */
  lemma StopIs(s: string, p: nat)
    ensures StopTerm(s, p) ==> StopPower(s, p)
    ensures StopPower(s, p) ==> Stop(s, p)
    ensures StopExpr(s, p) ==> StopTerm(s, p)
    ensures Stop(s, p) ==> p <= |s|
    ensures StopExpr(s, p) ==> p <= |s|
  {
    hide Skip;
  }

  /** A term before no further factor is the first term of a sum. */
  lemma FromTerm(o: Ops, s: string, x: Calc, p: nat)
    requires StopTerm(s, p)
    ensures p <= |s|
    ensures TermFrom(o, s, x, p) == Outcome(x, p)
    ensures (if TermFrom(o, s, x, p).Err? then Err(TermFrom(o, s, x, p).msg)
             else ExprLoop(o, s, TermFrom(o, s, x, p).i, TermFrom(o, s, x, p).v)) == ExprFrom(o, s, x, p)
  {
    hide ExprLoop, Skip;
  }

  lemma FromSum(o: Ops, s: string, x: Calc, q: nat, plus: bool, y: Calc, p: nat)
    requires q <= |s| && At(s, Skip(s, q), if plus then '+' else '-')
    requires StopTerm(s, p) && PTerm(o, s, Skip(s, q) + 1) == TermFrom(o, s, y, p)
    ensures ExprFrom(o, s, x, q) ==
            ExprFrom(o, s, if x.Fail? then x else if y.Fail? then y else Val(Sums(plus, x.v, y.v)), p)
  {
    FromTerm(o, s, y, p);
    if x.Val? {
      ExprTurn(o, s, q, x.v);
      hide ExprLoop, PTerm, Skip, TermLoop, StopTerm;
    }
  }

  lemma {:induction false} ReadTerm(o: Ops, t: Term, s: string, i: nat)
    requires TermOk(t) && OccursAt(s, TermText(t), i) && StopPower(s, i + |TermText(t)|)
    ensures i + |TermText(t)| <= |s| && Skip(s, i) < |s| && !At(s, Skip(s, i), ')')
    ensures PTerm(o, s, i) == TermFrom(o, s, TermValue(o, t), i + |TermText(t)|)
    decreases t
  {
    hide *;
    var p := i + |TermText(t)|;
    StopIs(s, p);
    match t
    case TFactor(f) =>
      TermParts(o, t);
      ReadFactor(o, f, s, i);
      TermStart(o, s, i);
      FromFactor(o, s, FactorValue(o, f), p);
    case TBin(l, ws, op, r) =>
      TermParts(o, t);
      MarkIs(op);
      var q := i + |TermText(l)|;
      OccursSplit(s, i, TermText(l), ws + [op] + FactorText(r));
      FactorStart(r);
      StopBefore(s, q, ws, op, FactorText(r));
      ReadTerm(o, l, s, i);
      ReadFactor(o, r, s, q + |ws| + 1);
      FromProduct(o, s, TermValue(o, l), q, op, FactorValue(o, r), p);
  }

  lemma TermParts(o: Ops, t: Term)
    requires TermOk(t)
    ensures t.TFactor? ==> FactorOk(t.f) && TermText(t) == FactorText(t.f) && TermValue(o, t) == FactorValue(o, t.f)
    ensures t.TBin? ==>
              && TermOk(t.l) && Blank(t.ws) && (t.op == '*' || t.op == '/' || t.op == '%') && FactorOk(t.r)
              && TermText(t) == TermText(t.l) + (t.ws + [t.op] + FactorText(t.r))
              && TermValue(o, t) ==
                 (var x, y := TermValue(o, t.l), FactorValue(o, t.r);
                  if x.Fail? then x else if y.Fail? then y else Times(o, t.op, x.v, y.v))
  {
    hide FactorText, FactorOk, FactorValue, Blank, Times;
  }

  lemma FromFactor(o: Ops, s: string, x: Calc, p: nat)
    requires p <= |s|
    ensures (if Outcome(x, p).Err? then Err(Outcome(x, p).msg)
             else TermLoop(o, s, Outcome(x, p).i, Outcome(x, p).v)) == TermFrom(o, s, x, p)
  {
    hide TermLoop;
  }

  lemma FromProduct(o: Ops, s: string, x: Calc, q: nat, op: char, y: Calc, p: nat)
    requires q <= |s| && At(s, Skip(s, q), op) && (op == '*' || op == '/' || op == '%')
    requires StopPower(s, q) && p <= |s| && PFactor(o, s, Skip(s, q) + 1) == Outcome(y, p)
    ensures TermFrom(o, s, x, q) ==
            TermFrom(o, s, if x.Fail? then x else if y.Fail? then y else Times(o, op, x.v, y.v), p)
  {
    if x.Val? {
      TermTurn(o, s, q, x.v);
      hide TermLoop, PFactor, Skip, Times;
    }
  }

  lemma {:induction false} ReadFactor(o: Ops, t: Factor, s: string, i: nat)
    requires FactorOk(t) && OccursAt(s, FactorText(t), i) && StopPower(s, i + |FactorText(t)|)
    ensures i <= |s| && Skip(s, i) < |s| && !At(s, Skip(s, i), ')')
    ensures PFactor(o, s, i) == Outcome(FactorValue(o, t), i + |FactorText(t)|)
    decreases t
  {
    hide PFactor, PPower, Skip, OccursAt, StopPower, PowerOk, PowerText, PowerValue;
    match t
    case FSign(ws, minus, f) =>
      var c := if minus then '-' else '+';
      TokenAt(s, i, ws, [c], FactorText(f));
      ReadFactor(o, f, s, i + |ws| + 1);
      FactorTurn(o, s, i);
    case FPower(p) =>
      ReadPower(o, p, s, i);
      FactorTurn(o, s, i);
  }

  lemma FactorTurn(o: Ops, s: string, i: nat)
    requires i <= |s|
    ensures var k := Skip(s, i);
            PFactor(o, s, i) ==
            if At(s, k, '-') || At(s, k, '+') then
              var r := PFactor(o, s, k + 1);
              if r.Err? then Err(r.msg) else Ok(if s[k] == '-' then -r.v else r.v, r.i)
            else PPower(o, s, k)
  {
    hide PPower, Skip;
  }

  /** Also says that a power starts with no sign, read from behind its white space. */
  lemma {:induction false} ReadPower(o: Ops, t: Power, s: string, i: nat)
    requires PowerOk(t) && OccursAt(s, PowerText(t), i) && StopPower(s, i + |PowerText(t)|)
    ensures i <= |s| && Skip(s, i) < |s| && !At(s, Skip(s, i), ')')
    ensures !At(s, Skip(s, i), '-') && !At(s, Skip(s, i), '+')
    ensures PPower(o, s, Skip(s, i)) == Outcome(PowerValue(o, t), i + |PowerText(t)|)
    decreases t
  {
    hide PPower, PPrimary, PFactor, Skip, OccursAt, Stop, StopPower, PrimaryOk, PrimaryText, PrimaryValue,
      FactorOk, FactorText, FactorValue;
    StopIs(s, i + |PowerText(t)|);
    match t
    case PBase(b) =>
      ReadPrimary(o, b, s, i);
      PowerTurn(o, s, Skip(s, i));
      NoPower(s, i + |PowerText(t)|);
    case PPow(b, ws, e) =>
      var q := i + |PrimaryText(b)|;
      OccursSplit(s, i, PrimaryText(b), ws + "**" + FactorText(e));
      PowerFollows(s, q, ws, FactorText(e));
      ReadPrimary(o, b, s, i);
      ReadFactor(o, e, s, q + |ws| + 2);
      PowerTurn(o, s, Skip(s, i));
  }

  lemma NoPower(s: string, p: nat)
    requires StopPower(s, p)
    ensures p <= |s| && !PowerAt(s, Skip(s, p))
  {
  }

  lemma PowerFollows(s: string, q: nat, ws: string, rest: string)
    requires OccursAt(s, ws + "**" + rest, q) && Blank(ws)
    ensures q <= |s| && Stop(s, q) && Skip(s, q) == q + |ws| && PowerAt(s, q + |ws|) && OccursAt(s, rest, q + |ws| + 2)
  {
    hide OccursAt;
    TokenAt(s, q, ws, "**", rest);
    OccursChar(s, q + |ws|, "**", 1);
    if ws != "" {
      assert ws + "**" + rest == ws + ("**" + rest);
      OccursSplit(s, q, ws, "**" + rest);
      OccursChar(s, q, ws, 0);
    }
  }

  lemma PowerTurn(o: Ops, s: string, i: nat)
    requires i <= |s|
    ensures var b := PPrimary(o, s, i);
            PPower(o, s, i) ==
            if b.Err? then Err(b.msg)
            else
              var k := Skip(s, b.i);
              if !PowerAt(s, k) then Ok(b.v, b.i)
              else
                var e := PFactor(o, s, k + 2);
                if e.Err? then Err(e.msg) else Ok(o.pow(b.v, e.v), e.i)
  {
    hide PPrimary, PFactor, Skip;
  }

  lemma {:induction false} ReadPrimary(o: Ops, t: Primary, s: string, i: nat)
    requires PrimaryOk(t) && OccursAt(s, PrimaryText(t), i) && Stop(s, i + |PrimaryText(t)|)
    ensures i <= |s| && Skip(s, i) < |s| && !At(s, Skip(s, i), ')')
    ensures !At(s, Skip(s, i), '-') && !At(s, Skip(s, i), '+')
    ensures PPrimary(o, s, Skip(s, i)) == Outcome(PrimaryValue(o, t), i + |PrimaryText(t)|)
    decreases t, 1
  {
    hide PPrimary, OccursAt, Stop, Skip;
    match t
    case Num(ws, lex) => ReadNumber(o, ws, lex, s, i);
    case Name(ws, id) => ReadName(o, ws, id, s, i);
    case Paren(_, _, _) => ReadParen(o, t, s, i);
    case FunCall(_, _, _, _, _) => ReadCall(o, t, s, i);
  }

  lemma {:induction false} ReadParen(o: Ops, t: Primary, s: string, i: nat)
    requires t.Paren? && PrimaryOk(t) && OccursAt(s, PrimaryText(t), i)
    ensures i <= |s| && Skip(s, i) < |s| && At(s, Skip(s, i), '(')
    ensures PPrimary(o, s, Skip(s, i)) == Outcome(PrimaryValue(o, t), i + |PrimaryText(t)|)
    decreases t, 0
  {
    hide *;
    ParenParts(o, t);
    var ws, e, ws2 := t.ws, t.e, t.ws2;
    var q := i + |ws| + 1;
    OpenIs();
    TokenAt(s, i, ws, "(", ExprText(e) + (ws2 + [')'] + ""));
    AtIs(s, i + |ws|, '(');
    var p := q + |ExprText(e)|;
    OccursSplit(s, q, ExprText(e), ws2 + [')'] + "");
    Closes(s, p, ws2);
    StopIs(s, p);
    ReadExpr(o, e, s, q);
    ParenTurn(o, s, i, q, p, ExprValue(o, e));
  }

  lemma {:induction false} ReadCall(o: Ops, t: Primary, s: string, i: nat)
    requires t.FunCall? && PrimaryOk(t) && OccursAt(s, PrimaryText(t), i)
    ensures i <= |s| && Skip(s, i) < |s| && (IsAlpha(s[Skip(s, i)]) || s[Skip(s, i)] == '_')
    ensures PPrimary(o, s, Skip(s, i)) == Outcome(PrimaryValue(o, t), i + |PrimaryText(t)|)
    decreases t, 0
  {
    hide *;
    CallParts(o, t);
    var k := i + |t.ws|;
    var e := k + |t.id|;
    var close := t.ws2 + [')'] + "";
    NameIs(t.id);
    TokenAt(s, i, t.ws, t.id, t.ws1 + "(" + (ArgsText(t.args) + close));
    OpenIs();
    TokenAt(s, e, t.ws1, "(", ArgsText(t.args) + close);
    AtIs(s, e + |t.ws1|, '(');
    CallName(s, k, e, t.id, t.ws1, ArgsText(t.args) + close);
    var q := e + |t.ws1| + 1;
    OccursSplit(s, q, ArgsText(t.args), close);
    var p := q + |ArgsText(t.args)|;
    Closes(s, p, t.ws2);
    ReadArgs(o, t.args, s, q);
    CallTurn(o, s, i, t.id, e, q, p, ArgsValue(o, t.args));
  }

  lemma AtIs(s: string, k: nat, c: char)
    ensures k < |s| && s[k] == c <==> At(s, k, c)
  {
  }

  /** The name of a call ends at its bracket. */
  lemma CallName(s: string, k: nat, e: nat, id: string, ws1: string, rest: string)
    requires IsName(id) && OccursAt(s, id, k) && e == k + |id| && Blank(ws1) && OccursAt(s, ws1 + "(" + rest, e)
    ensures k < |s| && IdentEnd(s, k) == e && s[k..e] == id
  {
    hide OccursAt, IsName;
    OpenIs();
    TokenAt(s, e, ws1, "(", rest);
    assert ws1 + "(" + rest == ws1 + ("(" + rest);
    OccursSplit(s, e, ws1, "(" + rest);
    IdentHere(s, k, id, ws1);
  }

  lemma ParenParts(o: Ops, t: Primary)
    requires t.Paren? && PrimaryOk(t)
    ensures Blank(t.ws) && ExprOk(t.e) && Blank(t.ws2)
    ensures PrimaryText(t) == t.ws + "(" + (ExprText(t.e) + (t.ws2 + [')'] + ""))
    ensures |PrimaryText(t)| == |t.ws| + 1 + |ExprText(t.e)| + |t.ws2| + 1
    ensures PrimaryValue(o, t) == ExprValue(o, t.e)
  {
    hide ExprText, ExprOk, ExprValue, Blank;
  }

  lemma CallParts(o: Ops, t: Primary)
    requires t.FunCall? && PrimaryOk(t)
    ensures Blank(t.ws) && IsName(t.id) && Blank(t.ws1) && ArgsOk(t.args) && Blank(t.ws2)
    ensures PrimaryText(t) == t.ws + t.id + (t.ws1 + "(" + (ArgsText(t.args) + (t.ws2 + [')'] + "")))
    ensures |PrimaryText(t)| == |t.ws| + |t.id| + |t.ws1| + 1 + |ArgsText(t.args)| + |t.ws2| + 1
    ensures PrimaryValue(o, t) ==
            (var a := ArgsValue(o, t.args); if a.Bad? then Fail(a.msg) else Apply(o, t.id, a.a))
  {
    hide ArgsText, ArgsOk, ArgsValue, Blank, IsName, Apply;
  }

  lemma OpenIs()
    ensures "(" != "" && !IsSpace("("[0]) && "("[0] == '('
  {
  }

  lemma NameIs(id: string)
    requires IsName(id)
    ensures id != "" && !IsSpace(id[0]) && (IsAlpha(id[0]) || id[0] == '_')
  {
    assert IsIdent(id[0]);
  }

  lemma Closes(s: string, p: nat, ws: string)
    requires OccursAt(s, ws + [')'] + "", p) && Blank(ws)
    ensures p <= |s| && Skip(s, p) == p + |ws| && At(s, p + |ws|, ')') && StopExpr(s, p)
  {
    StopBefore(s, p, ws, ')', "");
  }

  lemma ParenTurn(o: Ops, s: string, i: nat, q: nat, p: nat, x: Calc)
    requires i <= |s| && Skip(s, i) + 1 == q <= p && At(s, Skip(s, i), '(')
    requires StopExpr(s, p) && At(s, Skip(s, p), ')')
    requires PExpr(o, s, q) == ExprFrom(o, s, x, p)
    ensures PPrimary(o, s, Skip(s, i)) == Outcome(x, Skip(s, p) + 1)
  {
    SumEnds(o, s, x, p);
    hide PExpr, ExprFrom, StopExpr;
  }

  /** An expression before neither operator is the whole expression. */
  lemma SumEnds(o: Ops, s: string, x: Calc, p: nat)
    requires StopExpr(s, p)
    ensures p <= |s| && ExprFrom(o, s, x, p) == Outcome(x, p)
  {
    hide Skip;
  }

  lemma {:induction false} NumberTo(s: string, k: nat, i: nat, e: nat)
    requires k <= i <= e <= |s| && forall j | i <= j < e :: InNumber(s, k, j)
    requires e < |s| ==> !InNumber(s, k, e)
    ensures NumberEnd(s, k, i) == e
    decreases e - i
  {
    if i < e {
      NumberTo(s, k, i + 1, e);
    }
  }

  lemma {:induction false} IdentTo(s: string, i: nat, e: nat)
    requires i <= e <= |s| && forall j | i <= j < e :: IsIdent(s[j])
    requires e < |s| ==> !IsIdent(s[e])
    ensures IdentEnd(s, i) == e
    decreases e - i
  {
    if i < e {
      IdentTo(s, i + 1, e);
    }
  }

  lemma NumberHere(s: string, k: nat, lex: string)
    requires IsLexeme(lex) && OccursAt(s, lex, k) && Stop(s, k + |lex|)
    ensures NumberEnd(s, k, k) == k + |lex| && s[k..k + |lex|] == lex
  {
    hide Skip, NumberEnd;
    forall j | 0 <= j < |lex| ensures k + j < |s| && s[k + j] == lex[j] {
      OccursChar(s, k, lex, j);
    }
    forall j | k <= j < k + |lex| ensures InNumber(s, k, j) {
      assert InNumber(lex, 0, j - k);
    }
    NumberTo(s, k, k, k + |lex|);
  }

  lemma ReadNumber(o: Ops, ws: string, lex: string, s: string, i: nat)
    requires Blank(ws) && IsLexeme(lex) && OccursAt(s, ws + lex, i) && Stop(s, i + |ws + lex|)
    ensures i <= |s| && Skip(s, i) == i + |ws|
            && PPrimary(o, s, Skip(s, i)) == Outcome(NumberOf(o, lex), i + |ws + lex|)
    ensures Skip(s, i) < |s| && (IsDigit(s[Skip(s, i)]) || s[Skip(s, i)] == '.')
  {
    hide Skip, NumberEnd, OccursAt, Stop, InNumber;
    assert ws + lex == ws + lex + "";
    TokenAt(s, i, ws, lex, "");
    NumberHere(s, i + |ws|, lex);
    SkipStays(s, i);
  }

  lemma SkipStays(s: string, i: nat)
    requires i <= |s|
    ensures Skip(s, Skip(s, i)) == Skip(s, i)
  {
  }

  lemma IdentHere(s: string, k: nat, id: string, ws1: string)
    requires IsName(id) && OccursAt(s, id, k) && Blank(ws1) && k + |id| <= |s|
    requires OccursAt(s, ws1, k + |id|)
    requires k + |id| + |ws1| < |s| && (s[k + |id| + |ws1|] == '(')
    ensures k < |s| && IdentEnd(s, k) == k + |id| && s[k..k + |id|] == id
  {
    hide OccursAt;
    HereIs(s, k, id);
    forall j | k <= j < k + |id| ensures IsIdent(s[j]) {
      OccursChar(s, k, id, j - k);
    }
    OccursChar(s, k, id, 0);
    if ws1 != "" {
      OccursChar(s, k + |id|, ws1, 0);
    }
    IdentTo(s, k, k + |id|);
  }

  lemma HereIs(s: string, k: nat, t: string)
    requires OccursAt(s, t, k)
    ensures k + |t| <= |s| && s[k..k + |t|] == t
  {
  }

  lemma NameHere(s: string, k: nat, id: string)
    requires IsName(id) && OccursAt(s, id, k) && Stop(s, k + |id|)
    ensures k < |s| && IdentEnd(s, k) == k + |id| && s[k..k + |id|] == id
  {
    hide OccursAt, Skip;
    HereIs(s, k, id);
    forall j | k <= j < k + |id| ensures IsIdent(s[j]) {
      OccursChar(s, k, id, j - k);
    }
    OccursChar(s, k, id, 0);
    IdentTo(s, k, k + |id|);
  }

  lemma ReadName(o: Ops, ws: string, id: string, s: string, i: nat)
    requires Blank(ws) && IsName(id) && OccursAt(s, ws + id, i) && Stop(s, i + |ws + id|)
    ensures i <= |s| && Skip(s, i) == i + |ws|
    ensures Skip(s, i) < |s| && (IsAlpha(s[Skip(s, i)]) || s[Skip(s, i)] == '_')
    ensures PPrimary(o, s, Skip(s, i)) == Outcome(Constant(id), i + |ws + id|)
  {
    hide *;
    assert ws + id == ws + id + "";
    NameIs(id);
    TokenAt(s, i, ws, id, "");
    NameHere(s, i + |ws|, id);
    SkipStays(s, i);
    NotOpen(s, i + |ws + id|);
    PrimaryIdent(o, s, i);
    NameTurn(o, s, i + |ws|);
  }

  lemma NotOpen(s: string, p: nat)
    requires Stop(s, p)
    ensures p <= |s| && !At(s, Skip(s, p), '(')
  {
  }

  lemma PrimaryIdent(o: Ops, s: string, i: nat)
    requires i <= |s| && Skip(s, i) < |s| && (IsAlpha(s[Skip(s, i)]) || s[Skip(s, i)] == '_')
    ensures PPrimary(o, s, Skip(s, i)) == PIdent(o, s, Skip(s, i))
  {
    SkipStays(s, i);
    hide PIdent, PExpr, Skip;
  }

  lemma NameTurn(o: Ops, s: string, k: nat)
    requires k < |s| && IsIdent(s[k]) && !At(s, Skip(s, IdentEnd(s, k)), '(')
    ensures PIdent(o, s, k) == Outcome(Constant(s[k..IdentEnd(s, k)]), IdentEnd(s, k))
  {
    hide PArgs, Skip, IdentEnd, Constant, Apply;
  }

  lemma CallTurn(o: Ops, s: string, i: nat, id: string, e: nat, q: nat, p: nat, x: Vals)
    requires i <= |s| && Skip(s, i) < e < q <= p <= |s| && IdentEnd(s, Skip(s, i)) == e
    requires s[Skip(s, i)..e] == id && (IsAlpha(s[Skip(s, i)]) || s[Skip(s, i)] == '_')
    requires Skip(s, e) + 1 == q && At(s, Skip(s, e), '(') && At(s, Skip(s, p), ')')
    requires PArgs(o, s, q) == if x.Bad? then Err(x.msg) else Ok(x.a, p)
    ensures PPrimary(o, s, Skip(s, i)) ==
            Outcome(if x.Bad? then Fail(x.msg) else Apply(o, id, x.a), Skip(s, p) + 1)
  {
    hide *;
    PrimaryIdent(o, s, i);
    IdentIs(s, Skip(s, i));
    IdentTurn(o, s, Skip(s, i), e);
    AfterArgsIs(o, s, id, p, x);
  }

  lemma AfterArgsIs(o: Ops, s: string, id: string, p: nat, x: Vals)
    requires p <= |s| && At(s, Skip(s, p), ')')
    ensures AfterArgs(o, s, id, if x.Bad? then Err(x.msg) else Ok(x.a, p)) ==
            Outcome(if x.Bad? then Fail(x.msg) else Apply(o, id, x.a), Skip(s, p) + 1)
  {
    hide Skip, Apply;
  }

  lemma IdentIs(s: string, k: nat)
    requires k < |s| && (IsAlpha(s[k]) || s[k] == '_')
    ensures IsIdent(s[k])
  {
  }

  lemma IdentTurn(o: Ops, s: string, k: nat, e: nat)
    requires k < |s| && IsIdent(s[k]) && e == IdentEnd(s, k) && At(s, Skip(s, e), '(')
    ensures Skip(s, e) < |s|
    ensures PIdent(o, s, k) == AfterArgs(o, s, s[k..e], PArgs(o, s, Skip(s, e) + 1))
  {
    hide PArgs, Skip, IdentEnd, Constant, AfterArgs;
  }

  lemma ExprSkips(o: Ops, s: string, i: nat)
    requires i <= |s|
    ensures PExpr(o, s, Skip(s, i)) == PExpr(o, s, i)
  {
    hide PPower, Skip;
    SkipStays(s, i);
    assert PFactor(o, s, Skip(s, i)) == PFactor(o, s, i);
    assert PTerm(o, s, Skip(s, i)) == PTerm(o, s, i);
  }

  function ArgsFrom(o: Ops, s: string, r: Vals, p: nat): (q: Parsed<seq<real>>)
    requires p <= |s|
  {
    match r
    case Good(a) => ArgsLoop(o, s, p, a)
    case Bad(m) => Err(m)
  }

  /** The arguments before the closing bracket. */
  lemma ReadArgs(o: Ops, t: Args, s: string, i: nat)
    requires ArgsOk(t) && OccursAt(s, ArgsText(t), i) && StopExpr(s, i + |ArgsText(t)|)
    requires i + |ArgsText(t)| <= |s| && At(s, Skip(s, i + |ArgsText(t)|), ')')
    ensures PArgs(o, s, i) ==
            (var x := ArgsValue(o, t); if x.Bad? then Err(x.msg) else Ok(x.a, i + |ArgsText(t)|))
    decreases t, 1
  {
    if t == NoArgs {
    } else {
      ReadList(o, t, s, i);
      hide PArgs, Skip, ArgsText, ArgsValue, ArgsOk, OccursAt, StopExpr;
    }
  }

  lemma {:induction false} ReadList(o: Ops, t: Args, s: string, i: nat)
    requires t != NoArgs && ArgsOk(t) && OccursAt(s, ArgsText(t), i) && StopExpr(s, i + |ArgsText(t)|)
    ensures i + |ArgsText(t)| <= |s|
    ensures PArgs(o, s, i) == ArgsFrom(o, s, ArgsValue(o, t), i + |ArgsText(t)|)
    decreases t, 0
  {
    hide *;
    ArgParts(o, t);
    var p := i + |ArgsText(t)|;
    StopIs(s, p);
    match t
    case OneArg(e) =>
      ReadExpr(o, e, s, i);
      ExprSkips(o, s, i);
      SumEnds(o, s, ExprValue(o, e), p);
      FirstArg(o, s, i, ExprValue(o, e), p);
    case MoreArgs(a, ws, e) =>
      MarkIs(',');
      var q := i + |ArgsText(a)|;
      OccursSplit(s, i, ArgsText(a), ws + [','] + ExprText(e));
      StopBefore(s, q, ws, ',', ExprText(e));
      StopIs(s, q);
      CommaStops(s, q);
      ReadList(o, a, s, i);
      ReadExpr(o, e, s, q + |ws| + 1);
      SumEnds(o, s, ExprValue(o, e), p);
      NextArg(o, s, ArgsValue(o, a), q, ExprValue(o, e), p);
  }

  lemma CommaStops(s: string, q: nat)
    requires StopTerm(s, q) && q <= |s| && At(s, Skip(s, q), ',')
    ensures StopExpr(s, q)
  {
    hide Skip;
  }

  lemma ArgParts(o: Ops, t: Args)
    requires t != NoArgs && ArgsOk(t)
    ensures t.OneArg? ==>
              && ExprOk(t.e) && ArgsText(t) == ExprText(t.e)
              && ArgsValue(o, t) == (var x := ExprValue(o, t.e); if x.Fail? then Bad(x.msg) else Good([x.v]))
    ensures t.MoreArgs? ==>
              && t.a != NoArgs && ArgsOk(t.a) && Blank(t.ws) && ExprOk(t.e)
              && ArgsText(t) == ArgsText(t.a) + (t.ws + [','] + ExprText(t.e))
              && ArgsValue(o, t) ==
                 (var y, x := ArgsValue(o, t.a), ExprValue(o, t.e);
                  if y.Bad? then y else if x.Fail? then Bad(x.msg) else Good(y.a + [x.v]))
  {
    hide ExprText, ExprOk, ExprValue, Blank;
  }

  lemma FirstArg(o: Ops, s: string, i: nat, x: Calc, p: nat)
    requires i <= |s| && p <= |s| && !At(s, Skip(s, i), ')')
    requires PExpr(o, s, Skip(s, i)) == Outcome(x, p)
    ensures PArgs(o, s, i) == ArgsFrom(o, s, if x.Fail? then Bad(x.msg) else Good([x.v]), p)
  {
    hide PExpr, Skip, ArgsLoop;
  }

  lemma NextArg(o: Ops, s: string, y: Vals, q: nat, x: Calc, p: nat)
    requires q <= |s| && p <= |s| && At(s, Skip(s, q), ',')
    requires PExpr(o, s, Skip(s, q) + 1) == Outcome(x, p)
    ensures ArgsFrom(o, s, y, q) ==
            ArgsFrom(o, s, if y.Bad? then y else if x.Fail? then Bad(x.msg) else Good(y.a + [x.v]), p)
  {
    hide PExpr, Skip;
  }

  // ---- Main results --------------------------------------------------------------------------------

  /** The grammar derives `s`, with white space behind it, by the tree `t`. */
  predicate Derives(t: Expr, s: string)
  {
    ExprOk(t) && ExprText(t) <= s && Blank(s[|ExprText(t)|..])
  }

  /** A derivable text is evaluated to its tree's value, or to its first error. */
  lemma DerivableEvaluates(o: Ops, t: Expr, s: string)
    requires Derives(t, s)
    ensures EvalExpr(o, s) == ExprValue(o, t)
  {
    var p := |ExprText(t)|;
    assert OccursAt(s, ExprText(t), 0);
    BlankTail(s, p);
    hide ExprOk, ExprText, ExprValue, OccursAt, StopExpr, PExpr, Skip, StopTerm;
    StopIs(s, p);
    ReadExpr(o, t, s, 0);
    SumEnds(o, s, ExprValue(o, t), p);
  }

  lemma BlankTail(s: string, p: nat)
    requires p <= |s| && Blank(s[p..])
    ensures Skip(s, p) == |s| && StopExpr(s, p)
  {
    forall j | p <= j < |s| ensures IsSpace(s[j]) {
      assert s[p..][j - p] == s[j];
    }
    SkipTo(s, p, |s|);
  }

  /** The evaluator accepts exactly the derivable texts whose tree has a value, and returns
      that value; every other text is rejected. */
  lemma AcceptsExactlyTheGrammar(o: Ops, s: string, v: real)
    requires CStod(o)
    ensures EvalExpr(o, s) == Val(v) <==> exists t :: Derives(t, s) && ExprValue(o, t) == Val(v)
  {
    hide *;
    if EvalExpr(o, s) == Val(v) {
      var t := AcceptedIsDerivable(o, s);
    }
    if exists t :: Derives(t, s) && ExprValue(o, t) == Val(v) {
      var t :| Derives(t, s) && ExprValue(o, t) == Val(v);
      DerivableEvaluates(o, t, s);
    }
  }

  lemma AcceptedIsDerivable(o: Ops, s: string) returns (t: Expr)
    requires CStod(o) && EvalExpr(o, s).Val?
    ensures Derives(t, s) && ExprValue(o, t) == EvalExpr(o, s)
  {
    hide CStod, PExpr, Skip, ExprText, ExprOk, ExprValue, Blank;
    t := SoundExpr(o, s, 0);
    var j := PExpr(o, s, 0).i;
    SkipBlank(s, j);
    assert s[0..j] == s[..j] && s[j..|s|] == s[j..];
  }

  /** The grammar is unambiguous in value: all trees of one text have one outcome. */
  lemma OneMeaning(o: Ops, t: Expr, u: Expr, s: string)
    requires Derives(t, s) && Derives(u, s)
    ensures ExprValue(o, t) == ExprValue(o, u)
  {
    DerivableEvaluates(o, t, s);
    DerivableEvaluates(o, u, s);
  }

  // ---- Printing an expression tree -------------------------------------------------------------------

  datatype BinOp = Add | Sub | Mul | Div | Mod | Pow

  /** An expression without brackets or white space. */
  datatype Tree =
    | Lit(lex: string)
    | Const(id: string)
    | Call(id: string, args: seq<Tree>)
    | Signed(minus: bool, x: Tree)
    | Bin(op: BinOp, l: Tree, r: Tree)

  predicate TreeOk(a: Tree)
  {
    match a
    case Lit(lex) => IsLexeme(lex)
    case Const(id) => IsName(id)
    case Call(id, args) => IsName(id) && forall i | 0 <= i < |args| :: TreeOk(args[i])
    case Signed(_, x) => TreeOk(x)
    case Bin(_, l, r) => TreeOk(l) && TreeOk(r)
  }

  function TreeValue(o: Ops, a: Tree): (r: Calc)
    decreases a, 0
  {
    match a
    case Lit(lex) => NumberOf(o, lex)
    case Const(id) => Constant(id)
    case Call(id, args) => (match TreeValues(o, args) case Bad(m) => Fail(m) case Good(vs) => Apply(o, id, vs))
    case Signed(minus, x) =>
      var y := TreeValue(o, x);
      if y.Fail? || !minus then y else Val(-y.v)
    case Bin(op, l, r) =>
      var x := TreeValue(o, l);
      if x.Fail? then x
      else
        var y := TreeValue(o, r);
        if y.Fail? then y
        else
          match op
          case Add => Val(x.v + y.v)
          case Sub => Val(x.v - y.v)
          case Mul => Val(x.v * y.v)
          case Div => if y.v == 0.0 then Fail("division by zero") else Val(x.v / y.v)
          case Mod => if y.v == 0.0 then Fail("modulo by zero") else Val(o.fmod(x.v, y.v))
          case Pow => Val(o.pow(x.v, y.v))
  }

  function TreeValues(o: Ops, args: seq<Tree>): (r: Vals)
    decreases args, 1
  {
    if args == [] then Good([])
    else
      match TreeValues(o, args[..|args| - 1])
      case Bad(m) => Bad(m)
      case Good(vs) =>
        match TreeValue(o, args[|args| - 1])
        case Fail(m) => Bad(m)
        case Val(v) => Good(vs + [v])
  }

  /** 0 for sums, 1 for products, 2 for signs and powers, 3 for the rest. */
  function Level(a: Tree): (n: nat)
  {
    match a
    case Bin(op, _, _) => if op == Add || op == Sub then 0 else if op == Pow then 2 else 1
    case Signed(_, _) => 2
    case _ => 3
  }

  // Brackets are added only where the operand binds looser than its place needs.

  function ShowExpr(a: Tree): (t: Expr)
    decreases a, Level(a), 0
  {
    if Level(a) == 0 then EBin(ShowExpr(a.l), "", a.op == Add, ShowTerm(a.r)) else ETerm(ShowTerm(a))
  }

  function ShowTerm(a: Tree): (t: Term)
    decreases a, if Level(a) == 0 then 3 else Level(a) - 1, 1
  {
    if Level(a) == 1 then
      TBin(ShowTerm(a.l), "", if a.op == Mul then '*' else if a.op == Div then '/' else '%', ShowFactor(a.r))
    else TFactor(ShowFactor(a))
  }

  function ShowFactor(a: Tree): (t: Factor)
    decreases a, if Level(a) <= 1 then Level(a) + 2 else Level(a) - 2, 0
  {
    match a
    case Signed(minus, x) => FSign("", minus, ShowFactor(x))
    case Bin(Pow, l, r) => FPower(PPow(ShowPrimary(l), "", ShowFactor(r)))
    case _ => FPower(PBase(ShowPrimary(a)))
  }

  function ShowPrimary(a: Tree): (t: Primary)
    decreases a, if Level(a) == 3 then 0 else Level(a) + 1, 0
  {
    match a
    case Lit(lex) => Num("", lex)
    case Const(id) => Name("", id)
    case Call(id, args) => FunCall("", id, "", ShowArgs(args), "")
    case _ => Paren("", ShowExpr(a), "")
  }

  function ShowArgs(args: seq<Tree>): (t: Args)
    decreases args, 1, 1
  {
    if args == [] then NoArgs
    else if |args| == 1 then OneArg(ShowExpr(args[0]))
    else MoreArgs(ShowArgs(args[..|args| - 1]), "", ShowExpr(args[|args| - 1]))
  }

  lemma {:induction false} ShowExprIs(o: Ops, a: Tree)
    requires TreeOk(a)
    ensures ExprOk(ShowExpr(a)) && ExprValue(o, ShowExpr(a)) == TreeValue(o, a)
    decreases a, Level(a), 0
  {
    if Level(a) == 0 {
      ShowExprIs(o, a.l);
      ShowTermIs(o, a.r);
    } else {
      ShowTermIs(o, a);
    }
  }

  lemma {:induction false} ShowTermIs(o: Ops, a: Tree)
    requires TreeOk(a)
    ensures TermOk(ShowTerm(a)) && TermValue(o, ShowTerm(a)) == TreeValue(o, a)
    decreases a, if Level(a) == 0 then 3 else Level(a) - 1, 1
  {
    if Level(a) == 1 {
      ShowTermIs(o, a.l);
      ShowFactorIs(o, a.r);
    } else {
      ShowFactorIs(o, a);
    }
  }

  lemma {:induction false} ShowFactorIs(o: Ops, a: Tree)
    requires TreeOk(a)
    ensures FactorOk(ShowFactor(a)) && FactorValue(o, ShowFactor(a)) == TreeValue(o, a)
    decreases a, if Level(a) <= 1 then Level(a) + 2 else Level(a) - 2, 0
  {
    match a
    case Signed(_, x) => ShowFactorIs(o, x);
    case Bin(Pow, l, r) =>
      ShowPrimaryIs(o, l);
      ShowFactorIs(o, r);
    case _ => ShowPrimaryIs(o, a);
  }

  lemma {:induction false} ShowPrimaryIs(o: Ops, a: Tree)
    requires TreeOk(a)
    ensures PrimaryOk(ShowPrimary(a)) && PrimaryValue(o, ShowPrimary(a)) == TreeValue(o, a)
    decreases a, if Level(a) == 3 then 0 else Level(a) + 1, 0
  {
    match a
    case Lit(_) =>
    case Const(_) =>
    case Call(_, args) => ShowArgsIs(o, args);
    case _ => ShowExprIs(o, a);
  }

  lemma {:induction false} ShowArgsIs(o: Ops, args: seq<Tree>)
    requires forall i | 0 <= i < |args| :: TreeOk(args[i])
    ensures ArgsOk(ShowArgs(args)) && ArgsValue(o, ShowArgs(args)) == TreeValues(o, args)
    ensures ShowArgs(args) == NoArgs <==> args == []
    decreases args, 1, 1
  {
    if |args| == 1 {
      ShowExprIs(o, args[0]);
      assert TreeValues(o, args[..0]) == Good([]);
    } else if |args| > 1 {
      ShowArgsIs(o, args[..|args| - 1]);
      ShowExprIs(o, args[|args| - 1]);
    }
  }

  /** Printing any expression with the brackets it needs and evaluating the text gives the
      expression's value, or its first error. */
  lemma PrintedEvaluates(o: Ops, a: Tree)
    requires TreeOk(a)
    ensures EvalExpr(o, ExprText(ShowExpr(a))) == TreeValue(o, a)
  {
    hide *;
    ShowExprIs(o, a);
    DerivesItself(ShowExpr(a));
    DerivableEvaluates(o, ShowExpr(a), ExprText(ShowExpr(a)));
  }

  lemma DerivesItself(t: Expr)
    requires ExprOk(t)
    ensures Derives(t, ExprText(t))
  {
  }
}
