/** The stated grammar as derivation trees, and the parser's agreement with it in both
    directions: what it accepts is derivable with that value, and what is derivable is
    accepted with its value, or rejected when it has none. */
module CalcGrammar {
  import opened Text
  import opened CalcEval

  // ---- Derivation trees, one constructor per production -----------------------------------
  // A `ws` field is the white space before the token it precedes.

  datatype Expr =
    | ETerm(t: Term)
    | EBin(l: Expr, ws: string, plus: bool, r: Term)

  datatype Term =
    | TFactor(f: Factor)
    | TBin(l: Term, ws: string, op: char, r: Factor)

  datatype Factor =
    | FSign(ws: string, minus: bool, f: Factor)
    | FPower(p: Power)

  datatype Power =
    | PBase(b: Primary)
    | PPow(b: Primary, ws: string, e: Factor)

  datatype Primary =
    | Num(ws: string, lex: string)
    | Paren(ws: string, e: Expr, ws2: string)
    | Name(ws: string, id: string)
    | FunCall(ws: string, id: string, ws1: string, args: Args, ws2: string)

  datatype Args =
    | NoArgs
    | OneArg(e: Expr)
    | MoreArgs(a: Args, ws: string, e: Expr)

  // ---- Text -----------------------------------------------------------------------------

  function ExprText(t: Expr): (s: string)
  {
    match t
    case ETerm(u) => TermText(u)
    case EBin(l, ws, plus, r) => ExprText(l) + (ws + [if plus then '+' else '-'] + TermText(r))
  }

  function TermText(t: Term): (s: string)
  {
    match t
    case TFactor(f) => FactorText(f)
    case TBin(l, ws, op, r) => TermText(l) + (ws + [op] + FactorText(r))
  }

  function FactorText(t: Factor): (s: string)
  {
    match t
    case FSign(ws, minus, f) => ws + [if minus then '-' else '+'] + FactorText(f)
    case FPower(p) => PowerText(p)
  }

  function PowerText(t: Power): (s: string)
  {
    match t
    case PBase(b) => PrimaryText(b)
    case PPow(b, ws, e) => PrimaryText(b) + (ws + "**" + FactorText(e))
  }

  function PrimaryText(t: Primary): (s: string)
  {
    match t
    case Num(ws, lex) => ws + lex
    case Paren(ws, e, ws2) => ws + "(" + (ExprText(e) + (ws2 + ")"))
    case Name(ws, id) => ws + id
    case FunCall(ws, id, ws1, args, ws2) => ws + id + (ws1 + "(" + (ArgsText(args) + (ws2 + ")")))
  }

  function ArgsText(t: Args): (s: string)
  {
    match t
    case NoArgs => ""
    case OneArg(e) => ExprText(e)
    case MoreArgs(a, ws, e) => ArgsText(a) + (ws + "," + ExprText(e))
  }

  // ---- Well-formedness ---------------------------------------------------------------------

  predicate Blank(ws: string)
  {
    forall i | 0 <= i < |ws| :: IsSpace(ws[i])
  }

  /** A text the scanner takes for a number. */
  predicate IsRun(lex: string)
  {
    && lex != "" && (IsDigit(lex[0]) || lex[0] == '.')
    && (forall i | 0 <= i < |lex| :: InNumber(lex, 0, i))
  }

  /** A number lexeme: the longest run the scanner takes, not cut short by a sign. */
  predicate IsLexeme(lex: string)
  {
    IsRun(lex) && !IsExpMark(lex[|lex| - 1])
  }

  predicate IsName(id: string)
  {
    && id != "" && !IsDigit(id[0])
    && forall i | 0 <= i < |id| :: IsIdent(id[i])
  }

  predicate ExprOk(t: Expr)
  {
    match t
    case ETerm(u) => TermOk(u)
    case EBin(l, ws, _, r) => ExprOk(l) && Blank(ws) && TermOk(r)
  }

  predicate TermOk(t: Term)
  {
    match t
    case TFactor(f) => FactorOk(f)
    case TBin(l, ws, op, r) => TermOk(l) && Blank(ws) && (op == '*' || op == '/' || op == '%') && FactorOk(r)
  }

  predicate FactorOk(t: Factor)
  {
    match t
    case FSign(ws, _, f) => Blank(ws) && FactorOk(f)
    case FPower(p) => PowerOk(p)
  }

  predicate PowerOk(t: Power)
  {
    match t
    case PBase(b) => PrimaryOk(b)
    case PPow(b, ws, e) => PrimaryOk(b) && Blank(ws) && FactorOk(e)
  }

  predicate PrimaryOk(t: Primary)
  {
    match t
    case Num(ws, lex) => Blank(ws) && IsLexeme(lex)
    case Paren(ws, e, ws2) => Blank(ws) && ExprOk(e) && Blank(ws2)
    case Name(ws, id) => Blank(ws) && IsName(id)
    case FunCall(ws, id, ws1, args, ws2) =>
      Blank(ws) && IsName(id) && Blank(ws1) && ArgsOk(args) && Blank(ws2)
  }

  predicate ArgsOk(t: Args)
  {
    match t
    case NoArgs => true
    case OneArg(e) => ExprOk(e)
    case MoreArgs(a, ws, e) => a != NoArgs && ArgsOk(a) && Blank(ws) && ExprOk(e)
  }

  // ---- Values: left to right, the first error stops -------------------------------------------

  function ExprValue(o: Ops, t: Expr): (r: Calc)
  {
    match t
    case ETerm(u) => TermValue(o, u)
    case EBin(l, _, plus, r) =>
      var x := ExprValue(o, l);
      if x.Fail? then x
      else
        var y := TermValue(o, r);
        if y.Fail? then y else Val(Sums(plus, x.v, y.v))
  }

  function TermValue(o: Ops, t: Term): (r: Calc)
  {
    match t
    case TFactor(f) => FactorValue(o, f)
    case TBin(l, _, op, r) =>
      var x := TermValue(o, l);
      if x.Fail? then x
      else
        var y := FactorValue(o, r);
        if y.Fail? then y else Times(o, op, x.v, y.v)
  }

  function FactorValue(o: Ops, t: Factor): (r: Calc)
  {
    match t
    case FSign(_, minus, f) =>
      var x := FactorValue(o, f);
      if x.Fail? || !minus then x else Val(-x.v)
    case FPower(p) => PowerValue(o, p)
  }

  function PowerValue(o: Ops, t: Power): (r: Calc)
  {
    match t
    case PBase(b) => PrimaryValue(o, b)
    case PPow(b, _, e) =>
      var x := PrimaryValue(o, b);
      if x.Fail? then x
      else
        var y := FactorValue(o, e);
        if y.Fail? then y else Val(o.pow(x.v, y.v))
  }

  function PrimaryValue(o: Ops, t: Primary): (r: Calc)
  {
    match t
    case Num(_, lex) => NumberOf(o, lex)
    case Paren(_, e, _) => ExprValue(o, e)
    case Name(_, id) => Constant(id)
    case FunCall(_, id, _, args, _) =>
      match ArgsValue(o, args)
      case Bad(m) => Fail(m)
      case Good(a) => Apply(o, id, a)
  }

  datatype Vals = Good(a: seq<real>) | Bad(msg: string)

  function ArgsValue(o: Ops, t: Args): (r: Vals)
  {
    match t
    case NoArgs => Good([])
    case OneArg(e) =>
      (match ExprValue(o, e) case Fail(m) => Bad(m) case Val(v) => Good([v]))
    case MoreArgs(a, _, e) =>
      match ArgsValue(o, a)
      case Bad(m) => Bad(m)
      case Good(vs) => (match ExprValue(o, e) case Fail(m) => Bad(m) case Val(v) => Good(vs + [v]))
  }

  // ---- What the parser accepts is derivable ---------------------------------------------------

  /** Of the runs of digits, points, exponent marks and their signs that the scanner passes to `stod`,
      it uses up none that ends in an exponent mark: a decimal exponent needs a digit. */
  ghost predicate CStod(o: Ops)
  {
    forall lex | IsRun(lex) && IsExpMark(lex[|lex| - 1]) :: NumberOf(o, lex).Fail?
  }

  lemma Cut(s: string, i: nat, j: nat, k: nat)
    requires i <= j <= k <= |s|
    ensures s[i..k] == s[i..j] + s[j..k]
  {
  }

  lemma AtChars(s: string, k: nat)
    ensures forall c | At(s, k, c) :: k < |s| && s[k] == c
  {
  }

  /** Left operand, white space, operator, right operand. */
  lemma BinText(s: string, i: nat, j: nat, k: nat, m: nat)
    requires i <= j <= k < m <= |s|
    ensures s[i..m] == s[i..j] + (s[j..k] + [s[k]] + s[k + 1..m])
  {
  }

  lemma SkipBlank(s: string, i: nat)
    requires i <= |s|
    ensures Blank(s[i..Skip(s, i)])
  {
  }

  /** A token of length `n` after white space: the text from `i` through it. */
  lemma TokenText(s: string, i: nat, n: nat) returns (ws: string)
    requires i <= |s| && Skip(s, i) + n <= |s|
    ensures Blank(ws) && ws == s[i..Skip(s, i)]
    ensures s[i..Skip(s, i) + n] == ws + s[Skip(s, i)..Skip(s, i) + n]
  {
    ws := s[i..Skip(s, i)];
    SkipBlank(s, i);
  }

  lemma {:induction false} SoundExpr(o: Ops, s: string, i: nat) returns (t: Expr)
    requires CStod(o) && i <= |s| && PExpr(o, s, i).Ok?
    ensures var r := PExpr(o, s, i); ExprOk(t) && ExprText(t) == s[i..r.i] && ExprValue(o, t) == Val(r.v)
    decreases |s| - i, 6
  {
    hide CStod, PTerm, ExprLoop;
    var u := SoundTerm(o, s, i);
    var r := PTerm(o, s, i);
    t := SoundExprLoop(o, s, i, r.i, r.v, ETerm(u));
  }

  lemma {:induction false} SoundExprLoop(o: Ops, s: string, i: nat, j: nat, v: real, l: Expr) returns (t: Expr)
    requires CStod(o) && i < j <= |s| && ExprLoop(o, s, j, v).Ok?
    requires ExprOk(l) && ExprText(l) == s[i..j] && ExprValue(o, l) == Val(v)
    ensures var r := ExprLoop(o, s, j, v); ExprOk(t) && ExprText(t) == s[i..r.i] && ExprValue(o, t) == Val(r.v)
    decreases |s| - j, 4
  {
    hide *;
    var k := Skip(s, j);
    AtChars(s, k);
    ExprTurn(o, s, j, v);
    if At(s, k, '+') || At(s, k, '-') {
      var ws := TokenText(s, j, 1);
      var u := SoundTerm(o, s, k + 1);
      var r := PTerm(o, s, k + 1);
      var next := NextExpr(o, s, i, j, k, r.i, l, ws, u);
      t := SoundExprLoop(o, s, i, r.i, Sums(s[k] == '+', v, r.v), next);
    } else {
      t := l;
    }
  }

  /** One more operand of a sum. */
  lemma NextExpr(o: Ops, s: string, i: nat, j: nat, k: nat, m: nat, l: Expr, ws: string, u: Term)
    returns (next: Expr)
    requires i < j <= k < m <= |s| && (s[k] == '+' || s[k] == '-')
    requires ExprOk(l) && ExprText(l) == s[i..j] && ExprValue(o, l).Val?
    requires Blank(ws) && ws == s[j..k]
    requires TermOk(u) && TermText(u) == s[k + 1..m] && TermValue(o, u).Val?
    ensures ExprOk(next) && ExprText(next) == s[i..m]
    ensures ExprValue(o, next) == Val(Sums(s[k] == '+', ExprValue(o, l).v, TermValue(o, u).v))
  {
    next := EBin(l, ws, s[k] == '+', u);
    BinText(s, i, j, k, m);
  }

  lemma {:induction false} SoundTerm(o: Ops, s: string, i: nat) returns (t: Term)
    requires CStod(o) && i <= |s| && PTerm(o, s, i).Ok?
    ensures var r := PTerm(o, s, i); TermOk(t) && TermText(t) == s[i..r.i] && TermValue(o, t) == Val(r.v)
    decreases |s| - i, 5
  {
    hide CStod, PFactor, TermLoop;
    var u := SoundFactor(o, s, i);
    var r := PFactor(o, s, i);
    t := SoundTermLoop(o, s, i, r.i, r.v, TFactor(u));
  }

  lemma {:induction false} SoundTermLoop(o: Ops, s: string, i: nat, j: nat, v: real, l: Term) returns (t: Term)
    requires CStod(o) && i < j <= |s| && TermLoop(o, s, j, v).Ok?
    requires TermOk(l) && TermText(l) == s[i..j] && TermValue(o, l) == Val(v)
    ensures var r := TermLoop(o, s, j, v); TermOk(t) && TermText(t) == s[i..r.i] && TermValue(o, t) == Val(r.v)
    decreases |s| - j, 3
  {
    hide *;
    var k := Skip(s, j);
    AtChars(s, k);
    TermTurn(o, s, j, v);
    if !PowerAt(s, k) && (At(s, k, '*') || At(s, k, '/') || At(s, k, '%')) {
      var ws := TokenText(s, j, 1);
      var u := SoundFactor(o, s, k + 1);
      var r := PFactor(o, s, k + 1);
      var next := NextTerm(o, s, i, j, k, r.i, l, ws, u);
      t := SoundTermLoop(o, s, i, r.i, Times(o, s[k], v, r.v).v, next);
    } else {
      t := l;
    }
  }

  /** One more operand of a product. */
  lemma NextTerm(o: Ops, s: string, i: nat, j: nat, k: nat, m: nat, l: Term, ws: string, u: Factor)
    returns (next: Term)
    requires i < j <= k < m <= |s| && (s[k] == '*' || s[k] == '/' || s[k] == '%')
    requires TermOk(l) && TermText(l) == s[i..j] && TermValue(o, l).Val?
    requires Blank(ws) && ws == s[j..k]
    requires FactorOk(u) && FactorText(u) == s[k + 1..m] && FactorValue(o, u).Val?
    ensures TermOk(next) && TermText(next) == s[i..m]
    ensures TermValue(o, next) == Times(o, s[k], TermValue(o, l).v, FactorValue(o, u).v)
  {
    next := TBin(l, ws, s[k], u);
    BinText(s, i, j, k, m);
  }

  lemma {:induction false} SoundFactor(o: Ops, s: string, i: nat) returns (t: Factor)
    requires CStod(o) && i <= |s| && PFactor(o, s, i).Ok?
    ensures var r := PFactor(o, s, i); FactorOk(t) && FactorText(t) == s[i..r.i] && FactorValue(o, t) == Val(r.v)
    decreases |s| - i, 4
  {
    hide CStod, PPower, Skip;
    var k := Skip(s, i);
    if At(s, k, '-') || At(s, k, '+') {
      var ws := TokenText(s, i, 1);
      var f := SoundFactor(o, s, k + 1);
      var r := PFactor(o, s, k + 1);
      t := FSign(ws, s[k] == '-', f);
      Cut(s, i, k + 1, r.i);
      assert s[k..k + 1] == [if s[k] == '-' then '-' else '+'];
    } else {
      var ws := TokenText(s, i, 0);
      var p := SoundPower(o, s, k);
      var q := Indent(p, ws, o);
      var r := PPower(o, s, k);
      Cut(s, i, k, r.i);
      t := FPower(q);
    }
  }

  /** White space in front of a power belongs to its first token. */
  lemma Indent(p: Power, ws: string, o: Ops) returns (q: Power)
    requires PowerOk(p) && Blank(ws)
    ensures PowerOk(q) && PowerText(q) == ws + PowerText(p) && PowerValue(o, q) == PowerValue(o, p)
  {
    var c := IndentPrimary(p.b, ws, o);
    q := if p.PBase? then PBase(c) else PPow(c, p.ws, p.e);
  }

  lemma IndentPrimary(b: Primary, ws: string, o: Ops) returns (c: Primary)
    requires PrimaryOk(b) && Blank(ws)
    ensures PrimaryOk(c) && PrimaryText(c) == ws + PrimaryText(b) && PrimaryValue(o, c) == PrimaryValue(o, b)
  {
    hide IsLexeme, IsName, ExprOk, ExprText, ExprValue, ArgsOk, ArgsText, ArgsValue, NumberOf, Apply, Constant;
    match b
    case Num(w, lex) => c := Num(ws + w, lex);
    case Paren(w, e, w2) => c := Paren(ws + w, e, w2);
    case Name(w, id) => c := Name(ws + w, id);
    case FunCall(w, id, w1, a, w2) => c := FunCall(ws + w, id, w1, a, w2);
  }

  lemma {:induction false} SoundPower(o: Ops, s: string, i: nat) returns (t: Power)
    requires CStod(o) && i <= |s| && PPower(o, s, i).Ok?
    ensures var r := PPower(o, s, i); PowerOk(t) && PowerText(t) == s[i..r.i] && PowerValue(o, t) == Val(r.v)
    decreases |s| - i, 3
  {
    hide CStod, PPrimary, PFactor, Skip;
    var b := SoundPrimary(o, s, i);
    var j := PPrimary(o, s, i).i;
    var k := Skip(s, j);
    if PowerAt(s, k) {
      var ws := TokenText(s, j, 2);
      var e := SoundFactor(o, s, k + 2);
      var r := PFactor(o, s, k + 2);
      t := PPow(b, ws, e);
      Cut(s, i, j, r.i);
      Cut(s, j, k + 2, r.i);
      assert s[k..k + 2] == "**";
    } else {
      t := PBase(b);
    }
  }

  lemma {:induction false} SoundPrimary(o: Ops, s: string, i: nat) returns (t: Primary)
    requires CStod(o) && i <= |s| && PPrimary(o, s, i).Ok?
    ensures var r := PPrimary(o, s, i); PrimaryOk(t) && PrimaryText(t) == s[i..r.i] && PrimaryValue(o, t) == Val(r.v)
    decreases |s| - i, 2
  {
    hide CStod, PExpr, PIdent, Skip, NumberEnd;
    var k := Skip(s, i);
    if At(s, k, '(') {
      t := SoundParen(o, s, i);
    } else {
      var ws := TokenText(s, i, 0);
      if IsAlpha(s[k]) || s[k] == '_' {
        t := SoundIdent(o, s, k, ws);
        Cut(s, i, k, PIdent(o, s, k).i);
      } else {
        var e := NumberEnd(s, k, k);
        t := Num(ws, s[k..e]);
        SoundNumber(o, s, k);
        Cut(s, i, k, e);
      }
    }
  }

  lemma {:induction false} SoundParen(o: Ops, s: string, i: nat) returns (t: Primary)
    requires CStod(o) && i <= |s| && At(s, Skip(s, i), '(') && PPrimary(o, s, i).Ok?
    ensures var r := PPrimary(o, s, i); PrimaryOk(t) && PrimaryText(t) == s[i..r.i] && PrimaryValue(o, t) == Val(r.v)
    decreases |s| - i, 0
  {
    hide CStod, PExpr, PIdent, Skip, NumberEnd;
    var k := Skip(s, i);
    var e := SoundExpr(o, s, k + 1);
    var j := PExpr(o, s, k + 1).i;
    var ws := TokenText(s, i, 0);
    var ws2 := TokenText(s, j, 1);
    t := Paren(ws, e, ws2);
    ParenText(s, i, k, j, Skip(s, j));
  }

  lemma ParenText(s: string, i: nat, k: nat, j: nat, m: nat)
    requires i <= k < j <= m < |s| && s[k] == '(' && s[m] == ')'
    ensures s[i..m + 1] == s[i..k] + "(" + (s[k + 1..j] + (s[j..m] + ")"))
  {
    BinText(s, i, i, k, m + 1);
    Cut(s, k + 1, j, m + 1);
    Cut(s, j, m, m + 1);
  }

  lemma SoundNumber(o: Ops, s: string, k: nat)
    requires CStod(o) && k < |s| && (IsDigit(s[k]) || s[k] == '.')
    requires NumberOf(o, s[k..NumberEnd(s, k, k)]).Val?
    ensures IsLexeme(s[k..NumberEnd(s, k, k)])
  {
    var e := NumberEnd(s, k, k);
    var lex := s[k..e];
    assert InNumber(s, k, k);
    forall i | 0 <= i < |lex| ensures InNumber(lex, 0, i) {
      assert InNumber(s, k, k + i);
    }
  }

  lemma {:induction false} SoundIdent(o: Ops, s: string, k: nat, ws: string) returns (t: Primary)
    requires CStod(o) && k < |s| && (IsAlpha(s[k]) || s[k] == '_') && PIdent(o, s, k).Ok? && Blank(ws)
    ensures var r := PIdent(o, s, k);
            PrimaryOk(t) && PrimaryText(t) == ws + s[k..r.i] && PrimaryValue(o, t) == Val(r.v)
    decreases |s| - k, 1
  {
    hide CStod, PArgs, Skip, IdentEnd, Apply, Constant, IsName, ArgsOk, ArgsText, ArgsValue;
    var e := IdentEnd(s, k);
    NameAt(s, k);
    if At(s, Skip(s, e), '(') {
      t := SoundCall(o, s, k, ws);
    } else {
      t := Name(ws, s[k..e]);
    }
  }

  lemma {:induction false} SoundCall(o: Ops, s: string, k: nat, ws: string) returns (t: Primary)
    requires CStod(o) && k < |s| && (IsAlpha(s[k]) || s[k] == '_') && PIdent(o, s, k).Ok? && Blank(ws)
    requires At(s, Skip(s, IdentEnd(s, k)), '(') && IsName(s[k..IdentEnd(s, k)])
    ensures var r := PIdent(o, s, k);
            PrimaryOk(t) && PrimaryText(t) == ws + s[k..r.i] && PrimaryValue(o, t) == Val(r.v)
    decreases |s| - k, 0
  {
    hide CStod, PArgs, Skip, IdentEnd, Apply, Constant, IsName, ArgsOk, ArgsText, ArgsValue;
    var e := IdentEnd(s, k);
    var p := Skip(s, e);
    var a := SoundArgs(o, s, p + 1);
    var j := PArgs(o, s, p + 1).i;
    var ws1 := TokenText(s, e, 1);
    var ws2 := TokenText(s, j, 1);
    t := FunCall(ws, s[k..e], ws1, a, ws2);
    FunCallText(s, k, e, p, j, Skip(s, j), ws, a);
  }

  lemma FunCallText(s: string, k: nat, e: nat, p: nat, j: nat, m: nat, ws: string, a: Args)
    requires k <= e <= p && p + 1 <= j <= m < |s| && s[p] == '(' && s[m] == ')'
    requires ArgsText(a) == s[p + 1..j]
    ensures PrimaryText(FunCall(ws, s[k..e], s[e..p], a, s[j..m])) == ws + s[k..m + 1]
  {
    hide ArgsText;
    CallText(s, k, e, p, j, m + 1);
  }

  lemma NameAt(s: string, k: nat)
    requires k < |s| && (IsAlpha(s[k]) || s[k] == '_')
    ensures IdentEnd(s, k) > k && IsName(s[k..IdentEnd(s, k)])
  {
  }

  lemma CallText(s: string, k: nat, e: nat, p: nat, j: nat, m: nat)
    requires k <= e <= p < j + 1 && p + 1 <= j < m <= |s| && s[p] == '(' && s[m - 1] == ')'
    ensures s[k..m] == s[k..e] + (s[e..p] + "(" + (s[p + 1..j] + (s[j..m - 1] + ")")))
  {
    Cut(s, k, e, m);
    BinText(s, e, e, p, m);
    Cut(s, p + 1, j, m);
    Cut(s, j, m - 1, m);
  }

  lemma {:induction false} SoundArgs(o: Ops, s: string, i: nat) returns (t: Args)
    requires CStod(o) && i <= |s| && PArgs(o, s, i).Ok?
    ensures var r := PArgs(o, s, i); ArgsOk(t) && ArgsText(t) == s[i..r.i] && ArgsValue(o, t) == Good(r.v)
    decreases |s| - i, 7
  {
    hide CStod, PExpr, ArgsLoop, Skip;
    var k := Skip(s, i);
    if At(s, k, ')') {
      t := NoArgs;
    } else {
      var ws := TokenText(s, i, 0);
      var e := SoundExpr(o, s, k);
      var r := PExpr(o, s, k);
      var e2 := IndentExpr(e, ws, o);
      Cut(s, i, k, r.i);
      t := SoundArgsLoop(o, s, i, r.i, [r.v], OneArg(e2));
    }
  }

  lemma {:induction false} IndentExpr(e: Expr, ws: string, o: Ops) returns (q: Expr)
    requires ExprOk(e) && Blank(ws)
    ensures ExprOk(q) && ExprText(q) == ws + ExprText(e) && ExprValue(o, q) == ExprValue(o, e)
  {
    match e
    case ETerm(t) =>
      var u := IndentTerm(t, ws, o);
      q := ETerm(u);
    case EBin(l, w, plus, r) =>
      var u := IndentExpr(l, ws, o);
      q := EBin(u, w, plus, r);
  }

  lemma {:induction false} IndentTerm(e: Term, ws: string, o: Ops) returns (q: Term)
    requires TermOk(e) && Blank(ws)
    ensures TermOk(q) && TermText(q) == ws + TermText(e) && TermValue(o, q) == TermValue(o, e)
  {
    match e
    case TFactor(f) =>
      match f {
        case FSign(w, minus, g) => q := TFactor(FSign(ws + w, minus, g));
        case FPower(p) =>
          var u := Indent(p, ws, o);
          q := TFactor(FPower(u));
      }
    case TBin(l, w, op, r) =>
      var u := IndentTerm(l, ws, o);
      q := TBin(u, w, op, r);
  }

  lemma {:induction false} SoundArgsLoop(o: Ops, s: string, i: nat, j: nat, vs: seq<real>, l: Args) returns (t: Args)
    requires CStod(o) && i < j <= |s| && ArgsLoop(o, s, j, vs).Ok?
    requires l != NoArgs && ArgsOk(l) && ArgsText(l) == s[i..j] && ArgsValue(o, l) == Good(vs)
    ensures var r := ArgsLoop(o, s, j, vs); ArgsOk(t) && ArgsText(t) == s[i..r.i] && ArgsValue(o, t) == Good(r.v)
    decreases |s| - j, 7
  {
    hide CStod, PExpr, Skip;
    var k := Skip(s, j);
    if At(s, k, ',') {
      var ws := TokenText(s, j, 1);
      var e := SoundExpr(o, s, k + 1);
      var r := PExpr(o, s, k + 1);
      var next := MoreArgs(l, ws, e);
      assert ArgsText(next) == s[i..r.i] by {
        Cut(s, i, j, r.i);
        Cut(s, j, k + 1, r.i);
        assert s[k..k + 1] == ",";
      }
      t := SoundArgsLoop(o, s, i, r.i, vs + [r.v], next);
    } else {
      t := l;
    }
  }
}
