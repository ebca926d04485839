/** The `icmg calc` evaluator: a cursor over the expression text and a sticky error.
    Numbers are reals; `strtod`, `pow`, `fmod` and the transcendental functions are parameters. */
module CalcEval {
  import opened Text
  import opened Wrappers

  /** What the C library provides. `stod` gives the value and how many characters it used. */
  datatype Ops = Ops(
    stod: string -> Option<(real, nat)>,
    pow: (real, real) -> real,
    fmod: (real, real) -> real,
    sqrt: real -> real, log10: real -> real, ln: real -> real, exp: real -> real,
    sin: real -> real, cos: real -> real, tan: real -> real)

  const PI := 3.14159265358979323846
  const E := 2.71828182845904523536

  predicate IsAlpha(c: char) { 'a' <= c <= 'z' || 'A' <= c <= 'Z' }
  predicate IsIdent(c: char) { IsAlpha(c) || IsDigit(c) || c == '_' }

  // ---- Scanning -----------------------------------------------------------------------

  /** The cursor after white space. */
  function Skip(s: string, i: nat): (k: nat)
    requires i <= |s|
    ensures i <= k <= |s|
    ensures k < |s| ==> !IsSpace(s[k])
    ensures forall j | i <= j < k :: IsSpace(s[j])
    decreases |s| - i
  {
    if i < |s| && IsSpace(s[i]) then Skip(s, i + 1) else i
  }

  function Peek(s: string, i: nat): (c: char)
    requires i <= |s|
  {
    if Skip(s, i) < |s| then s[Skip(s, i)] else '\0'
  }

  predicate IsExpMark(c: char) { c == 'e' || c == 'E' }

  /** The character at `i` continues a number that starts at `start`. */
  predicate InNumber(s: string, start: nat, i: nat)
    requires start <= i < |s|
  {
    IsDigit(s[i]) || s[i] == '.' || IsExpMark(s[i])
    || ((s[i] == '+' || s[i] == '-') && i > start && IsExpMark(s[i - 1]))
  }

  function NumberEnd(s: string, start: nat, i: nat): (e: nat)
    requires start <= i <= |s|
    ensures i <= e <= |s|
    ensures forall j | i <= j < e :: InNumber(s, start, j)
    ensures e < |s| ==> !InNumber(s, start, e)
    decreases |s| - i
  {
    if i < |s| && InNumber(s, start, i) then NumberEnd(s, start, i + 1) else i
  }

  function IdentEnd(s: string, i: nat): (e: nat)
    requires i <= |s|
    ensures i <= e <= |s|
    ensures forall j | i <= j < e :: IsIdent(s[j])
    ensures e < |s| ==> !IsIdent(s[e])
    decreases |s| - i
  {
    if i < |s| && IsIdent(s[i]) then IdentEnd(s, i + 1) else i
  }

  // ---- Values ---------------------------------------------------------------------------

  datatype Calc = Val(v: real) | Fail(msg: string)

  /** The least element, as the loop over the arguments leaves it. */
  function Minimum(a: seq<real>): (m: real)
    requires a != []
    ensures m in a && forall x | x in a :: m <= x
  {
    var n := |a| - 1;
    if n == 0 then a[0]
    else
      assert forall x | x in a :: x in a[..n] || x == a[n];
      var m := Minimum(a[..n]);
      if a[n] < m then a[n] else m
  }

  function Maximum(a: seq<real>): (m: real)
    requires a != []
    ensures m in a && forall x | x in a :: x <= m
  {
    var n := |a| - 1;
    if n == 0 then a[0]
    else
      assert forall x | x in a :: x in a[..n] || x == a[n];
      var m := Maximum(a[..n]);
      if a[n] > m then a[n] else m
  }

  function Sum(a: seq<real>): (r: real)
  {
    if a == [] then 0.0 else Sum(a[..|a| - 1]) + a[|a| - 1]
  }

  function Abs(x: real): (r: real)
    ensures r >= 0.0 && (r == x || r == -x)
  {
    if x < 0.0 then -x else x
  }

  function Ceil(x: real): (r: real)
    ensures x <= r < x + 1.0
  {
    -((-x).Floor as real)
  }

  /** Half away from zero. */
  function Round(x: real): (r: real)
    ensures Abs(r - x) <= 0.5
  {
    if x < 0.0 then -((-x + 0.5).Floor as real) else (x + 0.5).Floor as real
  }

  const ONE_ARG: seq<string> :=
    ["sqrt", "abs", "floor", "ceil", "round", "log", "ln", "exp", "sin", "cos", "tan"]
  const VARIADIC: seq<string> := ["min", "max", "sum", "avg"]

  /** A call of function `id` with the values `a`. */
  function Apply(o: Ops, id: string, a: seq<real>): (r: Calc)
    ensures id !in ONE_ARG && id !in VARIADIC ==> r.Fail?
    ensures id in ONE_ARG && |a| != 1 ==> r.Fail?
    ensures id in VARIADIC ==> (r.Fail? <==> a == [])
  {
    if id in ONE_ARG then
      if |a| != 1 then Fail(id + "() expects 1 arg(s)")
      else if id == "sqrt" then if a[0] < 0.0 then Fail("sqrt of negative") else Val(o.sqrt(a[0]))
      else if id == "abs" then Val(Abs(a[0]))
      else if id == "floor" then Val(a[0].Floor as real)
      else if id == "ceil" then Val(Ceil(a[0]))
      else if id == "round" then Val(Round(a[0]))
      else if id == "log" then if a[0] <= 0.0 then Fail("log domain") else Val(o.log10(a[0]))
      else if id == "ln" then if a[0] <= 0.0 then Fail("ln domain") else Val(o.ln(a[0]))
      else if id == "exp" then Val(o.exp(a[0]))
      else if id == "sin" then Val(o.sin(a[0]))
      else if id == "cos" then Val(o.cos(a[0]))
      else Val(o.tan(a[0]))
    else if id in VARIADIC then
      if a == [] then Fail(id + "() needs >=1 arg")
      else if id == "min" then Val(Minimum(a))
      else if id == "max" then Val(Maximum(a))
      else if id == "sum" then Val(Sum(a))
      else Val(Sum(a) / (|a| as real))
    else Fail("unknown function '" + id + "'")
  }

  function Constant(id: string): (r: Calc)
  {
    if id == "pi" then Val(PI) else if id == "e" then Val(E) else Fail("unknown name '" + id + "'")
  }

  function NumberOf(o: Ops, tok: string): (r: Calc)
  {
    match o.stod(tok)
    case None => Fail("invalid number")
    case Some(p) => if p.1 != |tok| then Fail("invalid number '" + tok + "'") else Val(p.0)
  }

  function Sums(plus: bool, x: real, y: real): (r: real)
  {
    if plus then x + y else x - y
  }

  /** One step of the `*`, `/`, `%` loop. */
  function Times(o: Ops, op: char, x: real, y: real): (r: Calc)
  {
    if op == '*' then Val(x * y)
    else if op == '/' then if y == 0.0 then Fail("division by zero") else Val(x / y)
    else if y == 0.0 then Fail("modulo by zero") else Val(o.fmod(x, y))
  }

  // ---- The parser as functions --------------------------------------------------------------

  /** A value and the cursor behind its last character, or the first error. */
  datatype Parsed<+T> = Ok(v: T, i: nat) | Err(msg: string)

  predicate At(s: string, k: nat, c: char)
  {
    k < |s| && s[k] == c
  }

  predicate PowerAt(s: string, k: nat)
  {
    At(s, k, '*') && At(s, k + 1, '*')
  }

  function PExpr(o: Ops, s: string, i: nat): (r: Parsed<real>)
    requires i <= |s|
    ensures r.Ok? ==> i < r.i <= |s|
    decreases |s| - i, 5
  {
    match PTerm(o, s, i)
    case Err(m) => Err(m)
    case Ok(v, j) => ExprLoop(o, s, j, v)
  }

  function ExprLoop(o: Ops, s: string, i: nat, v: real): (r: Parsed<real>)
    requires i <= |s|
    ensures r.Ok? ==> i <= r.i <= |s|
    decreases |s| - i, 4
  {
    var k := Skip(s, i);
    if At(s, k, '+') || At(s, k, '-') then
      match PTerm(o, s, k + 1)
      case Err(m) => Err(m)
      case Ok(x, j) => ExprLoop(o, s, j, Sums(s[k] == '+', v, x))
    else Ok(v, i)
  }

  function PTerm(o: Ops, s: string, i: nat): (r: Parsed<real>)
    requires i <= |s|
    ensures r.Ok? ==> i < r.i <= |s|
    decreases |s| - i, 4
  {
    match PFactor(o, s, i)
    case Err(m) => Err(m)
    case Ok(v, j) => TermLoop(o, s, j, v)
  }

  function TermLoop(o: Ops, s: string, i: nat, v: real): (r: Parsed<real>)
    requires i <= |s|
    ensures r.Ok? ==> i <= r.i <= |s|
    decreases |s| - i, 3
  {
    var k := Skip(s, i);
    if PowerAt(s, k) then Ok(v, i)
    else if At(s, k, '*') || At(s, k, '/') || At(s, k, '%') then
      match PFactor(o, s, k + 1)
      case Err(m) => Err(m)
      case Ok(x, j) =>
        match Times(o, s[k], v, x)
        case Fail(m) => Err(m)
        case Val(y) => TermLoop(o, s, j, y)
    else Ok(v, i)
  }

  function PFactor(o: Ops, s: string, i: nat): (r: Parsed<real>)
    requires i <= |s|
    ensures r.Ok? ==> i < r.i <= |s|
    decreases |s| - i, 3
  {
    var k := Skip(s, i);
    if At(s, k, '-') || At(s, k, '+') then
      match PFactor(o, s, k + 1)
      case Err(m) => Err(m)
      case Ok(v, j) => Ok(if s[k] == '-' then -v else v, j)
    else PPower(o, s, k)
  }

  function PPower(o: Ops, s: string, i: nat): (r: Parsed<real>)
    requires i <= |s|
    ensures r.Ok? ==> i < r.i <= |s|
    decreases |s| - i, 2
  {
    match PPrimary(o, s, i)
    case Err(m) => Err(m)
    case Ok(b, j) =>
      var k := Skip(s, j);
      if PowerAt(s, k) then
        match PFactor(o, s, k + 2)
        case Err(m) => Err(m)
        case Ok(e, j2) => Ok(o.pow(b, e), j2)
      else Ok(b, j)
  }

  function PPrimary(o: Ops, s: string, i: nat): (r: Parsed<real>)
    requires i <= |s|
    ensures r.Ok? ==> i < r.i <= |s|
    decreases |s| - i, 1
  {
    var k := Skip(s, i);
    var c := Peek(s, i);
    if At(s, k, '(') then AfterParen(s, PExpr(o, s, k + 1))
    else if k < |s| && (IsAlpha(c) || c == '_') then PIdent(o, s, k)
    else if k < |s| && (IsDigit(c) || c == '.') then
      var e := NumberEnd(s, k, k);
      match NumberOf(o, s[k..e])
      case Fail(m) => Err(m)
      case Val(v) => Ok(v, e)
    else Err(if c == '\0' then "unexpected end of expression" else "unexpected character '" + [c] + "'")
  }

  /** A bracket whose content was read to `r`. */
  function AfterParen(s: string, r: Parsed<real>): (c: Parsed<real>)
    requires r.Ok? ==> r.i <= |s|
    ensures c.Ok? ==> r.Ok? && r.i < c.i <= |s|
  {
    match r
    case Err(m) => Err(m)
    case Ok(v, j) => if At(s, Skip(s, j), ')') then Ok(v, Skip(s, j) + 1) else Err("expected ')'")
  }

  function PIdent(o: Ops, s: string, k: nat): (r: Parsed<real>)
    requires k < |s| && IsIdent(s[k])
    ensures r.Ok? ==> k < r.i <= |s|
    decreases |s| - k, 0
  {
    var e := IdentEnd(s, k);
    var id := s[k..e];
    var p := Skip(s, e);
    if !At(s, p, '(') then
      match Constant(id)
      case Fail(m) => Err(m)
      case Val(v) => Ok(v, e)
    else
      AfterArgs(o, s, id, PArgs(o, s, p + 1))
  }

  /** A call whose arguments were read to `r`. */
  function AfterArgs(o: Ops, s: string, id: string, r: Parsed<seq<real>>): (c: Parsed<real>)
    requires r.Ok? ==> r.i <= |s|
    ensures c.Ok? ==> r.Ok? && r.i < c.i <= |s|
  {
    match r
    case Err(m) => Err(m)
    case Ok(a, j) =>
      var q := Skip(s, j);
      if !At(s, q, ')') then Err("expected ')' after args")
      else
        match Apply(o, id, a)
        case Fail(m) => Err(m)
        case Val(v) => Ok(v, q + 1)
  }

  function PArgs(o: Ops, s: string, i: nat): (r: Parsed<seq<real>>)
    requires i <= |s|
    ensures r.Ok? ==> i <= r.i <= |s|
    decreases |s| - i, 6
  {
    if At(s, Skip(s, i), ')') then Ok([], i)
    else
      match PExpr(o, s, Skip(s, i))
      case Err(m) => Err(m)
      case Ok(v, j) => ArgsLoop(o, s, j, [v])
  }

  function ArgsLoop(o: Ops, s: string, i: nat, a: seq<real>): (r: Parsed<seq<real>>)
    requires i <= |s|
    ensures r.Ok? ==> i <= r.i <= |s|
    decreases |s| - i, 6
  {
    var k := Skip(s, i);
    if At(s, k, ',') then
      match PExpr(o, s, k + 1)
      case Err(m) => Err(m)
      case Ok(v, j) => ArgsLoop(o, s, j, a + [v])
    else Ok(a, i)
  }

  /** `evalExpr`: the whole text must be one expression. */
  function EvalExpr(o: Ops, s: string): (r: Calc)
  {
    if Skip(s, 0) == |s| then Fail("empty expression")
    else
      match PExpr(o, s, 0)
      case Err(m) => Fail(m)
      case Ok(v, j) => if Skip(s, j) < |s| then Fail("unexpected trailing input") else Val(v)
  }

  // ---- The parser as it runs ------------------------------------------------------------------

  class Parser {
    const o: Ops
    const s: string
    var i: nat
    var failed: bool
    var err: string

    constructor (o: Ops, src: string)
      ensures this.o == o && s == src && i == 0 && !failed
    {
      this.o, s, i, failed, err := o, src, 0, false, "";
    }

    /** The outcome is `r`; the cursor has passed the white space behind it. */
    ghost predicate Is<T>(r: Parsed<T>, v: T)
      reads this
    {
      && i <= |s|
      && match r
         case Ok(x, j) => !failed && v == x && j <= |s| && i == Skip(s, j)
         case Err(m) => failed && err == m
    }

    /** The outcome is `r`; the cursor may still stand before that white space. */
    ghost predicate IsLoose(r: Parsed<real>, v: real)
      reads this
    {
      && i <= |s|
      && match r
         case Ok(x, j) => !failed && v == x && j <= |s| && (i == j || i == Skip(s, j))
         case Err(m) => failed && err == m
    }

    method SkipWs()
      requires i <= |s|
      modifies this`i
      ensures i == Skip(s, old(i))
    {
      while i < |s| && IsSpace(s[i])
        invariant i <= |s| && Skip(s, i) == Skip(s, old(i))
      {
        i := i + 1;
      }
    }

    method PeekChar() returns (c: char)
      requires i <= |s|
      modifies this`i
      ensures i == Skip(s, old(i)) && c == Peek(s, old(i))
      ensures c == if i < |s| then s[i] else '\0'
    {
      SkipWs();
      c := if i < |s| then s[i] else '\0';
    }

    method SetError(m: string)
      modifies this`failed, this`err
      ensures failed && err == if old(failed) then old(err) else m
    {
      if !failed {
        failed, err := true, m;
      }
    }

    method ParseExpr() returns (v: real)
      requires i <= |s| && !failed
      modifies this
      ensures Is(PExpr(o, s, old(i)), v)
      decreases |s| - i, 5
    {
      hide PExpr, PTerm, ExprLoop, Skip, Sums;
      ghost var goal, r := PExpr(o, s, i), PTerm(o, s, i);
      ExprStart(o, s, i);
      v := ParseTerm();
      while !failed
        invariant i <= |s|
        invariant !failed ==> r.Ok? && old(i) < r.i <= |s| && i == Skip(s, r.i) && ExprLoop(o, s, r.i, v) == goal
        invariant failed ==> goal == Err(err)
        decreases if failed then 0 else 1 + |s| - i
      {
        ExprTurn(o, s, r.i, v);
        var c := PeekChar();
        if c == '+' || c == '-' {
          i := i + 1;
          r := PTerm(o, s, i);
          var rhs := ParseTerm();
          v := Sums(c == '+', v, rhs);
        } else {
          break;
        }
      }
    }

    method ParseTerm() returns (v: real)
      requires i <= |s| && !failed
      modifies this
      ensures Is(PTerm(o, s, old(i)), v)
      decreases |s| - i, 4
    {
      hide PTerm, PFactor, TermLoop, Skip, Times;
      ghost var goal, r := PTerm(o, s, i), PFactor(o, s, i);
      TermStart(o, s, i);
      v := ParseFactor();
      while !failed
        invariant i <= |s|
        invariant !failed ==> r.Ok? && old(i) < r.i <= |s| && i == Skip(s, r.i) && TermLoop(o, s, r.i, v) == goal
        invariant failed ==> goal == Err(err)
        decreases if failed then 0 else 1 + |s| - i
      {
        TermTurn(o, s, r.i, v);
        var c := PeekChar();
        if c == '*' && i + 1 < |s| && s[i + 1] == '*' { break; }
        if c == '*' || c == '/' || c == '%' {
          i := i + 1;
          r := PFactor(o, s, i);
          var rhs := ParseFactor();
          v := Combine(c, v, rhs);
        } else {
          break;
        }
      }
    }

    /** Multiplies, divides or takes the remainder; a zero divisor is an error. */
    method Combine(c: char, v: real, rhs: real) returns (x: real)
      requires c == '*' || c == '/' || c == '%'
      modifies this`failed, this`err
      ensures old(failed) ==> failed && err == old(err)
      ensures !old(failed) ==>
                match Times(o, c, v, rhs)
                case Val(y) => !failed && x == y
                case Fail(m) => failed && err == m
    {
      if c == '*' {
        x := v * rhs;
      } else if c == '/' {
        if rhs == 0.0 { SetError("division by zero"); return 0.0; }
        x := v / rhs;
      } else {
        if rhs == 0.0 { SetError("modulo by zero"); return 0.0; }
        x := o.fmod(v, rhs);
      }
    }

    method ParseFactor() returns (v: real)
      requires i <= |s| && !failed
      modifies this
      ensures Is(PFactor(o, s, old(i)), v)
      decreases |s| - i, 3
    {
      var c := PeekChar();
      if c == '-' {
        i := i + 1;
        v := ParseFactor();
        return -v;
      }
      if c == '+' {
        i := i + 1;
        v := ParseFactor();
        return;
      }
      v := ParsePower();
    }

    method ParsePower() returns (v: real)
      requires i <= |s| && !failed
      modifies this
      ensures Is(PPower(o, s, old(i)), v)
      decreases |s| - i, 2
    {
      hide PPrimary, PFactor;
      var base := ParsePrimary();
      SkipWs();
      if !failed && i + 1 < |s| && s[i] == '*' && s[i + 1] == '*' {
        i := i + 2;
        var e := ParseFactor();
        return o.pow(base, e);
      }
      return base;
    }

    method ParsePrimary() returns (v: real)
      requires i <= |s| && !failed
      modifies this
      ensures IsLoose(PPrimary(o, s, old(i)), v)
      decreases |s| - i, 1
    {
      hide PExpr, PIdent, NumberOf, Skip, AfterParen;
      var c := PeekChar();
      if c == '(' {
        v := ParseParen();
        return;
      }
      if IsAlpha(c) || c == '_' {
        v := ParseIdent();
        return;
      }
      if IsDigit(c) || c == '.' {
        v := ParseNumber();
        return;
      }
      SetError(if c == '\0' then "unexpected end of expression" else "unexpected character '" + [c] + "'");
      v := 0.0;
    }

    /** The content of a bracket, from the opening bracket on. */
    method ParseParen() returns (v: real)
      requires i < |s| && !failed
      modifies this
      ensures IsLoose(AfterParen(s, PExpr(o, s, old(i) + 1)), v)
      decreases |s| - i, 0
    {
      hide PExpr, Skip;
      i := i + 1;
      v := ParseExpr();
      var d := PeekChar();
      if d != ')' {
        SetError("expected ')'");
        return 0.0;
      }
      i := i + 1;
    }

    method ParseNumber() returns (v: real)
      requires i < |s| && !failed && !IsSpace(s[i])
      modifies this
      ensures var e := NumberEnd(s, old(i), old(i));
              IsLoose(match NumberOf(o, s[old(i)..e]) case Val(x) => Ok(x, e) case Fail(m) => Err(m), v)
      decreases |s| - i, 0
    {
      SkipWs();
      var start := i;
      while i < |s| && InNumber(s, start, i)
        modifies this`i
        invariant start <= i <= |s| && NumberEnd(s, start, i) == NumberEnd(s, start, start)
      {
        i := i + 1;
      }
      var tok := s[start..i];
      match o.stod(tok)
      case None =>
        SetError("invalid number");
        v := 0.0;
      case Some(p) =>
        if p.1 != |tok| {
          SetError("invalid number '" + tok + "'");
          return 0.0;
        }
        v := p.0;
    }

    method ParseArgs() returns (out: seq<real>)
      requires i <= |s| && !failed
      modifies this
      ensures Is(PArgs(o, s, old(i)), out)
      decreases |s| - i, 6
    {
      hide PExpr, Skip, PArgs, ArgsLoop, Peek, IsSpace;
      ghost var goal := PArgs(o, s, i);
      ArgsStart(o, s, i);
      out := [];
      var c := PeekChar();
      if c == ')' { return; }
      ghost var r := PExpr(o, s, i);
      var v := ParseExpr();
      out := [v];
      while !failed
        invariant i <= |s|
        invariant !failed ==> r.Ok? && old(i) < r.i <= |s| && i == Skip(s, r.i) && ArgsLoop(o, s, r.i, out) == goal
        invariant failed ==> goal == Err(err)
        decreases if failed then 0 else 1 + |s| - i
      {
        ArgsTurn(o, s, r.i, out);
        var d := PeekChar();
        if d != ',' { break; }
        i := i + 1;
        r := PExpr(o, s, i);
        v := ParseExpr();
        out := out + [v];
      }
    }

    method ScanIdent() returns (id: string)
      requires i < |s| && !failed && !IsSpace(s[i])
      modifies this`i
      ensures i == IdentEnd(s, old(i)) && id == s[old(i)..i]
    {
      SkipWs();
      var start := i;
      while i < |s| && IsIdent(s[i])
        invariant start <= i <= |s| && IdentEnd(s, i) == IdentEnd(s, start)
      {
        i := i + 1;
      }
      id := s[start..i];
    }

    /** A name that is not called. */
    method NameValue(id: string, ghost end: nat) returns (v: real)
      requires i <= |s| && end <= |s| && i == Skip(s, end) && !failed
      modifies this`failed, this`err
      ensures IsLoose(match Constant(id) case Val(x) => Ok(x, end) case Fail(m) => Err(m), v)
    {
      hide Skip;
      if id == "pi" { return PI; }
      if id == "e" { return E; }
      SetError("unknown name '" + id + "'");
      v := 0.0;
    }

    /** The value of a call; an error already reported stays. */
    method CallValue(id: string, a: seq<real>) returns (v: real)
      requires i <= |s|
      modifies this`failed, this`err
      ensures old(failed) ==> failed && err == old(err)
      ensures !old(failed) ==> IsLoose(match Apply(o, id, a) case Val(x) => Ok(x, i) case Fail(m) => Err(m), v)
    {
      hide Apply, Skip;
      var r := Call(o, id, a);
      match r
      case Val(x) => v := x;
      case Fail(m) =>
        SetError(m);
        v := 0.0;
    }

    method ParseIdent() returns (v: real)
      requires i < |s| && !failed && (IsAlpha(s[i]) || s[i] == '_')
      modifies this
      ensures IsLoose(PIdent(o, s, old(i)), v)
      decreases |s| - i, 0
    {
      hide PArgs, AfterArgs, Skip, IdentEnd, Constant;
      var id := ScanIdent();
      ghost var end := i;
      var c := PeekChar();
      if c != '(' {
        v := NameValue(id, end);
        return;
      }
      v := ParseCall(id);
    }

    /** The rest of a call, from its opening bracket on. */
    method ParseCall(id: string) returns (v: real)
      requires i < |s| && !failed
      modifies this
      ensures IsLoose(AfterArgs(o, s, id, PArgs(o, s, old(i) + 1)), v)
      decreases |s| - i, 0
    {
      hide PArgs, Apply, Skip;
      i := i + 1;
      var a := ParseArgs();
      var d := PeekChar();
      if d != ')' {
        SetError("expected ')' after args");
        return 0.0;
      }
      i := i + 1;
      v := CallValue(id, a);
    }
  }

  lemma ExprStart(o: Ops, s: string, i: nat)
    requires i <= |s|
    ensures var r := PTerm(o, s, i);
            PExpr(o, s, i) == if r.Err? then Err(r.msg) else ExprLoop(o, s, r.i, r.v)
  {
  }

  lemma TermStart(o: Ops, s: string, i: nat)
    requires i <= |s|
    ensures var r := PFactor(o, s, i);
            PTerm(o, s, i) == if r.Err? then Err(r.msg) else TermLoop(o, s, r.i, r.v)
  {
  }

  lemma ExprTurn(o: Ops, s: string, i: nat, v: real)
    requires i <= |s|
    ensures var k := Skip(s, i);
            ExprLoop(o, s, i, v) ==
            if !(At(s, k, '+') || At(s, k, '-')) then Ok(v, i)
            else
              var r := PTerm(o, s, k + 1);
              if r.Err? then Err(r.msg) else ExprLoop(o, s, r.i, Sums(s[k] == '+', v, r.v))
  {
  }

  lemma TermTurn(o: Ops, s: string, i: nat, v: real)
    requires i <= |s|
    ensures var k := Skip(s, i);
            TermLoop(o, s, i, v) ==
            if PowerAt(s, k) || !(At(s, k, '*') || At(s, k, '/') || At(s, k, '%')) then Ok(v, i)
            else
              var r := PFactor(o, s, k + 1);
              if r.Err? then Err(r.msg)
              else
                var y := Times(o, s[k], v, r.v);
                if y.Fail? then Err(y.msg) else TermLoop(o, s, r.i, y.v)
  {
  }

  lemma ArgsStart(o: Ops, s: string, i: nat)
    requires i <= |s|
    ensures PArgs(o, s, i) ==
            if At(s, Skip(s, i), ')') then Ok([], i)
            else
              var r := PExpr(o, s, Skip(s, i));
              if r.Err? then Err(r.msg) else ArgsLoop(o, s, r.i, [r.v])
  {
  }

  lemma ArgsTurn(o: Ops, s: string, i: nat, a: seq<real>)
    requires i <= |s|
    ensures var k := Skip(s, i);
            ArgsLoop(o, s, i, a) ==
            if !At(s, k, ',') then Ok(a, i)
            else
              var r := PExpr(o, s, k + 1);
              if r.Err? then Err(r.msg) else ArgsLoop(o, s, r.i, a + [r.v])
  {
  }

  method Call(o: Ops, id: string, a: seq<real>) returns (r: Calc)
    ensures r == Apply(o, id, a)
  {
    if id in VARIADIC {
      hide Minimum, Maximum, Sum;
      if a == [] { return Fail(id + "() needs >=1 arg"); }
      if id == "min" || id == "max" {
        var m := Extreme(id == "min", a);
        return Val(m);
      }
      var s2 := Total(a);
      return Val(if id == "sum" then s2 else s2 / (|a| as real));
    }
    r := Apply(o, id, a);
  }

  /** The loops of the functions of any number of arguments. */
  method Extreme(least: bool, a: seq<real>) returns (m: real)
    requires a != []
    ensures m == if least then Minimum(a) else Maximum(a)
  {
    m := a[0];
    for k := 0 to |a|
      invariant k == 0 ==> m == a[0]
      invariant k > 0 ==> m == if least then Minimum(a[..k]) else Maximum(a[..k])
    {
      var x := a[k];
      assert a[..k + 1][..k] == a[..k];
      m := if least then (if x < m then x else m) else (if x > m then x else m);
    }
    assert a[..|a|] == a;
  }

  method Total(a: seq<real>) returns (s: real)
    ensures s == Sum(a)
  {
    s := 0.0;
    for k := 0 to |a|
      invariant s == Sum(a[..k])
    {
      assert a[..k + 1][..k] == a[..k];
      s := s + a[k];
    }
    assert a[..|a|] == a;
  }

  method EvalExprRun(o: Ops, expr: string) returns (r: Calc)
    ensures r == EvalExpr(o, expr)
  {
    var blank := true;
    for k := 0 to |expr|
      invariant blank && forall j | 0 <= j < k :: IsSpace(expr[j])
    {
      if !IsSpace(expr[k]) { blank := false; break; }
    }
    if blank { return Fail("empty expression"); }
    var p := new Parser(o, expr);
    var v := p.ParseExpr();
    if p.failed { return Fail(p.err); }
    p.SkipWs();
    if p.i < |expr| { return Fail("unexpected trailing input"); }
    r := Val(v);
  }
}
