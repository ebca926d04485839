/** What a diff that applies does to the base, and when that is what the diff says. */
module DiffProofs {
  import opened Text
  import opened Wrappers
  import opened UnifiedDiff

  // ---- Conservation: nothing is lost, nothing is invented ------------------------------------

  /** The lines of the hunks' bodies that start with `tag`, without it. */
  function Body(diff: seq<string>, i: nat, inHunk: bool, tag: char): (s: seq<string>)
    requires i <= |diff|
    decreases |diff| - i, inHunk
  {
    if i == |diff| then []
    else if !inHunk then Body(diff, i + 1, IsHeader(diff[i]), tag)
    else if Marks(diff[i]) then Body(diff, i, false, tag)
    else (if diff[i] != "" && diff[i][0] == tag then [diff[i][1..]] else []) + Body(diff, i + 1, true, tag)
  }

  lemma {:induction false} DelsConcat(a: seq<Op>, b: seq<Op>)
    ensures Dels(a + b) == Dels(a) + Dels(b)
  {
    hide One;
    if a == [] {
      assert a + b == b;
    } else {
      assert (a + b)[1..] == a[1..] + b;
      DelsConcat(a[1..], b);
    }
  }

  lemma {:induction false} AddsConcat(a: seq<Op>, b: seq<Op>)
    ensures Adds(a + b) == Adds(a) + Adds(b)
  {
    hide One;
    if a == [] {
      assert a + b == b;
    } else {
      assert (a + b)[1..] == a[1..] + b;
      AddsConcat(a[1..], b);
    }
  }

  /** What putting operations in front of a script does to its four readings. */
  lemma PrependAll(a: seq<Op>, r: Script)
    requires r.Success?
    ensures var q := Prepend(a, r);
            && q.Success? && Olds(q.value) == Olds(a) + Olds(r.value)
            && Dels(q.value) == Dels(a) + Dels(r.value) && Adds(q.value) == Adds(a) + Adds(r.value)
  {
    OldsConcat(a, r.value);
    DelsConcat(a, r.value);
    AddsConcat(a, r.value);
  }

  lemma OneOp(op: Op)
    ensures Olds([op]) == if op.Ins? then [] else [op.line]
    ensures Dels([op]) == One(op.Del?, op.line) && Adds([op]) == One(op.Ins?, op.line)
  {
    assert [op][1..] == [];
  }

  /** If the diff applies, the script uses up the base lines from the cursor on, each once and in
      order; it removes exactly the `-` lines of the hunks and adds exactly their `+` lines. */
  lemma {:induction false} ApplyConserves(base: seq<string>, c: nat, diff: seq<string>, i: nat, inHunk: bool)
    requires c <= |base| && i <= |diff| && Apply(base, c, diff, i, inHunk).Success?
    ensures var ops := Apply(base, c, diff, i, inHunk).value;
            && Olds(ops) == base[c..]
            && Dels(ops) == Body(diff, i, inHunk, '-')
            && Adds(ops) == Body(diff, i, inHunk, '+')
    decreases |diff| - i, inHunk
  {
    if i == |diff| {
      OfKeeps(base[c..]);
    } else if !inHunk {
      if !IsHeader(diff[i]) {
        ApplyConserves(base, c, diff, i + 1, false);
      } else {
        HeaderConserves(base, c, diff, i);
      }
    } else if Marks(diff[i]) {
      ApplyConserves(base, c, diff, i, false);
    } else {
      BodyConserves(base, c, diff, i);
    }
  }

  lemma HeaderOp(base: seq<string>, c: nat, diff: seq<string>, i: nat)
    requires c <= |base| && i < |diff| && IsHeader(diff[i]) && Apply(base, c, diff, i, false).Success?
    ensures var c' := MoveTo(c, Target(OldStart(diff[i])), |base|);
            var rest := Apply(base, c', diff, i + 1, true);
            rest.Success? && Apply(base, c, diff, i, false) == Prepend(Keeps(base[c..c']), rest)
    ensures forall tag :: Body(diff, i, false, tag) == Body(diff, i + 1, true, tag)
  {
    hide OldStart, MoveTo, Target, Keeps;
  }

  lemma {:induction false} HeaderConserves(base: seq<string>, c: nat, diff: seq<string>, i: nat)
    requires c <= |base| && i < |diff| && IsHeader(diff[i]) && Apply(base, c, diff, i, false).Success?
    ensures var ops := Apply(base, c, diff, i, false).value;
            && Olds(ops) == base[c..]
            && Dels(ops) == Body(diff, i, false, '-')
            && Adds(ops) == Body(diff, i, false, '+')
    decreases |diff| - i, false, 0
  {
    hide *;
    var c' := MoveTo(c, Target(OldStart(diff[i])), |base|);
    var rest := Apply(base, c', diff, i + 1, true);
    HeaderOp(base, c, diff, i);
    ApplyConserves(base, c', diff, i + 1, true);
    OfKeeps(base[c..c']);
    PrependAll(Keeps(base[c..c']), rest);
    assert base[c..c'] + base[c'..] == base[c..];
  }

  lemma {:induction false} BodyConserves(base: seq<string>, c: nat, diff: seq<string>, i: nat)
    requires c <= |base| && i < |diff| && !Marks(diff[i]) && Apply(base, c, diff, i, true).Success?
    ensures var ops := Apply(base, c, diff, i, true).value;
            && Olds(ops) == base[c..]
            && Dels(ops) == Body(diff, i, true, '-')
            && Adds(ops) == Body(diff, i, true, '+')
    decreases |diff| - i, true, 0
  {
    hide *;
    BodyOp(base, c, diff, i);
    match OpAt(diff[i])
    case None => ApplyConserves(base, c, diff, i + 1, true);
    case Some(op) =>
      var c' := if op.Ins? then c else c + 1;
      ApplyConserves(base, c', diff, i + 1, true);
      OneOp(op);
      PrependAll([op], Apply(base, c', diff, i + 1, true));
      assert !op.Ins? ==> [op.line] + base[c'..] == base[c..];
  }

  /** What a body line asks for; a `\\` line asks for nothing. */
  function OpAt(hl: string): (op: Option<Op>)
  {
    if hl == "" then Some(Keep(""))
    else if hl[0] == ' ' then Some(Keep(hl[1..]))
    else if hl[0] == '-' then Some(Del(hl[1..]))
    else if hl[0] == '+' then Some(Ins(hl[1..]))
    else None
  }

  lemma BodyOp(base: seq<string>, c: nat, diff: seq<string>, i: nat)
    requires c <= |base| && i < |diff| && !Marks(diff[i]) && Apply(base, c, diff, i, true).Success?
    ensures match OpAt(diff[i])
            case None =>
              && Apply(base, c, diff, i + 1, true) == Apply(base, c, diff, i, true)
              && (forall tag | tag == '-' || tag == '+' :: Body(diff, i, true, tag) == Body(diff, i + 1, true, tag))
            case Some(op) =>
              var c' := if op.Ins? then c else c + 1;
              && c' <= |base| && (!op.Ins? ==> base[c] == op.line)
              && Apply(base, c', diff, i + 1, true).Success?
              && Apply(base, c, diff, i, true) == Prepend([op], Apply(base, c', diff, i + 1, true))
              && Body(diff, i, true, '-') == One(op.Del?, op.line) + Body(diff, i + 1, true, '-')
              && Body(diff, i, true, '+') == One(op.Ins?, op.line) + Body(diff, i + 1, true, '+')
  {
    hide OldStart, MoveTo, Target, Keeps;
  }

  lemma MultisetOne(b: bool, l: string, rest: seq<string>)
    ensures |One(b, l) + rest| == (if b then 1 else 0) + |rest|
    ensures multiset(One(b, l) + rest) == (if b then multiset{l} else multiset{}) + multiset(rest)
  {
    assert [] + rest == rest;
  }

  lemma {:induction false} Counts(ops: seq<Op>)
    ensures |News(ops)| == |Olds(ops)| - |Dels(ops)| + |Adds(ops)|
    ensures multiset(News(ops)) == multiset(Olds(ops)) - multiset(Dels(ops)) + multiset(Adds(ops))
    ensures multiset(Dels(ops)) <= multiset(Olds(ops))
  {
    hide *;
    if ops == [] {
      NoOps();
    } else {
      var rest, op, l := ops[1..], ops[0], ops[0].line;
      UnfoldOps(ops);
      Counts(rest);
      CountOne(op, News(rest), Olds(rest), Dels(rest), Adds(rest));
    }
  }

  lemma CountOne(op: Op, n: seq<string>, o: seq<string>, d: seq<string>, a: seq<string>)
    requires |n| == |o| - |d| + |a|
    requires multiset(n) == multiset(o) - multiset(d) + multiset(a) && multiset(d) <= multiset(o)
    ensures var n', o' := One(!op.Del?, op.line) + n, One(!op.Ins?, op.line) + o;
            var d', a' := One(op.Del?, op.line) + d, One(op.Ins?, op.line) + a;
            && |n'| == |o'| - |d'| + |a'|
            && multiset(n') == multiset(o') - multiset(d') + multiset(a') && multiset(d') <= multiset(o')
  {
    hide *;
    MultisetOne(!op.Del?, op.line, n);
    MultisetOne(!op.Ins?, op.line, o);
    MultisetOne(op.Del?, op.line, d);
    MultisetOne(op.Ins?, op.line, a);
  }

  lemma NoOps()
    ensures News([]) == [] && Olds([]) == [] && Dels([]) == [] && Adds([]) == []
  {
  }

  lemma UnfoldOps(ops: seq<Op>)
    requires ops != []
    ensures var rest, op, l := ops[1..], ops[0], ops[0].line;
            && News(ops) == One(!op.Del?, l) + News(rest) && Olds(ops) == One(!op.Ins?, l) + Olds(rest)
            && Dels(ops) == One(op.Del?, l) + Dels(rest) && Adds(ops) == One(op.Ins?, l) + Adds(rest)
  {
  }

  /** A diff that applies leaves the base lines less the removed ones, in order, plus the added
      ones: the output is one reading of a script whose other reading is the base. */
  lemma Conservation(base: seq<string>, diff: seq<string>)
    requires Apply(base, 0, diff, 0, false).Success?
    ensures var ops := Apply(base, 0, diff, 0, false).value;
            var minus, plus := Body(diff, 0, false, '-'), Body(diff, 0, false, '+');
            && Olds(ops) == base && Dels(ops) == minus && Adds(ops) == plus
            && |News(ops)| == |base| - |minus| + |plus|
            && multiset(News(ops)) == multiset(base) - multiset(minus) + multiset(plus)
  {
    ApplyConserves(base, 0, diff, 0, false);
    Counts(Apply(base, 0, diff, 0, false).value);
  }

  // ---- Hunks, and the text form of a hunk list ---------------------------------------------------

  datatype Line = Ctx(s: string) | Rem(s: string) | Add(s: string)

  /** A hunk names the first line of its old side, counted from 1; when the old side is empty it
      names the line just before, 0 for the start of the file. */
  datatype Hunk = Hunk(start: nat, newStart: nat, body: seq<Line>)

  function Old(body: seq<Line>): (s: seq<string>)
  {
    if body == [] then [] else (if body[0].Add? then [] else [body[0].s]) + Old(body[1..])
  }

  function New(body: seq<Line>): (s: seq<string>)
  {
    if body == [] then [] else (if body[0].Rem? then [] else [body[0].s]) + New(body[1..])
  }

  function Header(h: Hunk): (s: string)
  {
    "@@ -" + (ToString(h.start) + ("," + ToString(|Old(h.body)|) + " +" + ToString(h.newStart)
    + "," + ToString(|New(h.body)|) + " @@"))
  }

  function LineText(l: Line): (s: string)
  {
    match l
    case Ctx(s) => " " + s
    case Rem(s) => "-" + s
    case Add(s) => "+" + s
  }

  function BodyText(body: seq<Line>): (s: seq<string>)
    ensures |s| == |body| && forall i | 0 <= i < |body| :: s[i] == LineText(body[i])
  {
    seq(|body|, i requires 0 <= i < |body| => LineText(body[i]))
  }

  function DiffText(hs: seq<Hunk>): (s: seq<string>)
  {
    if hs == [] then [] else [Header(hs[0])] + BodyText(hs[0].body) + DiffText(hs[1..])
  }

  /** The index of the first base line a hunk touches. */
  function TrueAt(h: Hunk): (t: int)
  {
    if Old(h.body) == [] then h.start else h.start - 1
  }

  /** The hunks are in order from base line `b` on, apart, and name what is there. */
  predicate Valid(base: seq<string>, b: nat, hs: seq<Hunk>)
    decreases |hs|
  {
    b <= |base|
    && (hs == []
        || (var h, t := hs[0], TrueAt(hs[0]);
            && b <= t && t + |Old(h.body)| <= |base| && base[t..t + |Old(h.body)|] == Old(h.body)
            && Valid(base, t + |Old(h.body)|, hs[1..])))
  }

  /** The meaning of a hunk list: each old side is replaced by the new side. */
  function Patched(base: seq<string>, b: nat, hs: seq<Hunk>): (s: seq<string>)
    requires Valid(base, b, hs)
    decreases |hs|
  {
    if hs == [] then base[b..]
    else
      var h, t := hs[0], TrueAt(hs[0]);
      base[b..t] + New(h.body) + Patched(base, t + |Old(h.body)|, hs[1..])
  }

  /** Where the applier puts each hunk, from its own cursor `c`. */
  function Placed(base: seq<string>, c: nat, hs: seq<Hunk>): (s: seq<string>)
    requires c <= |base|
    decreases |hs|
  {
    if hs == [] then base[c..]
    else
      var h := hs[0];
      var t := MoveTo(c, Target(h.start), |base|);
      base[c..t] + New(h.body)
      + (if t + |Old(h.body)| <= |base| then Placed(base, t + |Old(h.body)|, hs[1..]) else [])
  }

  // ---- Reading the text form ------------------------------------------------------------------------

  lemma HeaderStart(h: Hunk)
    ensures IsHeader(Header(h)) && OldStart(Header(h)) == h.start
  {
    var d := ToString(h.start);
    var rest := "," + ToString(|Old(h.body)|) + " +" + ToString(h.newStart)
                + "," + ToString(|New(h.body)|) + " @@";
    assert Header(h) == "@@ -" + (d + rest) && IntToString(h.start) == d;
    NoNul(h, rest);
    hide *;
    Dashed(Header(h), d + rest);
    FirstDash(Header(h));
    ScanPrinted(h.start, rest);
    StartRead(Header(h), d + rest, h.start);
  }

  lemma Dashed(line: string, rest: string)
    requires line == "@@ -" + rest && rest != ""
    ensures |line| > 4 && line[3] == '-' && line[..3] == "@@ " && line[4..] == rest
  {
  }

  /** A header line whose text after the dash reads as `n`. */
  lemma StartRead(line: string, rest: string, n: int)
    requires |line| > 4 && line[3] == '-' && line[..3] == "@@ " && line[4..] == rest && CStr(line) == line
    requires Find(line, "-", 0) == 3 && ScanInt(rest) == Number(n)
    ensures IsHeader(line) && OldStart(line) == n
  {
    hide Find, ScanInt, CStr;
    assert line[..3][0] == '@' && line[..3][1] == '@' && line[..3][2] == ' ';
  }

  lemma NoNul(h: Hunk, rest: string)
    requires Header(h) == "@@ -" + (ToString(h.start) + rest)
    requires rest == "," + ToString(|Old(h.body)|) + " +" + ToString(h.newStart)
                     + "," + ToString(|New(h.body)|) + " @@"
    ensures '\0' !in Header(h) && CStr(Header(h)) == Header(h)
    ensures rest != "" && !IsDigit(rest[0])
  {
    var a, b, c, d := ToString(h.start), ToString(|Old(h.body)|), ToString(h.newStart), ToString(|New(h.body)|);
    hide ToString, Header, Old, New;
    var line := "@@ -" + (a + rest);
    forall p: nat ensures !OccursAt(line, ['\0'], p) {
      OccursChars(line, ['\0'], p);
    }
  }

  lemma FirstDash(line: string)
    requires |line| > 4 && line[3] == '-' && line[..3] == "@@ "
    ensures Find(line, "-", 0) == 3
  {
    assert line[3..4] == "-";
    assert forall p: nat | p < 3 :: line[p] == line[..3][p];
    forall p: nat | p < 3 ensures !OccursAt(line, "-", p) {
      OccursChars(line, "-", p);
    }
    FindUnique(line, "-", 0, 3);
  }

  /** The body lines of a hunk, applied where its old side stands. */
  lemma {:induction false} ApplyBody(base: seq<string>, c: nat, diff: seq<string>, i: nat, body: seq<Line>)
    requires c + |Old(body)| <= |base| && base[c..c + |Old(body)|] == Old(body)
    requires i + |body| <= |diff| && diff[i..i + |body|] == BodyText(body)
    requires i + |body| < |diff| ==> IsHeader(diff[i + |body|])
    ensures Outputs(Apply(base, c, diff, i, true), New(body),
                    Apply(base, c + |Old(body)|, diff, i + |body|, false))
    decreases |body|
  {
    hide *;
    if body == [] {
      EmptyBody(base, c, diff, i);
    } else {
      var l, tail := body[0], body[1..];
      var c' := if l.Add? then c else c + 1;
      BodyParts(diff, i, body);
      OldStep(base, c, body);
      SidesStep(body);
      ApplyBody(base, c', diff, i + 1, tail);
      BodyStep(base, c, diff, i, l);
      OutputsOne(OpOf(l), Apply(base, c', diff, i + 1, true), New(tail),
                 Apply(base, c + |Old(body)|, diff, i + |body|, false));
      OpOfIs(l);
    }
  }

  lemma EmptyBody(base: seq<string>, c: nat, diff: seq<string>, i: nat)
    requires c <= |base| && i <= |diff| && (i < |diff| ==> IsHeader(diff[i]))
    ensures Old([]) == [] && Outputs(Apply(base, c, diff, i, true), New([]), Apply(base, c, diff, i, false))
  {
    OutputsSame(Apply(base, c, diff, i, false));
    hide OldStart, Prepend, Keeps;
  }

  lemma BodyParts(diff: seq<string>, i: nat, body: seq<Line>)
    requires body != [] && i + |body| <= |diff| && diff[i..i + |body|] == BodyText(body)
    ensures diff[i] == LineText(body[0]) && diff[i + 1..i + |body|] == BodyText(body[1..])
  {
    var d := diff[i..i + |body|];
    assert d[0] == diff[i] && d[1..] == diff[i + 1..i + |body|];
  }

  lemma SidesStep(body: seq<Line>)
    requires body != []
    ensures New(body) == (if body[0].Rem? then [] else [body[0].s]) + New(body[1..])
    ensures |Old(body)| == (if body[0].Add? then 0 else 1) + |Old(body[1..])|
  {
  }

  function OpOf(l: Line): (op: Op)
  {
    match l
    case Ctx(x) => Keep(x)
    case Rem(x) => Del(x)
    case Add(x) => Ins(x)
  }

  lemma OpOfIs(l: Line)
    ensures (if OpOf(l).Del? then [] else [OpOf(l).line]) == (if l.Rem? then [] else [l.s])
  {
  }

  lemma OldStep(base: seq<string>, c: nat, body: seq<Line>)
    requires body != [] && c + |Old(body)| <= |base| && base[c..c + |Old(body)|] == Old(body)
    ensures var l, tail := body[0], body[1..];
            var c' := if l.Add? then c else c + 1;
            && c' + |Old(tail)| <= |base| && base[c'..c' + |Old(tail)|] == Old(tail)
            && (!l.Add? ==> c < |base| && base[c] == l.s)
  {
    var l, tail := body[0], body[1..];
    if l.Add? {
      assert Old(body) == Old(tail);
    } else {
      assert Old(body) == [l.s] + Old(tail);
      hide Old;
      TailHere(base, c, l.s, Old(tail));
    }
  }

  lemma TailHere(base: seq<string>, c: nat, x: string, rest: seq<string>)
    requires c + |[x] + rest| <= |base| && base[c..c + |[x] + rest|] == [x] + rest
    ensures base[c] == x && base[c + 1..c + 1 + |rest|] == rest
  {
    var d := base[c..c + |[x] + rest|];
    assert d[0] == base[c] && d[1..] == base[c + 1..c + 1 + |rest|];
  }

  /** One body line of a hunk is one operation. */
  lemma BodyStep(base: seq<string>, c: nat, diff: seq<string>, i: nat, l: Line)
    requires i < |diff| && diff[i] == LineText(l) && c <= |base|
    requires !l.Add? ==> c < |base| && base[c] == l.s
    ensures Apply(base, c, diff, i, true) ==
            Prepend([OpOf(l)], Apply(base, if l.Add? then c else c + 1, diff, i + 1, true))
  {
    var hl := diff[i];
    assert hl[1..] == l.s;
    assert !Marks(hl);
  }

  /** `q` applies when `r` does, and then writes `lines` first. */
  ghost predicate Outputs(q: Script, lines: seq<string>, r: Script)
  {
    && q.Success? == r.Success?
    && (r.Success? ==> News(q.value) == lines + News(r.value))
  }

  lemma OutputsSame(r: Script)
    ensures Outputs(r, [], r)
  {
  }

  lemma OutputsOne(op: Op, q: Script, lines: seq<string>, r: Script)
    requires Outputs(q, lines, r)
    ensures Outputs(Prepend([op], q), (if op.Del? then [] else [op.line]) + lines, r)
  {
    if r.Success? {
      assert ([op] + q.value)[1..] == q.value;
    }
  }

  lemma OutputsKeeps(kept: seq<string>, q: Script, lines: seq<string>, r: Script)
    requires Outputs(q, lines, r)
    ensures Outputs(Prepend(Keeps(kept), q), kept + lines, r)
  {
    if r.Success? {
      NewsKeeps(kept, q.value);
      assert kept + (lines + News(r.value)) == (kept + lines) + News(r.value);
    }
  }

  /** Where the applier stands for a hunk, and how far it may lag. */
  lemma Places(base: seq<string>, c: nat, b: nat, hs: seq<Hunk>)
    requires hs != [] && Valid(base, b, hs) && c <= b <= c + 1
    ensures var h, n := hs[0], |Old(hs[0].body)|;
            var at := MoveTo(c, Target(h.start), |base|);
            && at + n <= |base| && base[at..at + n] == Old(h.body)
            && at + n <= TrueAt(h) + n <= at + n + 1
            && (n > 0 ==> at == TrueAt(h))
            && Valid(base, TrueAt(h) + n, hs[1..])
  {
    hide Old;
  }

  /** The applier on a valid hunk list never fails and writes `Placed`. Its cursor may lag one line
      behind the meaning's, after an insertion. */
  lemma {:induction false} AppliesPlaced(base: seq<string>, c: nat, b: nat, diff: seq<string>, i: nat, hs: seq<Hunk>)
    requires Valid(base, b, hs) && c <= b <= c + 1
    requires i <= |diff| && diff[i..] == DiffText(hs)
    ensures var r := Apply(base, c, diff, i, false);
            c <= |base| && r.Success? && News(r.value) == Placed(base, c, hs)
    decreases |hs|
  {
    hide *;
    ValidBound(base, b, hs);
    if hs == [] {
      NothingLeft(base, c, diff, i);
    } else {
      var h, n := hs[0], |Old(hs[0].body)|;
      var at := MoveTo(c, Target(h.start), |base|);
      var j := i + 1 + |h.body|;
      Places(base, c, b, hs);
      HeaderStart(h);
      TextParts(diff, i, hs);
      HeaderApplies(base, c, diff, i, h);
      PlacedStep(base, c, hs);
      ApplyBody(base, at, diff, i + 1, h.body);
      AppliesPlaced(base, at + n, TrueAt(h) + n, diff, j, hs[1..]);
      OutputsKeeps(base[c..at], Apply(base, at, diff, i + 1, true), New(h.body),
                   Apply(base, at + n, diff, j, false));
      OutputsIs(Apply(base, c, diff, i, false), base[c..at] + New(h.body), Apply(base, at + n, diff, j, false));
    }
  }

  lemma ValidBound(base: seq<string>, b: nat, hs: seq<Hunk>)
    requires Valid(base, b, hs)
    ensures b <= |base|
  {
  }

  lemma NothingLeft(base: seq<string>, c: nat, diff: seq<string>, i: nat)
    requires c <= |base| && i <= |diff| && diff[i..] == DiffText([])
    ensures var r := Apply(base, c, diff, i, false); r.Success? && News(r.value) == Placed(base, c, [])
  {
    OfKeeps(base[c..]);
  }

  lemma OutputsIs(q: Script, lines: seq<string>, r: Script)
    requires Outputs(q, lines, r) && r.Success?
    ensures q.Success? && News(q.value) == lines + News(r.value)
  {
  }

  lemma HeaderApplies(base: seq<string>, c: nat, diff: seq<string>, i: nat, h: Hunk)
    requires c <= |base| && i < |diff| && diff[i] == Header(h)
    requires IsHeader(Header(h)) && OldStart(Header(h)) == h.start
    ensures var at := MoveTo(c, Target(h.start), |base|);
            Apply(base, c, diff, i, false) == Prepend(Keeps(base[c..at]), Apply(base, at, diff, i + 1, true))
  {
    hide Header, OldStart, MoveTo, Target, Prepend, Keeps;
  }

  lemma PlacedStep(base: seq<string>, c: nat, hs: seq<Hunk>)
    requires hs != [] && c <= |base|
    ensures var h := hs[0];
            var at := MoveTo(c, Target(h.start), |base|);
            at + |Old(h.body)| <= |base| ==>
              Placed(base, c, hs) == base[c..at] + New(h.body) + Placed(base, at + |Old(h.body)|, hs[1..])
  {
    hide MoveTo, Target, Old, New;
  }

  lemma TextParts(diff: seq<string>, i: nat, hs: seq<Hunk>)
    requires hs != [] && i <= |diff| && diff[i..] == DiffText(hs)
    ensures var j := i + 1 + |hs[0].body|;
            && j <= |diff| && diff[i] == Header(hs[0])
            && diff[i + 1..j] == BodyText(hs[0].body) && diff[j..] == DiffText(hs[1..])
            && (j < |diff| ==> IsHeader(diff[j]))
  {
    var h := hs[0];
    var j := i + 1 + |h.body|;
    hide Header, BodyText;
    var d := diff[i..];
    assert d == [Header(h)] + BodyText(h.body) + DiffText(hs[1..]);
    assert diff[i] == d[0];
    assert diff[i + 1..j] == d[1..j - i] == BodyText(h.body);
    assert diff[j..] == d[j - i..] == DiffText(hs[1..]);
    RestStarts(hs[1..]);
    if j < |diff| {
      assert diff[j] == diff[j..][0];
    }
  }

  lemma RestStarts(hs: seq<Hunk>)
    ensures DiffText(hs) != [] ==> IsHeader(DiffText(hs)[0])
  {
    if hs != [] {
      HeaderStart(hs[0]);
    }
  }

  // ---- When the applier is right ----------------------------------------------------------------------

  predicate AllAre(xs: seq<string>, l: string)
  {
    forall x | x in xs :: x == l
  }

  /** For each pure insertion the applier misplaces, every added line equals the base line it was
      to follow. It misplaces those whose line it has not passed when it gets there. */
  predicate Harmless(base: seq<string>, c: nat, hs: seq<Hunk>)
    decreases |hs|
  {
    hs == []
    || (var h, n := hs[0], |Old(hs[0].body)|;
        if n == 0 && h.start > c then
          h.start <= |base|
          && AllAre(New(h.body), base[h.start - 1])
          && Harmless(base, h.start - 1, hs[1..])
        else if n == 0 then Harmless(base, c, hs[1..])
        else h.start > 0 && Harmless(base, h.start - 1 + n, hs[1..]))
  }

  /** Moving lines past one line changes nothing exactly when they all equal it. */
  lemma {:induction false} MovePast(xs: seq<string>, l: string, u: seq<string>, v: seq<string>)
    ensures xs + u == [l] + xs + v <==> AllAre(xs, l) && u == [l] + v
  {
    if xs == [] {
      assert xs + u == u && [l] + xs + v == [l] + v;
    } else {
      var ys := xs[1..];
      assert xs == [xs[0]] + ys;
      var a, b := xs + u, [l] + xs + v;
      assert a[0] == xs[0] && b[0] == l && xs[0] in xs;
      if xs[0] == l {
        MovePast(ys, l, u, v);
        assert a == [l] + (ys + u) && b == [l] + ([l] + ys + v);
        SamePrefix([l], ys + u, [l] + ys + v);
        assert forall x :: x in xs <==> x == l || x in ys;
      }
    }
  }

  lemma SamePrefix(p: seq<string>, a: seq<string>, b: seq<string>)
    ensures p + a == p + b <==> a == b
  {
    if p + a == p + b {
      assert a == (p + a)[|p|..] && b == (p + b)[|p|..];
    }
  }

  /** From cursors at most one line apart, the applier writes what the diff means exactly when the
      insertions it misplaces are harmless. */
  lemma {:induction false} PlacedIsPatched(base: seq<string>, c: nat, b: nat, hs: seq<Hunk>)
    requires Valid(base, b, hs) && c <= b <= c + 1
    ensures Placed(base, c, hs) == base[c..b] + Patched(base, b, hs) <==> Harmless(base, c, hs)
    decreases |hs|
  {
    hide *;
    ValidBound(base, b, hs);
    if hs == [] {
      NoHunks(base, c, b);
    } else {
      var h, n, t := hs[0], |Old(hs[0].body)|, TrueAt(hs[0]);
      var at := MoveTo(c, Target(h.start), |base|);
      Places(base, c, b, hs);
      PlacedStep(base, c, hs);
      PatchedStep(base, c, b, hs);
      HarmlessStep(base, c, b, hs);
      PlacedIsPatched(base, at + n, t + n, hs[1..]);
      var x, p, q := New(h.body), Placed(base, at + n, hs[1..]), Patched(base, t + n, hs[1..]);
      if at == t {
        assert base[at + n..t + n] + q == q;
        SamePrefix(base[c..t] + x, p, q);
      } else {
        Lagging(base, c, at, t, x, p, q);
      }
    }
  }

  lemma NoHunks(base: seq<string>, c: nat, b: nat)
    requires c <= b <= |base|
    ensures Valid(base, b, []) && Harmless(base, c, [])
    ensures Placed(base, c, []) == base[c..b] + Patched(base, b, [])
  {
    assert base[c..] == base[c..b] + base[b..];
  }

  lemma PatchedStep(base: seq<string>, c: nat, b: nat, hs: seq<Hunk>)
    requires hs != [] && Valid(base, b, hs) && c <= b
    ensures var h, n, t := hs[0], |Old(hs[0].body)|, TrueAt(hs[0]);
            && c <= t && t + n <= |base| && Valid(base, t + n, hs[1..])
            && base[c..b] + Patched(base, b, hs) == base[c..t] + New(h.body) + Patched(base, t + n, hs[1..])
  {
    var h, n, t := hs[0], |Old(hs[0].body)|, TrueAt(hs[0]);
    hide Old, New;
    PatchedUnfold(base, b, hs);
    hide *;
    Rejoin(base, c, b, t, New(h.body), Patched(base, t + n, hs[1..]));
  }

  lemma PatchedUnfold(base: seq<string>, b: nat, hs: seq<Hunk>)
    requires hs != [] && Valid(base, b, hs)
    ensures var h, n, t := hs[0], |Old(hs[0].body)|, TrueAt(hs[0]);
            && b <= t && t + n <= |base| && Valid(base, t + n, hs[1..])
            && Patched(base, b, hs) == base[b..t] + New(h.body) + Patched(base, t + n, hs[1..])
  {
    hide Old, New;
  }

  lemma Rejoin(base: seq<string>, c: nat, b: nat, t: nat, x: seq<string>, q: seq<string>)
    requires c <= b <= t <= |base|
    ensures base[c..b] + (base[b..t] + x + q) == base[c..t] + x + q
  {
    assert base[c..b] + base[b..t] == base[c..t];
    assert base[c..b] + (base[b..t] + x + q) == base[c..b] + base[b..t] + x + q;
  }

  lemma HarmlessStep(base: seq<string>, c: nat, b: nat, hs: seq<Hunk>)
    requires hs != [] && Valid(base, b, hs) && c <= b <= c + 1
    ensures var h, n, t := hs[0], |Old(hs[0].body)|, TrueAt(hs[0]);
            var at := MoveTo(c, Target(h.start), |base|);
            Harmless(base, c, hs) <==>
              && (at < t ==> AllAre(New(h.body), base[at]))
              && Harmless(base, at + n, hs[1..])
  {
    var h, n, t := hs[0], |Old(hs[0].body)|, TrueAt(hs[0]);
    var at := MoveTo(c, Target(h.start), |base|);
    Places(base, c, b, hs);
    assert h.start <= |base|;
    hide Old, New, Valid, AllAre;
    if n == 0 && h.start > c {
      assert at + n == at == h.start - 1 && at < t;
    } else if n == 0 {
      assert at == c == t;
    } else {
      assert at == t == h.start - 1;
    }
  }

  /** The step in which the applier stops one line short. */
  lemma Lagging(base: seq<string>, c: nat, at: nat, t: nat, x: seq<string>, p: seq<string>, q: seq<string>)
    requires c <= at && t == at + 1 <= |base|
    ensures base[c..at] + x + p == base[c..t] + x + q <==>
            AllAre(x, base[at]) && p == base[at..t] + q
  {
    var l := base[at];
    assert base[c..t] == base[c..at] + [l] && base[at..t] == [l];
    assert base[c..at] + x + p == base[c..at] + (x + p);
    assert base[c..at] + [l] + x + q == base[c..at] + ([l] + x + q);
    SamePrefix(base[c..at], x + p, [l] + x + q);
    MovePast(x, l, p, q);
  }

  /** For every base and every ordered, non-overlapping hunk list, applying its text never fails,
      and gives the base with each old side replaced by the new side exactly when `Harmless`. */
  lemma AppliesAsMeant(base: seq<string>, hs: seq<Hunk>)
    requires Valid(base, 0, hs)
    ensures var r := Apply(base, 0, DiffText(hs), 0, false);
            r.Success? && (News(r.value) == Patched(base, 0, hs) <==> Harmless(base, 0, hs))
  {
    var diff := DiffText(hs);
    assert diff[0..] == diff;
    AppliesPlaced(base, 0, 0, diff, 0, hs);
    PlacedIsPatched(base, 0, 0, hs);
    assert base[0..0] + Patched(base, 0, hs) == Patched(base, 0, hs);
  }

  /** Hunks that all touch or quote a base line are applied as meant. */
  lemma {:induction false} TouchingIsHarmless(base: seq<string>, b: nat, hs: seq<Hunk>)
    requires Valid(base, b, hs) && forall h | h in hs :: Old(h.body) != []
    ensures Harmless(base, b, hs)
    decreases |hs|
  {
    if hs != [] {
      assert hs[0] in hs;
      TouchingIsHarmless(base, TrueAt(hs[0]) + |Old(hs[0].body)|, hs[1..]);
    }
  }

  /** A pure insertion is not: adding `x` after line `a` puts it before. */
  lemma InsertionMisplaced()
    ensures var hs := [Hunk(1, 2, [Add("x")])];
            && Valid(["a"], 0, hs)
            && Patched(["a"], 0, hs) == ["a", "x"]
            && Placed(["a"], 0, hs) == ["x", "a"]
  {
    var body := [Add("x")];
    assert body[1..] == [];
    assert Old(body) == [] && New(body) == ["x"];
    var hs := [Hunk(1, 2, body)];
    assert hs[1..] == [];
  }
}
