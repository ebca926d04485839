/** The applier on whole texts: how lines are cut from a text and put together again, and that a diff
    applied to a text changes its lines as meant. */
module DiffTexts {
  import opened Text
  import opened Wrappers
  import opened UnifiedDiff
  import opened DiffProofs

  // ---- Texts and their lines -----------------------------------------------------------------------

  /** A line a text can hold: no newline in it, and no carriage return at its end. */
  predicate PlainLine(l: string)
  {
    '\n' !in l && (l == "" || l[|l| - 1] != '\r')
  }

  /** The lines, each followed by a newline, or by a carriage return and a newline. */
  function Ended(lines: seq<string>, crs: seq<bool>): (s: string)
    requires |crs| == |lines|
  {
    if lines == [] then ""
    else lines[0] + (if crs[0] then "\r\n" else "\n") + Ended(lines[1..], crs[1..])
  }

  /** A text up to its first newline is one line. */
  lemma {:induction false} SplitLine(cur: string, l: string, rest: string)
    requires '\n' !in l
    ensures SplitFrom(cur, l + ("\n" + rest)) == [DropCr(cur + l)] + SplitFrom("", rest)
    decreases |l|
  {
    var s := l + ("\n" + rest);
    if l == "" {
      assert s == "\n" + rest && s[0] == '\n' && s[1..] == rest && cur + l == cur;
    } else {
      assert s[0] == l[0] && s[1..] == l[1..] + ("\n" + rest);
      assert (cur + [l[0]]) + l[1..] == cur + l;
      hide DropCr;
      SplitLine(cur + [l[0]], l[1..], rest);
    }
  }

  lemma {:induction false} SplitLast(cur: string, l: string)
    requires '\n' !in l
    ensures SplitFrom(cur, l) == if cur + l == "" then [] else [DropCr(cur + l)]
    decreases |l|
  {
    if l == "" {
      assert cur + l == cur;
    } else {
      assert (cur + [l[0]]) + l[1..] == cur + l;
      hide DropCr;
      SplitLast(cur + [l[0]], l[1..]);
    }
  }

  lemma DropsCr(l: string)
    requires PlainLine(l)
    ensures DropCr(l) == l && DropCr(l + "\r") == l && '\n' !in l + "\r"
  {
    assert (l + "\r")[..|l|] == l;
  }

  /** Plain lines, each ended in either way, and what comes after them. */
  lemma {:induction false} SplitEnded(lines: seq<string>, crs: seq<bool>, rest: string)
    requires |crs| == |lines| && forall l | l in lines :: PlainLine(l)
    ensures SplitFrom("", Ended(lines, crs) + rest) == lines + SplitFrom("", rest)
    decreases |lines|
  {
    hide *;
    if lines == [] {
      NoneEnded(rest);
      assert lines + SplitFrom("", rest) == SplitFrom("", rest) && crs == [];
    } else {
      var l, tail := lines[0], Ended(lines[1..], crs[1..]) + rest;
      assert l in lines && forall x | x in lines[1..] :: x in lines;
      EndedStep(lines, crs, rest);
      SplitOne(l, crs[0], tail);
      SplitEnded(lines[1..], crs[1..], rest);
      assert lines == [l] + lines[1..];
    }
  }

  lemma SplitOne(l: string, cr: bool, tail: string)
    requires PlainLine(l)
    ensures SplitFrom("", (if cr then l + "\r" else l) + ("\n" + tail)) == [l] + SplitFrom("", tail)
  {
    hide *;
    DropsCr(l);
    NoNewline(l);
    var body := if cr then l + "\r" else l;
    assert "" + body == body;
    SplitLine("", body, tail);
  }

  lemma NoneEnded(rest: string)
    ensures Ended([], []) + rest == rest
  {
  }

  lemma EndedStep(lines: seq<string>, crs: seq<bool>, rest: string)
    requires |crs| == |lines| && lines != []
    ensures Ended(lines, crs) + rest ==
            (if crs[0] then lines[0] + "\r" else lines[0]) + ("\n" + (Ended(lines[1..], crs[1..]) + rest))
  {
    assert "\r\n" == "\r" + "\n";
  }

  lemma NoNewline(l: string)
    requires PlainLine(l)
    ensures '\n' !in l
  {
  }

  /** Splitting plain lines with their ends, of either kind and mixed, gives the lines back. */
  lemma SplitWhole(lines: seq<string>, crs: seq<bool>)
    requires |crs| == |lines| && forall l | l in lines :: PlainLine(l)
    ensures SplitFrom("", Ended(lines, crs)) == lines
  {
    SplitEnded(lines, crs, "");
    assert Ended(lines, crs) + "" == Ended(lines, crs) && lines + [] == lines;
  }

  /** So does splitting them with a last line that has no end, unless it is empty. */
  lemma SplitOpen(lines: seq<string>, crs: seq<bool>, last: string)
    requires |crs| == |lines| && (forall l | l in lines :: PlainLine(l)) && PlainLine(last) && last != ""
    ensures SplitFrom("", Ended(lines, crs) + last) == lines + [last]
  {
    hide SplitFrom, PlainLine, DropCr;
    SplitEnded(lines, crs, last);
    DropsCr(last);
    NoNewline(last);
    SplitLast("", last);
    assert "" + last == last;
  }

  /** No split line holds a newline. */
  lemma {:induction false} SplitClean(cur: string, s: string, l: string)
    requires '\n' !in cur && l in SplitFrom(cur, s)
    ensures '\n' !in l
    decreases |s|
  {
    if s != "" && s[0] == '\n' {
      if l != DropCr(cur) {
        assert l in SplitFrom("", s[1..]);
        SplitClean("", s[1..], l);
      }
    } else if s != "" {
      SplitClean(cur + [s[0]], s[1..], l);
    }
  }

  /** How the lines of a text end: with a newline or a carriage return and a newline, but for the last
      one, which may have no end or only a carriage return. */
  predicate Ends(e: seq<string>)
  {
    && (forall i | 0 <= i < |e| - 1 :: e[i] == "\n" || e[i] == "\r\n")
    && (e == [] || e[|e| - 1] in ["\n", "\r\n", "", "\r"])
  }

  function Interleaved(lines: seq<string>, e: seq<string>): (s: string)
    requires |e| == |lines|
  {
    if lines == [] then "" else lines[0] + e[0] + Interleaved(lines[1..], e[1..])
  }

  lemma CrOrNot(cur: string) returns (cr: string)
    ensures cur == DropCr(cur) + cr && (cr == "" || cr == "\r")
  {
    cr := if cur != "" && cur[|cur| - 1] == '\r' then "\r" else "";
    if cr == "\r" {
      assert cur == cur[..|cur| - 1] + [cur[|cur| - 1]];
    } else {
      assert cur + "" == cur;
    }
  }

  /** Every text is its lines with their ends. */
  lemma {:induction false} SplitText(cur: string, s: string) returns (e: seq<string>)
    ensures var lines := SplitFrom(cur, s); |e| == |lines| && Ends(e) && cur + s == Interleaved(lines, e)
    decreases |s|
  {
    hide *;
    SplitStep(cur, s);
    if s == "" {
      assert cur + s == cur;
      if cur == "" {
        e := [];
        NoLines();
      } else {
        var cr := CrOrNot(cur);
        e := [cr];
        OneLineText(DropCr(cur), cr);
      }
    } else if s[0] == '\n' {
      var cr := CrOrNot(cur);
      var tail := SplitText("", s[1..]);
      e := [cr + "\n"] + tail;
      assert "" + s[1..] == s[1..];
      MoreEnds(cr, tail);
      MoreLines(DropCr(cur), cr, SplitFrom("", s[1..]), tail, s[1..]);
      assert s == "\n" + s[1..];
    } else {
      e := SplitText(cur + [s[0]], s[1..]);
      assert (cur + [s[0]]) + s[1..] == cur + s;
    }
  }

  lemma SplitStep(cur: string, s: string)
    ensures s == "" ==> SplitFrom(cur, s) == if cur == "" then [] else [DropCr(cur)]
    ensures s != "" && s[0] == '\n' ==> SplitFrom(cur, s) == [DropCr(cur)] + SplitFrom("", s[1..])
    ensures s != "" && s[0] != '\n' ==> SplitFrom(cur, s) == SplitFrom(cur + [s[0]], s[1..])
  {
    hide DropCr;
  }

  lemma NoLines()
    ensures Ends([]) && Interleaved([], []) == ""
  {
  }

  lemma OneLineText(l: string, cr: string)
    requires cr == "" || cr == "\r"
    ensures Ends([cr]) && Interleaved([l], [cr]) == l + cr
  {
    assert [l][1..] == [] && [cr][1..] == [];
  }

  lemma MoreEnds(cr: string, e: seq<string>)
    requires Ends(e) && (cr == "" || cr == "\r")
    ensures Ends([cr + "\n"] + e)
  {
    var f := [cr + "\n"] + e;
    assert "" + "\n" == "\n" && "\r" + "\n" == "\r\n";
    assert f[0] in ["\n", "\r\n"];
    assert forall i | 1 <= i < |f| :: f[i] == e[i - 1];
  }

  lemma MoreLines(l: string, cr: string, lines: seq<string>, e: seq<string>, text: string)
    requires |e| == |lines| && text == Interleaved(lines, e)
    ensures Interleaved([l] + lines, [cr + "\n"] + e) == (l + cr) + ("\n" + text)
  {
    var f := [cr + "\n"] + e;
    assert f[1..] == e && ([l] + lines)[1..] == lines;
    assert Interleaved([l] + lines, f) == l + (cr + "\n") + text;
    hide *;
    assert l + (cr + "\n") + text == (l + cr) + ("\n" + text);
  }

  // ---- Joining -----------------------------------------------------------------------------------------

  function NoCrs(n: nat): (crs: seq<bool>)
    ensures |crs| == n && forall i | 0 <= i < n :: !crs[i]
  {
    seq(n, i => false)
  }

  lemma {:induction false} EndedSnoc(lines: seq<string>, l: string)
    ensures Ended(lines + [l], NoCrs(|lines| + 1)) == Ended(lines, NoCrs(|lines|)) + l + "\n"
  {
    if lines == [] {
      assert lines + [l] == [l] && [l][1..] == [];
      assert NoCrs(1)[1..] == NoCrs(0);
    } else {
      var n := |lines|;
      assert (lines + [l])[1..] == lines[1..] + [l];
      assert NoCrs(n + 1)[1..] == NoCrs(n) && NoCrs(n)[1..] == NoCrs(n - 1);
      EndedSnoc(lines[1..], l);
    }
  }

  /** Joining puts a newline after every line but the last. */
  lemma {:induction false} JoinIsEnded(v: seq<string>)
    requires v != []
    ensures Join(v) == Ended(v[..|v| - 1], NoCrs(|v| - 1)) + v[|v| - 1]
    decreases |v|
  {
    var front, last := v[..|v| - 1], v[|v| - 1];
    if |v| == 1 {
      assert front == [];
      assert "" + last == last;
    } else {
      JoinIsEnded(front);
      var k := |front| - 1;
      assert front == front[..k] + [front[k]];
      EndedSnoc(front[..k], front[k]);
    }
  }

  /** Joined lines split into the same lines if and only if there are none, or the last is not empty,
      none holds a newline and none ends in a carriage return. */
  lemma JoinSplits(v: seq<string>)
    ensures SplitFrom("", Join(v)) == v <==>
            v == [] || (v[|v| - 1] != "" && forall l | l in v :: PlainLine(l))
  {
    if v == [] {
      assert Join(v) == "";
    } else if forall l | l in v :: '\n' !in l {
      JoinedLines(v);
      LastEmpty(v);
    } else {
      var l :| l in v && '\n' in l;
      if SplitFrom("", Join(v)) == v {
        SplitClean("", Join(v), l);
      }
    }
  }

  /** Splitting joined lines drops one carriage return from each, and an empty last line. */
  function Dropped(v: seq<string>): (w: seq<string>)
    ensures |w| == |v| && forall i | 0 <= i < |v| :: w[i] == DropCr(v[i])
  {
    seq(|v|, i requires 0 <= i < |v| => DropCr(v[i]))
  }

  lemma {:induction false} EndedSplits(lines: seq<string>, rest: string)
    requires forall l | l in lines :: '\n' !in l
    ensures SplitFrom("", Ended(lines, NoCrs(|lines|)) + rest) == Dropped(lines) + SplitFrom("", rest)
    decreases |lines|
  {
    hide SplitFrom, DropCr;
    if lines == [] {
      assert Ended(lines, NoCrs(0)) + rest == rest && Dropped(lines) + SplitFrom("", rest) == SplitFrom("", rest);
    } else {
      var l, n := lines[0], |lines|;
      assert NoCrs(n)[1..] == NoCrs(n - 1);
      var tail := Ended(lines[1..], NoCrs(n - 1)) + rest;
      assert l in lines && forall x | x in lines[1..] :: x in lines;
      assert Ended(lines, NoCrs(n)) + rest == l + ("\n" + tail);
      assert "" + l == l;
      SplitLine("", l, tail);
      EndedSplits(lines[1..], rest);
      assert Dropped(lines) == [DropCr(l)] + Dropped(lines[1..]);
    }
  }

  lemma JoinedLines(v: seq<string>)
    requires v != [] && forall l | l in v :: '\n' !in l
    ensures var front, last := v[..|v| - 1], v[|v| - 1];
            SplitFrom("", Join(v)) == Dropped(front) + if last == "" then [] else [DropCr(last)]
  {
    hide SplitFrom, DropCr;
    var front, last := v[..|v| - 1], v[|v| - 1];
    assert last in v && forall l | l in front :: l in v;
    JoinIsEnded(v);
    EndedSplits(front, last);
    SplitLast("", last);
    assert "" + last == last;
  }

  lemma LastEmpty(v: seq<string>)
    requires v != [] && forall l | l in v :: '\n' !in l
    ensures var front, last := v[..|v| - 1], v[|v| - 1];
            Dropped(front) + (if last == "" then [] else [DropCr(last)]) == v <==>
            last != "" && forall l | l in v :: PlainLine(l)
  {
    var front, last := v[..|v| - 1], v[|v| - 1];
    var w := Dropped(front) + if last == "" then [] else [DropCr(last)];
    if last != "" {
      assert forall i | 0 <= i < |v| :: w[i] == DropCr(v[i]);
      forall l | l in v ensures DropCr(l) == l <==> PlainLine(l) {
      }
      if w == v {
        assert forall i | 0 <= i < |v| :: DropCr(v[i]) == v[i];
      }
      if forall l | l in v :: PlainLine(l) {
        assert forall i | 0 <= i < |v| :: v[i] in v;
        assert w == v;
      }
    }
  }

  // ---- The applier on texts ------------------------------------------------------------------------------

  /** How many lines a hunk list adds. */
  function Growth(hs: seq<Hunk>): (n: int)
  {
    if hs == [] then 0 else |New(hs[0].body)| - |Old(hs[0].body)| + Growth(hs[1..])
  }

  lemma {:induction false} SameLength(base: seq<string>, c: nat, b: nat, hs: seq<Hunk>)
    requires Valid(base, b, hs) && c <= b <= c + 1
    ensures |Placed(base, c, hs)| == |base| - c + Growth(hs)
    ensures |Patched(base, b, hs)| == |base| - b + Growth(hs)
    decreases |hs|
  {
    hide *;
    ValidBound(base, b, hs);
    if hs == [] {
      NoneWritten(base, c, b);
    } else {
      var h, n := hs[0], |Old(hs[0].body)|;
      var at := MoveTo(c, Target(h.start), |base|);
      Places(base, c, b, hs);
      PlacedStep(base, c, hs);
      PatchedUnfold(base, b, hs);
      GrowthStep(hs);
      SameLength(base, at + n, TrueAt(h) + n, hs[1..]);
    }
  }

  lemma NoneWritten(base: seq<string>, c: nat, b: nat)
    requires c <= |base| && Valid(base, b, [])
    ensures b <= |base| && Placed(base, c, []) == base[c..] && Patched(base, b, []) == base[b..] && Growth([]) == 0
  {
  }

  lemma GrowthStep(hs: seq<Hunk>)
    requires hs != []
    ensures Growth(hs) == |New(hs[0].body)| - |Old(hs[0].body)| + Growth(hs[1..])
  {
  }

  /** The lines a hunk list writes. */
  predicate CleanHunks(hs: seq<Hunk>)
  {
    forall h, l | h in hs && l in New(h.body) :: '\n' !in l
  }

  lemma {:induction false} CleanResult(base: seq<string>, c: nat, b: nat, hs: seq<Hunk>)
    requires Valid(base, b, hs) && c <= b <= c + 1 && CleanHunks(hs) && forall l | l in base :: '\n' !in l
    ensures (forall l | l in Placed(base, c, hs) :: '\n' !in l) && forall l | l in Patched(base, b, hs) :: '\n' !in l
    decreases |hs|
  {
    hide *;
    ValidBound(base, b, hs);
    if hs == [] {
      NoneWritten(base, c, b);
    } else {
      var h, n := hs[0], |Old(hs[0].body)|;
      var at := MoveTo(c, Target(h.start), |base|);
      Places(base, c, b, hs);
      PlacedStep(base, c, hs);
      PatchedUnfold(base, b, hs);
      HunkClean(hs);
      CleanResult(base, at + n, TrueAt(h) + n, hs[1..]);
      ThreeClean(base[c..at], New(h.body), Placed(base, at + n, hs[1..]));
      ThreeClean(base[b..TrueAt(h)], New(h.body), Patched(base, TrueAt(h) + n, hs[1..]));
    }
  }

  lemma HunkClean(hs: seq<Hunk>)
    requires hs != [] && CleanHunks(hs)
    ensures CleanHunks(hs[1..]) && forall l | l in New(hs[0].body) :: '\n' !in l
  {
    hide New;
    assert hs[0] in hs && forall x | x in hs[1..] :: x in hs;
  }

  lemma ThreeClean(x: seq<string>, y: seq<string>, z: seq<string>)
    requires (forall l | l in x :: '\n' !in l) && (forall l | l in y :: '\n' !in l) && forall l | l in z :: '\n' !in l
    ensures forall l | l in x + y + z :: '\n' !in l
  {
  }

  /** Texts joined from as many lines without newlines are equal only if the lines are. */
  lemma {:induction false} JoinInjective(v: seq<string>, w: seq<string>)
    requires |v| == |w| && (forall l | l in v :: '\n' !in l) && (forall l | l in w :: '\n' !in l)
    ensures Join(v) == Join(w) ==> v == w
    decreases |v|
  {
    if |v| == 1 {
    } else if |v| > 1 && Join(v) == Join(w) {
      var n := |v| - 1;
      assert forall l | l in v[..n] :: l in v;
      assert forall l | l in w[..n] :: l in w;
      assert v[n] in v && w[n] in w;
      LastLineSame(Join(v[..n]), v[n], Join(w[..n]), w[n]);
      JoinInjective(v[..n], w[..n]);
      assert v == v[..n] + [v[n]] && w == w[..n] + [w[n]];
    }
  }

  /** The text after the last newline. */
  lemma LastLineSame(a: string, l: string, b: string, m: string)
    requires a + "\n" + l == b + "\n" + m && '\n' !in l && '\n' !in m
    ensures a == b && l == m
  {
    var s, t := a + "\n" + l, b + "\n" + m;
    assert s[|a|] == '\n' && t[|b|] == '\n';
    assert forall j | |a| < j < |s| :: s[j] == l[j - |a| - 1] && s[j] in l;
    assert forall j | |b| < j < |t| :: t[j] == m[j - |b| - 1] && t[j] in m;
    assert |a| == |b|;
    assert s[..|a|] == a && t[..|b|] == b && s[|a| + 1..] == l && t[|b| + 1..] == m;
  }

  /** Applying the text of an ordered, non-overlapping hunk list to a text never fails, and gives the
      patched lines with a newline between any two if and only if the list is harmless. The text then
      splits into exactly the patched lines, when these are lines a text can hold and the last is not
      empty. */
  method ApplyToText(base: string, hs: seq<Hunk>) returns (r: Result<string, string>)
    requires Valid(SplitFrom("", base), 0, hs) && CleanHunks(hs)
    ensures r.Success?
    ensures var meant := Patched(SplitFrom("", base), 0, hs);
            && (meant == [] ==> (Harmless(SplitFrom("", base), 0, hs) <==> r.value == ""))
            && (meant != [] ==>
                  var n := |meant| - 1;
                  Harmless(SplitFrom("", base), 0, hs) <==>
                  r.value == Ended(meant[..n], NoCrs(n)) + meant[n])
            && (Harmless(SplitFrom("", base), 0, hs) && (forall l | l in meant :: PlainLine(l))
                && (meant != [] ==> meant[|meant| - 1] != "") ==>
                  SplitFrom("", r.value) == meant)
  {
    hide *;
    ghost var lines := SplitFrom("", base);
    ghost var meant := Patched(lines, 0, hs);
    forall l | l in lines ensures '\n' !in l {
      SplitClean("", base, l);
    }
    AppliesAsMeant(lines, hs);
    r := ApplyUnifiedDiff(base, DiffText(hs));
    WrittenLines(lines, hs);
    JoinInjective(News(Apply(lines, 0, DiffText(hs), 0, false).value), meant);
    JoinSplits(meant);
    JoinNone();
    if meant != [] {
      JoinIsEnded(meant);
    }
  }

  lemma JoinNone()
    ensures Join([]) == ""
  {
  }

  lemma WrittenLines(lines: seq<string>, hs: seq<Hunk>)
    requires Valid(lines, 0, hs) && CleanHunks(hs) && forall l | l in lines :: '\n' !in l
    requires Apply(lines, 0, DiffText(hs), 0, false).Success?
    ensures var out, meant := News(Apply(lines, 0, DiffText(hs), 0, false).value), Patched(lines, 0, hs);
            && |out| == |meant|
            && (forall l | l in out :: '\n' !in l) && forall l | l in meant :: '\n' !in l
  {
    hide *;
    var diff := DiffText(hs);
    assert diff[0..] == diff;
    AppliesPlaced(lines, 0, 0, diff, 0, hs);
    SameLength(lines, 0, 0, hs);
    CleanResult(lines, 0, 0, hs);
  }

  // ---- Headers and mismatches -------------------------------------------------------------------------------

  /** The number after a header line's first dash is where the hunk goes; with no dash it is 0. */
  lemma OldStartMeaning(pre: string, n: nat, rest: string)
    requires '-' !in pre && '\0' !in pre && '\0' !in rest && (rest == "" || !IsDigit(rest[0]))
    ensures OldStart(pre) == 0
    ensures OldStart(pre + ("-" + (ToString(n) + rest))) == n
  {
    NoNulAt(pre);
    NoCharAt(pre, '-');
    var tail := ToString(n) + rest;
    var line := pre + ("-" + tail);
    assert '\0' !in ToString(n);
    NoNulAt(line);
    DashAt(pre, tail);
    ScanPrinted(n, rest);
    assert IntToString(n) == ToString(n);
    assert line[|pre| + 1..] == tail;
    hide Find, ScanInt, CStr, ToString, IntToString;
  }

  lemma NoCharAt(s: string, c: char)
    requires c !in s
    ensures Find(s, [c], 0) == -1
  {
    forall p: nat ensures !OccursAt(s, [c], p) {
      OccursChars(s, [c], p);
    }
  }

  lemma NoNulAt(s: string)
    requires '\0' !in s
    ensures CStr(s) == s
  {
    NoCharAt(s, '\0');
  }

  lemma DashAt(pre: string, tail: string)
    requires '-' !in pre
    ensures Find(pre + ("-" + tail), "-", 0) == |pre|
  {
    var s := pre + ("-" + tail);
    OccursChars(s, "-", |pre|);
    forall p: nat | p < |pre| ensures !OccursAt(s, "-", p) {
      OccursChars(s, "-", p);
    }
    FindUnique(s, "-", 0, |pre|);
  }

  /** A line of a hunk that is to match a base line and does not ends the work with that line's number,
      counted from 1; so does a line with an unknown tag, and a line that starts with a backslash is
      passed over. */
  lemma MismatchReported(base: seq<string>, c: nat, diff: seq<string>, i: nat, body: string)
    requires c <= |base| && i < |diff| && (c == |base| || base[c] != body)
    ensures diff[i] == " " + body ==>
              Apply(base, c, diff, i, true) == Failure("context mismatch at base line " + ToString(c + 1))
    ensures diff[i] == "" && body == "" ==>
              Apply(base, c, diff, i, true) == Failure("context mismatch at base line " + ToString(c + 1))
    ensures diff[i] == "-" + body ==>
              Apply(base, c, diff, i, true) == Failure("removal mismatch at base line " + ToString(c + 1))
    ensures diff[i] == "\\" + body ==> Apply(base, c, diff, i, true) == Apply(base, c, diff, i + 1, true)
    ensures diff[i] != "" && diff[i][0] !in " -+\\@" ==>
              Apply(base, c, diff, i, true) == Failure("unknown diff line tag")
  {
    hide OldStart, MoveTo, Target, Keeps, ToString;
    assert (" " + body)[1..] == body && ("-" + body)[1..] == body;
    assert diff[i] != "" && diff[i][0] !in " -+\\@" ==> !(diff[i][0] in ['@', ' ', '-', '+', '\\']) by {
      var s := " -+\\@";
      assert s[0] == ' ' && s[1] == '-' && s[2] == '+' && s[3] == '\\' && s[4] == '@';
    }
  }
}
