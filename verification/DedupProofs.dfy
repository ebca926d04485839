/** Line dedup keeps every line and its count, and adds no alias sigil or closing tag. */
module DedupProofs {
  import opened Text
  import opened Compressor

  // ---- The collapsed form still says how many copies there were ----------------------

  ghost predicate IsMarker(line: string)
  {
    exists n: nat :: line == Marker(n)
  }

  function MarkerCount(line: string): (n: nat)
    requires |line| >= 13
  {
    Value(DigitPrefix(line[13..]))
  }

  lemma MarkerCountOf(n: nat)
    ensures |Marker(n)| >= 13 && MarkerCount(Marker(n)) == n
  {
    var d := ToString(n);
    assert Marker(n)[13..] == d + "x>\n";
    DigitPrefixOf(d, "x>\n");
    ValueToString(n);
  }

  function Copies(line: string, n: nat): (out: seq<string>)
    ensures |out| == n && forall i | 0 <= i < n :: out[i] == line
  {
    seq(n, _ => line)
  }

  /** Reads a deduplicated list of lines back: a marker repeats the line before it. */
  ghost function Undo(lines: seq<string>): (out: seq<string>)
    decreases |lines|
  {
    if lines == [] then []
    else if |lines| >= 2 && IsMarker(lines[1]) then
      var n: nat :| lines[1] == Marker(n);
      Copies(lines[0], n + 1) + Undo(lines[2..])
    else [lines[0]] + Undo(lines[1..])
  }

  lemma MarkerInjective(m: nat, n: nat)
    requires Marker(m) == Marker(n)
    ensures m == n
  {
    MarkerCountOf(m);
    MarkerCountOf(n);
  }

  lemma UndoMarked(line: string, n: nat, rest: seq<string>)
    ensures Undo([line, Marker(n)] + rest) == Copies(line, n + 1) + Undo(rest)
  {
    var l := [line, Marker(n)] + rest;
    assert l[2..] == rest;
    forall k: nat | l[1] == Marker(k) ensures k == n {
      MarkerInjective(k, n);
    }
  }

  lemma UndoPlain(line: string, rest: seq<string>)
    requires rest == [] || !IsMarker(rest[0])
    ensures Undo([line] + rest) == [line] + Undo(rest)
  {
    assert ([line] + rest)[1..] == rest;
  }

  /** The first written line is the first line of the run, not a marker. */
  lemma DedupHead(lines: seq<string>, i: nat)
    requires i < |lines|
    ensures DedupFrom(lines, i) != [] && DedupFrom(lines, i)[0] == lines[i]
  {
  }

  lemma UndoRun(line: string, run: nat, rest: seq<string>)
    requires run > 0 && !IsMarker(line)
    requires rest == [] || !IsMarker(rest[0])
    ensures Undo(RunLines(line, run) + rest) == Copies(line, run) + Undo(rest)
  {
    hide Undo, IsMarker, Marker;
    if run >= 3 {
      UndoMarked(line, run - 1, rest);
    } else if run == 2 {
      UndoPlain(line, rest);
      assert [line, line] + rest == [line] + ([line] + rest);
      UndoPlain(line, [line] + rest);
    } else {
      UndoPlain(line, rest);
    }
  }

  /** Dedup loses nothing: if no line looks like a marker, the lines can be read back. */
  lemma {:induction false} DedupReversible(lines: seq<string>, i: nat)
    requires i <= |lines|
    requires forall k | 0 <= k < |lines| :: !IsMarker(lines[k])
    ensures Undo(DedupFrom(lines, i)) == lines[i..]
    decreases |lines| - i
  {
    hide Undo, IsMarker, Marker, RunLines;
    if i == |lines| {
      UndoNothing();
    } else {
      var j := RunEnd(lines, i, i + 1);
      DedupReversible(lines, j);
      if j < |lines| {
        DedupHead(lines, j);
      }
      UndoRun(lines[i], j - i, DedupFrom(lines, j));
      assert lines[i..] == Copies(lines[i], j - i) + lines[j..];
    }
  }

  lemma UndoNothing()
    ensures Undo([]) == []
  {
  }

  // ---- No sigil and no closing tag appears -------------------------------------------

  predicate NoSigil(s: string)
  {
    '@' !in s && '$' !in s
  }

  /** A tag: it starts with `<` and has no newline or sigil. */
  predicate IsTag(t: string)
  {
    |t| >= 2 && t[0] == '<' && t[1] == '/' && '\n' !in t && NoSigil(t)
  }

  /** `s` is a list of lines: each but the last ends in a newline. */
  predicate AreLines(lines: seq<string>)
  {
    forall i | 0 <= i < |lines| - 1 :: lines[i] != "" && lines[i][|lines[i]| - 1] == '\n'
  }

  /** No line is empty, and none goes on after a newline. */
  lemma {:induction false} NewlineEndsLine(cur: string, s: string)
    requires '\n' !in cur
    ensures forall l | l in SplitFrom(cur, s) :: l != "" && '\n' !in l[..|l| - 1]
    decreases |s|
  {
    if s != "" {
      if s[0] == '\n' {
        NewlineEndsLine("", s[1..]);
        assert (cur + "\n")[..|cur|] == cur;
      } else {
        NewlineEndsLine(cur + [s[0]], s[1..]);
      }
    }
  }

  lemma {:induction false} SplitIsLines(cur: string, s: string)
    ensures Concat(SplitFrom(cur, s)) == cur + s
    ensures AreLines(SplitFrom(cur, s))
    decreases |s|
  {
    if s == "" {
      assert Concat([cur]) == cur + Concat([]);
    } else if s[0] == '\n' {
      SplitIsLines("", s[1..]);
      assert cur + s == (cur + "\n") + s[1..];
    } else {
      SplitIsLines(cur + [s[0]], s[1..]);
      assert cur + s == (cur + [s[0]]) + s[1..];
    }
  }

  /** A text without newlines cannot straddle the newline that ends `a`. */
  lemma NoStraddle(a: string, b: string, t: string)
    requires t != "" && '\n' !in t
    requires a != "" && a[|a| - 1] == '\n'
    requires !Contains(a, t) && !Contains(b, t)
    ensures !Contains(a + b, t)
  {
    forall p: nat ensures !OccursAt(a + b, t, p) {
      OccursInConcat(a, b, t, p);
      if p >= |a| {
        OccursInConcat(a, b, t, p - |a|);
      }
      OccursChars(a + b, t, p);
      assert (a + b)[|a| - 1] == '\n';
      assert p < |a| < p + |t| ==> t[|a| - 1 - p] != '\n';
    }
  }

  lemma PartOf(a: string, b: string, t: string)
    requires !Contains(a + b, t)
    ensures !Contains(a, t) && !Contains(b, t)
  {
    forall p: nat ensures !OccursAt(a, t, p) && !OccursAt(b, t, p) {
      OccursInConcat(a, b, t, p);
    }
  }

  lemma {:induction false} LinesWithout(lines: seq<string>, t: string)
    requires AreLines(lines) && IsTag(t)
    ensures !Contains(Concat(lines), t) <==> forall i | 0 <= i < |lines| :: !Contains(lines[i], t)
  {
    if lines == [] {
    } else {
      assert lines == [lines[0]] + lines[1..];
      LinesWithout(lines[1..], t);
      var a, b := lines[0], Concat(lines[1..]);
      if !Contains(a + b, t) {
        PartOf(a, b, t);
      }
      if |lines| == 1 {
        assert a + b == a;
      } else if !Contains(a, t) && !Contains(b, t) {
        NoStraddle(a, b, t);
      }
    }
  }

  lemma MarkerClean(n: nat, t: string)
    requires IsTag(t)
    ensures !Contains(Marker(n), t) && NoSigil(Marker(n))
  {
    MarkerChars(n);
    hide Marker, NoSigil;
    forall p: nat ensures !OccursAt(Marker(n), t, p) {
      OccursChars(Marker(n), t, p);
    }
  }

  lemma MarkerChars(n: nat)
    ensures var m := Marker(n); |m| > 1 && m[1] == 'i' && forall k | 0 < k < |m| :: m[k] != '<'
    ensures NoSigil(Marker(n))
  {
    var a, d, b, m := "<icmg-repeat ", ToString(n), "x>\n", Marker(n);
    forall k | 0 <= k < |m| ensures m[k] != '@' && m[k] != '$' && (k > 0 ==> m[k] != '<') {
      assert m[k] == if k < |a| then a[k] else if k < |a| + |d| then d[k - |a|] else b[k - |a| - |d|];
      assert |a| <= k < |a| + |d| ==> IsDigit(d[k - |a|]);
    }
  }

  /** Every written line is one of the input lines or a marker, in line form. */
  lemma {:induction false} DedupLinesAre(lines: seq<string>, i: nat)
    requires i <= |lines| && AreLines(lines)
    ensures AreLines(DedupFrom(lines, i))
    ensures forall k | 0 <= k < |DedupFrom(lines, i)| ::
              DedupFrom(lines, i)[k] in lines || IsMarker(DedupFrom(lines, i)[k])
    decreases |lines| - i
  {
    if i < |lines| {
      var j := RunEnd(lines, i, i + 1);
      DedupLinesAre(lines, j);
      var run := RunLines(lines[i], j - i);
      if j - i >= 3 {
        assert IsMarker(run[1]);
      }
      assert DedupFrom(lines, i) == run + DedupFrom(lines, j);
    }
  }

  lemma {:induction false} SigilFreeLines(lines: seq<string>)
    ensures NoSigil(Concat(lines)) <==> forall i | 0 <= i < |lines| :: NoSigil(lines[i])
  {
    if lines != [] {
      assert lines == [lines[0]] + lines[1..];
      SigilFreeLines(lines[1..]);
    }
  }

  /** Dedup of a text free of sigils and of `tag` is free of both. */
  lemma DedupClean(s: string, tag: string)
    requires IsTag(tag) && NoSigil(s) && !Contains(s, tag)
    ensures NoSigil(Dedup(s)) && !Contains(Dedup(s), tag)
  {
    var lines := SplitFrom("", s);
    SplitIsLines("", s);
    assert "" + s == s;
    LinesWithout(lines, tag);
    SigilFreeLines(lines);
    var out := DedupFrom(lines, 0);
    DedupLinesAre(lines, 0);
    forall k | 0 <= k < |out| ensures NoSigil(out[k]) && !Contains(out[k], tag) {
      if out[k] !in lines {
        var n: nat :| out[k] == Marker(n);
        MarkerClean(n, tag);
      }
    }
    LinesWithout(out, tag);
    SigilFreeLines(out);
  }

  lemma DedupSigils(input: string)
    requires NoSigil(input)
    ensures NoSigil(Dedup(input))
  {
    // A tag longer than the text is not in it.
    var tag := "</" + seq(|input|, i => 'x');
    assert forall i | 2 <= i < |tag| :: tag[i] == 'x';
    assert forall p: nat :: !OccursAt(input, tag, p);
    DedupClean(input, tag);
  }
}
