/** What compression decides and does: which inputs it passes through, how runs of lines and phrases
    disappear from the body, and that the whole way out and back is lossless. */
module CompressorEffect {
  import opened Text
  import opened Wrappers
  import opened Compressor
  import opened DedupProofs
  import opened CompressorRoundTrip
  import opened CompressorLossless

  // ---- What is passed through -----------------------------------------------------------------

  ghost predicate EndsIn(s: string, e: string)
  {
    exists front: string :: s == front + e
  }

  /** A text is passed through when it is short, when it is source code by its kind, or when a cache
      mark in it is to be respected. */
  ghost predicate PassedThrough(o: Options, input: string, kind: string)
  {
    || |input| <= 4 * (o.thresholdTok - 1)
    || kind == "code" || kind == "source"
    || EndsIn(kind, ".cs") || EndsIn(kind, ".ts") || EndsIn(kind, ".tsx") || EndsIn(kind, ".cpp")
    || EndsIn(kind, ".cc") || EndsIn(kind, ".cxx") || EndsIn(kind, ".hpp") || EndsIn(kind, ".h")
    || EndsIn(kind, ".py") || EndsIn(kind, ".rs") || EndsIn(kind, ".go") || EndsIn(kind, ".java")
    || EndsIn(kind, ".kt") || EndsIn(kind, ".swift") || EndsIn(kind, ".m") || EndsIn(kind, ".mm")
    || (o.respectCacheSentinel
        && exists p: nat :: OccursAt(input, "<<CACHED>>", p) || OccursAt(input, "<<cached>>", p))
  }

  lemma EndsInIs(s: string, e: string)
    ensures EndsIn(s, e) <==> EndsWith(s, e)
  {
    if EndsIn(s, e) {
      var front :| s == front + e;
    }
    if EndsWith(s, e) {
      assert s == s[..|s| - |e|] + e;
    }
  }

  lemma KindMeaning(kind: string)
    ensures IsSourceCodeKind(kind) <==>
            || kind == "code" || kind == "source"
            || EndsIn(kind, ".cs") || EndsIn(kind, ".ts") || EndsIn(kind, ".tsx") || EndsIn(kind, ".cpp")
            || EndsIn(kind, ".cc") || EndsIn(kind, ".cxx") || EndsIn(kind, ".hpp") || EndsIn(kind, ".h")
            || EndsIn(kind, ".py") || EndsIn(kind, ".rs") || EndsIn(kind, ".go") || EndsIn(kind, ".java")
            || EndsIn(kind, ".kt") || EndsIn(kind, ".swift") || EndsIn(kind, ".m") || EndsIn(kind, ".mm")
  {
    FirstEight(kind);
    SecondEight(kind);
    hide EndsWith, EndsIn;
    var x := [".cs", ".ts", ".tsx", ".cpp", ".cc", ".cxx", ".hpp", ".h"];
    var y := [".py", ".rs", ".go", ".java", ".kt", ".swift", ".m", ".mm"];
    assert SOURCE_EXTENSIONS == x + y;
    EitherOf(kind, x, y);
  }

  lemma EitherOf(kind: string, x: seq<string>, y: seq<string>)
    ensures (exists e | e in x + y :: EndsWith(kind, e)) <==>
            (exists e | e in x :: EndsWith(kind, e)) || (exists e | e in y :: EndsWith(kind, e))
  {
    hide EndsWith;
    assert forall e :: e in x + y <==> e in x || e in y;
  }

  lemma FirstEight(kind: string)
    ensures (exists e | e in [".cs", ".ts", ".tsx", ".cpp", ".cc", ".cxx", ".hpp", ".h"] :: EndsWith(kind, e)) <==>
            || EndsIn(kind, ".cs") || EndsIn(kind, ".ts") || EndsIn(kind, ".tsx") || EndsIn(kind, ".cpp")
            || EndsIn(kind, ".cc") || EndsIn(kind, ".cxx") || EndsIn(kind, ".hpp") || EndsIn(kind, ".h")
  {
    hide *;
    var x := [".cs", ".ts", ".tsx", ".cpp", ".cc", ".cxx", ".hpp", ".h"];
    AnyOf(kind, x);
    forall e | e in x ensures EndsIn(kind, e) <==> EndsWith(kind, e) {
      EndsInIs(kind, e);
    }
  }

  lemma SecondEight(kind: string)
    ensures (exists e | e in [".py", ".rs", ".go", ".java", ".kt", ".swift", ".m", ".mm"] :: EndsWith(kind, e)) <==>
            || EndsIn(kind, ".py") || EndsIn(kind, ".rs") || EndsIn(kind, ".go") || EndsIn(kind, ".java")
            || EndsIn(kind, ".kt") || EndsIn(kind, ".swift") || EndsIn(kind, ".m") || EndsIn(kind, ".mm")
  {
    hide *;
    var x := [".py", ".rs", ".go", ".java", ".kt", ".swift", ".m", ".mm"];
    AnyOf(kind, x);
    forall e | e in x ensures EndsIn(kind, e) <==> EndsWith(kind, e) {
      EndsInIs(kind, e);
    }
  }

  lemma AnyOf(kind: string, x: seq<string>)
    requires |x| == 8
    ensures (exists e | e in x :: EndsWith(kind, e)) <==>
            || EndsWith(kind, x[0]) || EndsWith(kind, x[1]) || EndsWith(kind, x[2]) || EndsWith(kind, x[3])
            || EndsWith(kind, x[4]) || EndsWith(kind, x[5]) || EndsWith(kind, x[6]) || EndsWith(kind, x[7])
  {
    hide EndsWith;
    assert x[0] in x && x[1] in x && x[2] in x && x[3] in x && x[4] in x && x[5] in x && x[6] in x && x[7] in x;
  }

  lemma DecidesSo(o: Options, input: string, kind: string)
    ensures ShouldCompress(o, input, kind) <==> !PassedThrough(o, input, kind)
  {
    KindMeaning(kind);
    hide IsSourceCodeKind, EndsIn, OccursAt, Find;
  }

  // ---- Lines --------------------------------------------------------------------------------------

  function Copies(l: string, n: nat): (lines: seq<string>)
    ensures |lines| == n && forall i | 0 <= i < n :: lines[i] == l
  {
    seq(n, i => l)
  }

  lemma {:induction false} RunOf(l: string, n: nat, rest: seq<string>, j: nat)
    requires 0 < j <= n && (rest == [] || rest[0] != l)
    ensures RunEnd(Copies(l, n) + rest, 0, j) == n
    decreases n - j
  {
    var lines := Copies(l, n) + rest;
    assert lines[0] == l;
    if j < n {
      assert lines[j] == l;
      RunOf(l, n, rest, j + 1);
    } else {
      assert rest != [] ==> lines[n] == rest[0];
    }
  }

  lemma {:induction false} ShiftedRun(lines: seq<string>, n: nat, i: nat, j: nat)
    requires n <= |lines| && i < j && n + j <= |lines|
    ensures RunEnd(lines, n + i, n + j) == n + RunEnd(lines[n..], i, j)
    decreases |lines| - j
  {
    if n + j < |lines| && lines[n + j] == lines[n + i] {
      ShiftedRun(lines, n, i, j + 1);
    }
  }

  lemma {:induction false} Shifted(lines: seq<string>, n: nat, i: nat)
    requires n + i <= |lines|
    ensures DedupFrom(lines, n + i) == DedupFrom(lines[n..], i)
    decreases |lines| - n - i
  {
    hide *;
    if n + i < |lines| {
      ShiftedRun(lines, n, i, i + 1);
      var j := RunEnd(lines[n..], i, i + 1);
      Shifted(lines, n, j);
      assert lines[n..][i] == lines[n + i];
      DedupStep(lines, n + i);
      DedupStep(lines[n..], i);
    } else {
      DedupEnd(lines);
      DedupEnd(lines[n..]);
    }
  }

  lemma DedupEnd(lines: seq<string>)
    ensures DedupFrom(lines, |lines|) == []
  {
  }

  lemma DedupStep(lines: seq<string>, i: nat)
    requires i < |lines|
    ensures var j := RunEnd(lines, i, i + 1); DedupFrom(lines, i) == RunLines(lines[i], j - i) + DedupFrom(lines, j)
  {
    hide RunLines, RunEnd;
  }

  /** A run of one line, as long as it goes: one stays; two stay; of more the first stays and a
      marker counts the others. */
  lemma RunCollapses(l: string, n: nat, rest: seq<string>)
    requires n > 0 && (rest == [] || rest[0] != l)
    ensures DedupFrom([], 0) == []
    ensures DedupFrom(Copies(l, n) + rest, 0) ==
            (if n == 1 then [l] else if n == 2 then [l, l]
             else [l, "<icmg-repeat " + ToString(n - 1) + "x>\n"])
            + DedupFrom(rest, 0)
  {
    var lines := Copies(l, n) + rest;
    assert lines[0] == l;
    RunOf(l, n, rest, 1);
    Shifted(lines, n, 0);
    assert lines[n..] == rest;
    hide RunEnd, ToString;
    RunLinesAre(l, n);
    assert DedupFrom(lines, 0) == RunLines(l, n) + DedupFrom(lines, n);
  }

  lemma RunLinesAre(l: string, n: nat)
    requires n > 0
    ensures RunLines(l, n) ==
            if n == 1 then [l] else if n == 2 then [l, l] else [l, "<icmg-repeat " + ToString(n - 1) + "x>\n"]
  {
    hide ToString;
  }

  // ---- Phrases ----------------------------------------------------------------------------------------

  /** No plain tokens in a row spell `p`. */
  predicate NoRun(toks: seq<Token>, p: string)
  {
    toks == [] || (!(Lits(p) <= toks) && NoRun(toks[1..], p))
  }

  lemma {:induction false} NoRunDrop(toks: seq<Token>, p: string, k: nat)
    requires NoRun(toks, p) && k <= |toks|
    ensures NoRun(toks[k..], p)
  {
    if k > 0 {
      NoRunDrop(toks[1..], p, k - 1);
      assert toks[1..][k - 1..] == toks[k..];
    }
  }

  /** Plain tokens in front stay in front. */
  lemma {:induction false} FrontWas(toks: seq<Token>, needle: string, alias: string, q: string)
    requires needle != "" && Lits(q) <= Retoken(toks, needle, alias)
    ensures Lits(q) <= toks
    decreases |q|
  {
    if q != "" {
      RetokenStep(toks, needle, alias);
      var out := Retoken(toks, needle, alias);
      assert out[0] == Lits(q)[0] == Lit(q[0]);
      hide Retoken;
      assert toks != [] && !(Lits(needle) <= toks);
      assert out[1..] == Retoken(toks[1..], needle, alias);
      assert Lits(q)[1..] == Lits(q[1..]);
      assert Lits(q[1..]) <= out[1..];
      FrontWas(toks[1..], needle, alias, q[1..]);
      assert Lits(q) == [toks[0]] + Lits(q[1..]);
    }
  }

  /** Putting aliases for one phrase leaves no run of it, and makes no run of another. */
  lemma {:induction false} RetokenRuns(toks: seq<Token>, needle: string, alias: string, p: string)
    requires needle != "" && p != "" && (p == needle || NoRun(toks, p))
    ensures NoRun(Retoken(toks, needle, alias), p)
    decreases |toks|
  {
    RetokenStep(toks, needle, alias);
    var out := Retoken(toks, needle, alias);
    if toks == [] {
    } else if Lits(needle) <= toks {
      if p != needle { NoRunDrop(toks, p, |needle|); }
      RetokenRuns(toks[|needle|..], needle, alias, p);
      assert out[1..] == Retoken(toks[|needle|..], needle, alias);
      assert Lits(p)[0] != out[0];
    } else {
      if Lits(p) <= out {
        FrontWas(toks, needle, alias, p);
      }
      RetokenRuns(toks[1..], needle, alias, p);
      assert out[1..] == Retoken(toks[1..], needle, alias);
    }
  }

  /** A phrase that the body does not hold is not spelled by its tokens. */
  lemma {:induction false} AbsentNoRun(toks: seq<Token>, p: string)
    requires p != "" && !Contains(Render(toks), p)
    ensures NoRun(toks, p)
    decreases |toks|
  {
    if toks != [] {
      hide Contains, Render;
      if Lits(p) <= toks {
        assert toks == Lits(p) + toks[|p|..];
        RenderConcat(Lits(p), toks[|p|..]);
        LitsRender(p, map[]);
        FrontHolds(p, Render(toks[|p|..]));
      }
      RenderStep(toks);
      RestHolds(Spell(toks[0]), Render(toks[1..]), p);
      AbsentNoRun(toks[1..], p);
    }
  }

  lemma FrontHolds(p: string, u: string)
    ensures Contains(p + u, p)
  {
    assert (p + u)[0..|p|] == p;
    assert OccursAt(p + u, p, 0);
  }

  lemma RestHolds(w: string, u: string, p: string)
    ensures Contains(u, p) ==> Contains(w + u, p)
  {
    if Contains(u, p) {
      var k: nat :| OccursAt(u, p, k);
      OccursInConcat(w, u, p, k);
      assert OccursAt(w + u, p, |w| + k);
    }
  }

  /** The seed stage leaves no run of a seed, and makes none of another phrase. */
  lemma {:induction false} SeedRuns(st: State, toks: seq<Token>, text: string, seeds: seq<string>, idx: nat, p: string)
    requires Stage(st, toks, text) && NoCutSeeds(st, toks, seeds, idx) && FreeFrom(st.glossary, "@S", idx)
    requires forall s | s in seeds :: s == "" || PlainPhrase(s)
    requires p != "" && (p in seeds || NoRun(toks, p))
    ensures NoRun(SeedTokens(st, toks, seeds, idx), p)
    decreases |seeds|
  {
    hide Stage, FreeFrom, NoCut, PlainPhrase, Mint, Contains, Retoken, NoRun;
    if seeds != [] {
      assert p in seeds ==> p == seeds[0] || p in seeds[1..];
      StageBody(st, toks, text);
      if seeds[0] == "" || !Contains(st.body, seeds[0]) {
        if p == seeds[0] { AbsentNoRun(toks, p); }
        SeedRuns(st, toks, text, seeds[1..], idx, p);
      } else {
        var alias := "@S" + ToString(idx);
        assert seeds[0] in seeds;
        if p == seeds[0] || NoRun(toks, p) { RetokenRuns(toks, seeds[0], alias, p); }
        MintStage(st, toks, text, "@S", idx, seeds[0]);
        MintFree(st, "@S", idx, seeds[0]);
        SeedRuns(Mint(st, alias, seeds[0]), Retoken(toks, seeds[0], alias), text, seeds[1..], idx + 1, p);
      }
    }
  }

  lemma StageBody(st: State, toks: seq<Token>, text: string)
    requires Stage(st, toks, text)
    ensures Render(toks) == st.body
  {
  }

  lemma {:induction false} RankedRuns(toks: seq<Token>, prefix: string, ranked: seq<string>, idx: nat, p: string)
    requires (forall s | s in ranked :: s != "") && p != "" && (p in ranked || NoRun(toks, p))
    ensures NoRun(RankedTokens(toks, prefix, ranked, idx), p)
    decreases |ranked|
  {
    hide Retoken, NoRun;
    if ranked != [] {
      assert ranked[0] in ranked && forall s | s in ranked[1..] :: s in ranked;
      assert p in ranked ==> p == ranked[0] || p in ranked[1..];
      var alias := prefix + ToString(idx);
      if p == ranked[0] || NoRun(toks, p) { RetokenRuns(toks, ranked[0], alias, p); }
      RankedRuns(Retoken(toks, ranked[0], alias), prefix, ranked[1..], idx + 1, p);
    }
  }

  lemma {:induction false} RunAt(toks: seq<Token>, p: string, k: nat)
    requires NoRun(toks, p) && k + |p| <= |toks| && p != ""
    ensures toks[k..k + |p|] != Lits(p)
  {
    if k == 0 {
      assert toks[..|p|] <= toks;
    } else {
      RunAt(toks[1..], p, k - 1);
      hide *;
      var n := |p|;
      assert toks[1..][k - 1..k - 1 + n] == toks[k..k + n];
    }
  }

  /** When nothing is cut, every seed and candidate is gone from the finished body but for what starts
      inside an alias, whether it got an alias or was not there. */
  lemma AllReplaced(input: string, seeds: seq<string>, paths: seq<string>, idents: seq<string>, p: string, k: nat)
    requires NoSigil(input) && PlainPhrases(seeds, paths, idents) && NoCutRun(input, seeds, paths, idents)
    requires p in seeds + paths + idents && p != ""
    ensures var st := Aliased(input, seeds, paths, idents);
            OccursAt(st.body, p, k) ==> InsideAlias(st.body, k, st.glossary)
  {
    hide *;
    var st, toks := Aliased(input, seeds, paths, idents), RunTokens(input, seeds, paths, idents);
    DedupSigils(input);
    AliasedTokens(input, seeds, paths, idents);
    StageParts(st, toks, Dedup(input));
    NoRunLeft(input, seeds, paths, idents, p);
    PhrasePlain(seeds, paths, idents, p);
    if OccursAt(st.body, p, k) && !InsideAlias(st.body, k, st.glossary) {
      var j := Locate(toks, st.glossary, p, k);
      RunAt(toks, p, j);
    }
  }

  lemma PhrasePlain(seeds: seq<string>, paths: seq<string>, idents: seq<string>, p: string)
    requires PlainPhrases(seeds, paths, idents) && p in seeds + paths + idents && p != ""
    ensures NoSigil(p)
  {
    hide NoSigil, Contains;
  }

  lemma NoRunLeft(input: string, seeds: seq<string>, paths: seq<string>, idents: seq<string>, p: string)
    requires NoSigil(Dedup(input)) && PlainPhrases(seeds, paths, idents) && NoCutRun(input, seeds, paths, idents)
    requires p in seeds + paths + idents && p != ""
    ensures NoRun(RunTokens(input, seeds, paths, idents), p)
  {
    var text := Dedup(input);
    var toks := Lits(text);
    var s0 := State(text, map[]);
    LitsRender(text, map[]);
    assert Stage(s0, toks, text);
    assert p in seeds || p in paths || p in idents;
    assert (forall s | s in paths :: s != "") && forall s | s in idents :: s != "";
    hide Stage, NoCutSeeds, NoCutRanked, Dedup, SeedTokens, RankedTokens, NoRun, PlainPhrase;
    var t1 := SeedTokens(s0, toks, seeds, 1);
    var t2 := RankedTokens(t1, "@P", paths, 1);
    if p in seeds { SeedRuns(s0, toks, text, seeds, 1, p); }
    if p in seeds || p in paths { RankedRuns(t1, "@P", paths, 1, p); }
    RankedRuns(t2, "$I", idents, 1, p);
  }

  // ---- The glossary --------------------------------------------------------------------------------------

  /** The seeds that get an alias: those the body holds at their turn. */
  function Used(st: State, seeds: seq<string>, idx: nat): (used: seq<string>)
    decreases |seeds|
  {
    if seeds == [] then []
    else if seeds[0] == "" || !Contains(st.body, seeds[0]) then Used(st, seeds[1..], idx)
    else [seeds[0]] + Used(Mint(st, "@S" + ToString(idx), seeds[0]), seeds[1..], idx + 1)
  }

  /** `u` is `s` with some texts left out. */
  predicate LeftOut(u: seq<string>, s: seq<string>)
    decreases |s|
  {
    if u == [] then true
    else s != [] && ((u[0] == s[0] && LeftOut(u[1..], s[1..])) || LeftOut(u, s[1..]))
  }

  lemma {:induction false} UsedLeftOut(st: State, seeds: seq<string>, idx: nat)
    ensures LeftOut(Used(st, seeds, idx), seeds)
    decreases |seeds|
  {
    hide Contains, Mint;
    if seeds != [] {
      if seeds[0] == "" || !Contains(st.body, seeds[0]) {
        UsedLeftOut(st, seeds[1..], idx);
      } else {
        var rest := Used(Mint(st, "@S" + ToString(idx), seeds[0]), seeds[1..], idx + 1);
        UsedLeftOut(Mint(st, "@S" + ToString(idx), seeds[0]), seeds[1..], idx + 1);
        assert ([seeds[0]] + rest)[1..] == rest;
      }
    }
  }

  /** `h` is `g` with the phrases under the aliases `prefix` and the numbers from `idx` on. */
  ghost predicate Numbered(g: Glossary, prefix: string, phrases: seq<string>, idx: nat, h: Glossary)
  {
    && (forall i | 0 <= i < |phrases| :: IsAt(h, prefix, idx + i, phrases[i]))
    && (forall a | a in g && !InFamily(a, prefix, idx, |phrases|) :: a in h && h[a] == g[a])
    && (forall a | a in h :: a in g || InFamily(a, prefix, idx, |phrases|))
  }

  predicate IsAt(h: Glossary, prefix: string, n: nat, phrase: string)
  {
    var a := prefix + ToString(n);
    a in h && h[a] == phrase
  }

  ghost predicate InFamily(a: string, prefix: string, idx: nat, n: nat)
  {
    exists m: nat :: idx <= m < idx + n && a == AliasOf(prefix, m)
  }

  function AliasOf(prefix: string, n: nat): (a: string)
  {
    prefix + ToString(n)
  }

  lemma NumberedNone(g: Glossary, prefix: string, idx: nat)
    ensures Numbered(g, prefix, [], idx, g)
  {
  }

  lemma NumberedStep(g: Glossary, prefix: string, phrases: seq<string>, idx: nat, h: Glossary)
    requires Family(prefix) && phrases != []
    requires Numbered(g[prefix + ToString(idx) := phrases[0]], prefix, phrases[1..], idx + 1, h)
    ensures Numbered(g, prefix, phrases, idx, h)
  {
    hide ToString, Family;
    var n, first, rest := |phrases|, AliasOf(prefix, idx), phrases[1..];
    var g' := g[first := phrases[0]];
    assert !InFamily(first, prefix, idx + 1, n - 1) by {
      if m: nat :| idx + 1 <= m < idx + n && first == AliasOf(prefix, m) {
        AliasInjective(prefix, idx, prefix, m);
      }
    }
    assert first in g' && first in h && h[first] == phrases[0];
    forall i | 0 <= i < n ensures IsAt(h, prefix, idx + i, phrases[i]) {
      assert i > 0 ==> IsAt(h, prefix, (idx + 1) + (i - 1), rest[i - 1]);
    }
    forall a ensures InFamily(a, prefix, idx, n) <==> a == first || InFamily(a, prefix, idx + 1, n - 1) {
      FamilyStep(a, prefix, idx, n);
    }
  }

  lemma FamilyStep(a: string, prefix: string, idx: nat, n: nat)
    requires n > 0
    ensures InFamily(a, prefix, idx, n) <==> a == AliasOf(prefix, idx) || InFamily(a, prefix, idx + 1, n - 1)
  {
    hide AliasOf;
    if a == AliasOf(prefix, idx) {
      assert idx <= idx < idx + n;
    }
  }

  lemma {:induction false} SeedNumbers(st: State, seeds: seq<string>, idx: nat)
    ensures Numbered(st.glossary, "@S", Used(st, seeds, idx), idx, SeedStage(st, seeds, idx).glossary)
    decreases |seeds|
  {
    hide Contains, ReplaceAll, Numbered, ToString;
    if seeds == [] {
      NumberedNone(st.glossary, "@S", idx);
    } else if seeds[0] == "" || !Contains(st.body, seeds[0]) {
      SeedNumbers(st, seeds[1..], idx);
    } else {
      var next := Mint(st, "@S" + ToString(idx), seeds[0]);
      SeedNumbers(next, seeds[1..], idx + 1);
      var used := Used(st, seeds, idx);
      assert used[1..] == Used(next, seeds[1..], idx + 1);
      NumberedStep(st.glossary, "@S", used, idx, SeedStage(st, seeds, idx).glossary);
    }
  }

  lemma {:induction false} RankedNumbers(st: State, prefix: string, ranked: seq<string>, idx: nat)
    requires Family(prefix)
    ensures Numbered(st.glossary, prefix, ranked, idx, RankedStage(st, prefix, ranked, idx).glossary)
    decreases |ranked|
  {
    hide ReplaceAll, Numbered, ToString, Family;
    if ranked == [] {
      NumberedNone(st.glossary, prefix, idx);
    } else {
      RankedNumbers(Mint(st, prefix + ToString(idx), ranked[0]), prefix, ranked[1..], idx + 1);
      NumberedStep(st.glossary, prefix, ranked, idx, RankedStage(st, prefix, ranked, idx).glossary);
    }
  }

  /** The glossary has the seeds that were found under `@S1`, `@S2`, ... in their order, all path
      candidates under `@P1`, ... and all identifier candidates under `$I1`, ..., and nothing else. */
  lemma GlossaryMeaning(input: string, seeds: seq<string>, paths: seq<string>, idents: seq<string>)
    returns (used: seq<string>)
    ensures LeftOut(used, seeds)
    ensures var g := Aliased(input, seeds, paths, idents).glossary;
            && (forall i | 0 <= i < |used| :: IsAt(g, "@S", i + 1, used[i]))
            && (forall i | 0 <= i < |paths| :: IsAt(g, "@P", i + 1, paths[i]))
            && (forall i | 0 <= i < |idents| :: IsAt(g, "$I", i + 1, idents[i]))
            && (forall a | a in g ::
                  InFamily(a, "@S", 1, |used|) || InFamily(a, "@P", 1, |paths|) || InFamily(a, "$I", 1, |idents|))
  {
    hide SeedStage, RankedStage, Dedup, Used, ToString, IsAt, InFamily;
    var s0 := State(Dedup(input), map[]);
    var s1 := SeedStage(s0, seeds, 1);
    var s2 := RankedStage(s1, "@P", paths, 1);
    used := Used(s0, seeds, 1);
    UsedLeftOut(s0, seeds, 1);
    SeedNumbers(s0, seeds, 1);
    RankedNumbers(s1, "@P", paths, 1);
    RankedNumbers(s2, "$I", idents, 1);
    var g := Aliased(input, seeds, paths, idents).glossary;
    forall i | 0 <= i < |used| ensures IsAt(g, "@S", i + 1, used[i]) {
      assert IsAt(s1.glossary, "@S", 1 + i, used[i]);
      KeptAt(s1.glossary, "@S", 1 + i, used[i], "@P", paths, s2.glossary);
      KeptAt(s2.glossary, "@S", 1 + i, used[i], "$I", idents, g);
    }
    forall i | 0 <= i < |paths| ensures IsAt(g, "@P", i + 1, paths[i]) {
      assert IsAt(s2.glossary, "@P", 1 + i, paths[i]);
      KeptAt(s2.glossary, "@P", 1 + i, paths[i], "$I", idents, g);
    }
    forall i | 0 <= i < |idents| ensures IsAt(g, "$I", i + 1, idents[i]) {
      assert IsAt(g, "$I", 1 + i, idents[i]);
    }
  }

  /** A later family does not touch an alias. */
  lemma KeptAt(g: Glossary, p: string, n: nat, phrase: string, q: string, phrases: seq<string>, h: Glossary)
    requires Family(p) && Family(q) && p != q && IsAt(g, p, n, phrase) && Numbered(g, q, phrases, 1, h)
    ensures IsAt(h, p, n, phrase)
  {
    hide ToString, Family;
    if m: nat :| 1 <= m < 1 + |phrases| && AliasOf(p, n) == AliasOf(q, m) {
      AliasInjective(p, n, q, m);
    }
  }

  /** The text with a newline at its end. */
  function Closed(s: string): (c: string)
  {
    if s != "" && s[|s| - 1] == '\n' then s else s + "\n"
  }

  lemma ClosedIs(s: string)
    ensures s + Newline(s) == Closed(s)
  {
  }

  // ---- There and back --------------------------------------------------------------------------------------

  /** Compress, then parse and expand what came out. Exactly the inputs of `PassedThrough` are passed
      through; of every other input the text is the tagged form, with one line for each glossary
      entry, and if the run is safe it is read back, with the strict check silent, to the
      deduplicated input. */
  method ThereAndBack(o: Options, input: string, kind: string, hash: string, paths: seq<string>, idents: seq<string>)
    returns (r: CompressResult, back: Option<string>, err: Option<string>, ghost items: seq<Entry>)
    ensures r.skipped <==> PassedThrough(o, input, kind)
    ensures r.skipped ==> r.text == input && r.bodyOnly == input && r.glossary == map[]
    ensures !r.skipped ==>
              && Enumerates(items, r.glossary)
              && r.glossary == Aliased(input, o.seedPhrases, paths, idents).glossary
              && r.text == "<icmg-glossary v=1 hash=" + hash + ">\n" + Lines(items)
                           + "</icmg-glossary>\n<icmg-body>\n" + Closed(r.bodyOnly) + "</icmg-body>\n"
    ensures !r.skipped && IsHash(hash) && NoSigil(input) && !Contains(input, "</icmg-body>")
            && PlainPhrases(o.seedPhrases, paths, idents) && SafeRun(input, o.seedPhrases, paths, idents) ==>
              back == Some(Closed(Dedup(input))) && err == None
  {
    hide *;
    back, err := None, None;
    DecidesSo(o, input, kind);
    r, items := Compress(o, input, kind, hash, paths, idents);
    if r.skipped { return; }
    WrapText(hash, items, r.bodyOnly);
    ClosedIs(Dedup(input));
    BodyCloseIs();
    ghost var good := IsHash(hash) && NoSigil(input) && !Contains(input, "</icmg-body>")
                      && PlainPhrases(o.seedPhrases, paths, idents) && SafeRun(input, o.seedPhrases, paths, idents);
    if good {
      Lossless(input, hash, o.seedPhrases, paths, idents, items);
    }
    var parsed := ParsePrefaceLoop(r.text);
    if parsed.None? { return; }
    var out, e, order := Expand(parsed.value.1, parsed.value.0, true);
    back, err := Some(out), e;
  }

  /** `alias=phrase`, one a line. */
  function Lines(items: seq<Entry>): (s: string)
  {
    if items == [] then "" else Lines(items[..|items| - 1]) + items[|items| - 1].0 + "=" + items[|items| - 1].1 + "\n"
  }

  lemma {:induction false} LinesAre(items: seq<Entry>)
    ensures Lines(items) == GlossaryLines(items)
    decreases |items|
  {
    if items != [] {
      var front, e := items[..|items| - 1], items[|items| - 1];
      LinesAre(front);
      assert items == front + [e];
      hide GlossaryLines;
      GlossaryLinesAppend(front, e);
    }
  }

  lemma BodyCloseIs()
    ensures BODY_CLOSE == "</icmg-body>"
  {
  }

  lemma WrapText(hash: string, items: seq<Entry>, body: string)
    ensures Wrap(hash, items, body) ==
            "<icmg-glossary v=1 hash=" + hash + ">\n" + Lines(items)
            + "</icmg-glossary>\n<icmg-body>\n" + Closed(body) + "</icmg-body>\n"
  {
    LinesAre(items);
    ClosedIs(body);
    hide Lines, GlossaryLines, Newline, Closed;
    Tags();
    assert Wrap(hash, items, body) ==
           GLOSSARY_OPEN + " v=1 hash=" + hash + ">\n" + GlossaryLines(items)
           + GLOSSARY_CLOSE + "\n" + BODY_OPEN + "\n" + body + Newline(body) + BODY_CLOSE + "\n";
  }

  lemma Tags()
    ensures GLOSSARY_OPEN + " v=1 hash=" == "<icmg-glossary v=1 hash="
    ensures GLOSSARY_CLOSE + "\n" + BODY_OPEN + "\n" == "</icmg-glossary>\n<icmg-body>\n"
    ensures BODY_CLOSE + "\n" == "</icmg-body>\n"
  {
  }

  // ---- The strict check ---------------------------------------------------------------------------------

  /** A sigil, its letter and a digit stand at `q`. */
  predicate StandsAt(s: string, q: nat)
  {
    q + 2 < |s| && s[q..q + 2] in ["@S", "@P", "$I"] && IsDigit(s[q + 2])
  }

  /** The strict check reports the first `@S`, `@P` or `$I` that a digit follows, with all its digits. */
  lemma {:induction false} LeftoverFirst(s: string, p: nat, e: nat)
    requires StandsAt(s, p) && p + 2 < e <= |s| && AllDigits(s[p + 2..e]) && (e < |s| ==> !IsDigit(s[e]))
    requires forall q: nat | q < p :: !StandsAt(s, q)
    ensures Leftover(s) == Some(s[p..e])
    decreases p
  {
    ShapeIs(s, 0);
    if p == 0 {
      var d, rest := s[2..e], s[e..];
      assert s[2..] == d + rest && (rest != "" ==> rest[0] == s[e]);
      DigitPrefixOf(d, rest);
      assert s[..2] + s[2..e] == s[0..e];
    } else {
      var t := s[1..];
      assert !StandsAt(s, 0);
      assert t[p - 1..p + 1] == s[p..p + 2] && t[p + 1..e - 1] == s[p + 2..e] && t[p - 1..e - 1] == s[p..e];
      forall q: nat | q < p - 1 ensures !StandsAt(t, q) {
        assert !StandsAt(s, q + 1);
        assert q + 2 < |t| ==> t[q..q + 2] == s[q + 1..q + 1 + 2] && t[q + 2] == s[q + 1 + 2];
      }
      LeftoverFirst(t, p - 1, e - 1);
    }
  }

  lemma ShapeIs(s: string, p: nat)
    ensures AliasAt(s, p) <==> StandsAt(s, p)
  {
    if p + 2 < |s| {
      var t := s[p..p + 2];
      assert t[0] == s[p] && t[1] == s[p + 1] && |t| == 2;
      assert t == "@S" <==> t[0] == '@' && t[1] == 'S';
      assert t == "@P" <==> t[0] == '@' && t[1] == 'P';
      assert t == "$I" <==> t[0] == '$' && t[1] == 'I';
    }
  }

  // ---- Any preface -----------------------------------------------------------------------------------------

  /** `p` is the first place at `from` or later where `t` stands. */
  ghost predicate FirstAt(s: string, t: string, from: nat, p: nat)
  {
    from <= p && OccursAt(s, t, p) && forall q: nat | from <= q < p :: !OccursAt(s, t, q)
  }

  lemma FirstIs(s: string, t: string, from: nat, p: nat)
    requires FirstAt(s, t, from, p)
    ensures from <= |s| && Find(s, t, from) == p
  {
    FindUnique(s, t, from, p);
  }

  /** Of any text with the opening glossary tag, later the closing one, and later the opening body tag:
      when the first newline is behind the closing tag there is no preface; else the glossary is read
      from the lines between, and the body goes from behind its tag and one newline to the closing tag,
      or to the end when there is none. */
  lemma PrefaceMeaning(text: string, g: nat, n: nat, c: nat, b: nat, e: nat)
    requires FirstAt(text, "<icmg-glossary", 0, g) && FirstAt(text, "\n", g, n)
    requires FirstAt(text, "</icmg-glossary>", g, c) && FirstAt(text, "<icmg-body>", c, b)
    ensures var start := if b + 11 < |text| && text[b + 11] == '\n' then b + 12 else b + 11;
            && (c < n ==> ParsePreface(text) == None)
            && (n < c && FirstAt(text, "</icmg-body>", start, e) ==>
                  ParsePreface(text) == Some((ParseLines(text[n + 1..c], map[]), text[start..e])))
            && (n < c && (forall q: nat | start <= q :: !OccursAt(text, "</icmg-body>", q)) ==>
                  ParsePreface(text) == Some((ParseLines(text[n + 1..c], map[]), text[start..])))
  {
    hide *;
    FirstIs(text, "<icmg-glossary", 0, g);
    FirstIs(text, "\n", g, n);
    FirstIs(text, "</icmg-glossary>", g, c);
    FirstIs(text, "<icmg-body>", c, b);
    TagsAre();
    TagEnds(text, c, b);
    StartBeforeEnd(text, g);
    PrefaceBy(text, g, n, c, b);
    var start := if b + 11 < |text| && text[b + 11] == '\n' then b + 12 else b + 11;
    if FirstAt(text, "</icmg-body>", start, e) {
      FirstIs(text, "</icmg-body>", start, e);
      TagEnds(text, start, e);
    }
    if forall q: nat | start <= q :: !OccursAt(text, "</icmg-body>", q) {
      NotFound(text, "</icmg-body>", start);
      assert text[start..|text|] == text[start..];
    }
  }

  lemma NotFound(s: string, t: string, from: nat)
    requires from <= |s| && forall q: nat | from <= q :: !OccursAt(s, t, q)
    ensures Find(s, t, from) == -1
  {
  }

  /** A tag that is found stands inside the text. */
  lemma TagEnds(text: string, from: nat, p: nat)
    requires from <= |text|
    ensures Find(text, "<icmg-body>", from) == p ==> p + 11 <= |text|
    ensures Find(text, "</icmg-body>", from) == p ==> from <= p <= |text|
  {
    assert |"<icmg-body>"| == 11;
  }

  lemma PrefaceBy(text: string, g: nat, n: nat, c: nat, b: nat)
    requires Find(text, GLOSSARY_OPEN, 0) == g <= |text| && Find(text, "\n", g) == n && n <= |text|
    requires Find(text, GLOSSARY_CLOSE, g) == c <= |text| && Find(text, BODY_OPEN, c) == b && b + 11 <= |text|
    requires |BODY_OPEN| == 11
    ensures var start := if b + 11 < |text| && text[b + 11] == '\n' then b + 12 else b + 11;
            && (n > c ==> ParsePreface(text) == None)
            && (n < c ==>
                  var e := Find(text, BODY_CLOSE, start);
                  var end := if e == -1 then |text| else e;
                  start <= end <= |text|
                  && ParsePreface(text) == Some((ParseLines(text[n + 1..c], map[]), text[start..end])))
  {
    hide OccursAt, ParseLines;
  }

  lemma TagsAre()
    ensures GLOSSARY_OPEN == "<icmg-glossary" && GLOSSARY_CLOSE == "</icmg-glossary>"
    ensures BODY_OPEN == "<icmg-body>" && BODY_CLOSE == "</icmg-body>" && |BODY_OPEN| == 11
  {
  }

  /** Without one of the tags there is no preface. */
  lemma NoPreface(text: string, g: nat, c: nat)
    ensures (forall q: nat :: !OccursAt(text, "<icmg-glossary", q)) ==> ParsePreface(text) == None
    ensures FirstAt(text, "<icmg-glossary", 0, g)
            && (forall q: nat | g <= q :: !OccursAt(text, "</icmg-glossary>", q)) ==>
              ParsePreface(text) == None
    ensures FirstAt(text, "<icmg-glossary", 0, g) && FirstAt(text, "</icmg-glossary>", g, c)
            && (forall q: nat | c <= q :: !OccursAt(text, "<icmg-body>", q)) ==>
              ParsePreface(text) == None
  {
    TagsAre();
    if FirstAt(text, "<icmg-glossary", 0, g) {
      FirstIs(text, "<icmg-glossary", 0, g);
      if FirstAt(text, "</icmg-glossary>", g, c) {
        FirstIs(text, "</icmg-glossary>", g, c);
      }
    }
    hide ParseLines, OccursAt;
  }

  /** A glossary line is split at its first `=`; one without it changes nothing; lines are read in order. */
  lemma LineMeaning(name: string, phrase: string, line: string, rest: string, g: Glossary)
    requires '=' !in name && '=' !in line && '\n' !in name && '\n' !in phrase && '\n' !in line
    ensures ParseLines("", g) == g && ParseLines(line, g) == g
    ensures ParseLines(name + "=" + phrase, g) == g[name := phrase]
    ensures ParseLines(line + ("\n" + rest), g) == ParseLines(rest, g)
    ensures ParseLines(name + "=" + phrase + ("\n" + rest), g) == ParseLines(rest, g[name := phrase])
  {
    var full := name + "=" + phrase;
    OneParsed(line, g);
    OneParsed(full, g);
    NoEquals(line, g);
    SplitEquals(name, phrase, g);
    LineThenRest(line, rest, g);
    LineThenRest(full, rest, g);
  }

  lemma NoCharFound(s: string, c: char)
    requires c !in s
    ensures Find(s, [c], 0) == -1
  {
    forall p: nat ensures !OccursAt(s, [c], p) {
      OccursChars(s, [c], p);
    }
  }

  lemma NoEquals(line: string, g: Glossary)
    requires '=' !in line
    ensures ParseLine(line, g) == g
  {
    NoCharFound(line, '=');
  }

  lemma SplitEquals(name: string, phrase: string, g: Glossary)
    requires '=' !in name
    ensures ParseLine(name + "=" + phrase, g) == g[name := phrase]
  {
    FindChar(name, '=', phrase);
    var line := name + ['='] + phrase;
    assert line[..|name|] == name && line[|name| + 1..] == phrase;
  }

  lemma OneParsed(line: string, g: Glossary)
    requires '\n' !in line
    ensures ParseLines(line, g) == ParseLine(line, g)
  {
    NoCharFound(line, '\n');
  }

  lemma LineThenRest(line: string, rest: string, g: Glossary)
    requires '\n' !in line
    ensures ParseLines(line + ("\n" + rest), g) == ParseLines(rest, ParseLine(line, g))
  {
    FindChar(line, '\n', rest);
    var text := line + ['\n'] + rest;
    assert text == line + ("\n" + rest);
    assert text[..|line|] == line && text[|line| + 1..] == rest;
    hide ParseLine;
  }
}
