/** The reversible prompt compressor: line dedup, alias substitution, preface, and
    the expander that undoes the aliases. */
module Compressor {
  import opened Text
  import opened Wrappers

  // ---- Stage 1: line dedup ----------------------------------------------------------

  /** Lines of `cur + s`, newlines kept, where `cur` is the line read so far. */
  function SplitFrom(cur: string, s: string): (lines: seq<string>)
    decreases |s|
  {
    if s == "" then (if cur == "" then [] else [cur])
    else if s[0] == '\n' then [cur + "\n"] + SplitFrom("", s[1..])
    else SplitFrom(cur + [s[0]], s[1..])
  }

  method SplitLines(s: string) returns (out: seq<string>)
    ensures out == SplitFrom("", s)
  {
    out := [];
    var cur := "";
    for i := 0 to |s|
      invariant out + SplitFrom(cur, s[i..]) == SplitFrom("", s)
    {
      assert s[i..][1..] == s[i + 1..];
      cur := cur + [s[i]];
      if s[i] == '\n' {
        out := out + [cur];
        cur := "";
      }
    }
    if cur != "" {
      out := out + [cur];
    }
  }

  function Marker(n: nat): (s: string)
  {
    "<icmg-repeat " + ToString(n) + "x>\n"
  }

  /** The end of the run of lines equal to `lines[i]`, looking from `j` on. */
  function RunEnd(lines: seq<string>, i: nat, j: nat): (e: nat)
    requires i < j <= |lines|
    ensures j <= e <= |lines|
    ensures forall k | j <= k < e :: lines[k] == lines[i]
    ensures e < |lines| ==> lines[e] != lines[i]
    decreases |lines| - j
  {
    if j < |lines| && lines[j] == lines[i] then RunEnd(lines, i, j + 1) else j
  }

  /** What is written for `run` copies of `line`. */
  function RunLines(line: string, run: nat): (out: seq<string>)
    requires run > 0
  {
    if run >= 3 then [line, Marker(run - 1)]
    else if run == 2 then [line, line]
    else [line]
  }

  function DedupFrom(lines: seq<string>, i: nat): (out: seq<string>)
    requires i <= |lines|
    decreases |lines| - i
  {
    if i == |lines| then []
    else
      var j := RunEnd(lines, i, i + 1);
      RunLines(lines[i], j - i) + DedupFrom(lines, j)
  }

  function Dedup(s: string): (out: string)
  {
    Concat(DedupFrom(SplitFrom("", s), 0))
  }

  lemma ConcatRun(line: string, run: nat)
    requires run > 0
    ensures Concat(RunLines(line, run)) ==
            line + (if run >= 3 then Marker(run - 1) else if run == 2 then line else "")
  {
    var r := RunLines(line, run);
    assert Concat([line]) == line by {
      assert [line][1..] == [];
    }
    if run >= 2 {
      assert r == [line] + [r[1]];
      ConcatAppend([line], [r[1]]);
      assert [r[1]][1..] == [];
    }
  }

  /** One run of equal lines: `out` is what is written, lines `i..j` the run. */
  lemma DedupTurn(out: string, lines: seq<string>, i: nat)
    requires i < |lines|
    ensures var j := RunEnd(lines, i, i + 1);
            out + Concat(DedupFrom(lines, i)) ==
            out + lines[i]
            + (if j - i >= 3 then Marker(j - i - 1) else if j - i == 2 then lines[i] else "")
            + Concat(DedupFrom(lines, j))
  {
    hide Concat, Marker, RunLines, RunEnd;
    var j := RunEnd(lines, i, i + 1);
    ConcatAppend(RunLines(lines[i], j - i), DedupFrom(lines, j));
    ConcatRun(lines[i], j - i);
  }

  lemma DedupEnds(s: string)
    ensures var lines := SplitFrom("", s);
            "" + Concat(DedupFrom(lines, 0)) == Dedup(s) && Concat(DedupFrom(lines, |lines|)) == []
  {
  }

  method DedupLines(s: string) returns (out: string)
    ensures out == Dedup(s)
  {
    hide *;
    var lines := SplitLines(s);
    ghost var goal := Dedup(s);
    DedupEnds(s);
    out := "";
    var i := 0;
    while i < |lines|
      invariant i <= |lines|
      invariant out + Concat(DedupFrom(lines, i)) == goal
    {
      var j := RunEndLoop(lines, i);
      var run := j - i;
      DedupTurn(out, lines, i);
      out := out + lines[i];
      out := out + (if run >= 3 then Marker(run - 1) else if run == 2 then lines[i] else "");
      i := j;
    }
  }

  method RunEndLoop(lines: seq<string>, i: nat) returns (j: nat)
    requires i < |lines|
    ensures j == RunEnd(lines, i, i + 1)
  {
    j := i + 1;
    while j < |lines| && lines[j] == lines[i]
      invariant i < j <= |lines|
      invariant RunEnd(lines, i, i + 1) == RunEnd(lines, i, j)
    {
      j := j + 1;
    }
  }

  // ---- Alias substitution -----------------------------------------------------------

  function Join3(a: string, b: string, c: string): (s: string)
  {
    a + b + c
  }

  /** Leftmost, non-overlapping replacement. An empty needle changes nothing. */
  function ReplaceAll(s: string, needle: string, alias: string): (out: string)
    decreases |s|
  {
    if needle == "" then s
    else
      var p := Find(s, needle, 0);
      if p == -1 then s
      else Join3(s[..p], alias, ReplaceAll(s[p + |needle|..], needle, alias))
  }

  /** Searching from `i` is searching the suffix. */
  lemma FindSuffix(s: string, t: string, i: nat)
    requires i <= |s|
    ensures Find(s, t, i) == (var p := Find(s[i..], t, 0); if p == -1 then -1 else i + p)
  {
    var p := Find(s[i..], t, 0);
    forall q: nat | q + |t| <= |s[i..]|
      ensures OccursAt(s[i..], t, q) <==> OccursAt(s, t, i + q)
    {
      assert s[i..][q..q + |t|] == s[i + q..i + q + |t|];
    }
    if p == -1 {
      forall q: nat | i <= q ensures !OccursAt(s, t, q) {
        assert !OccursAt(s[i..], t, q - i);
      }
    } else {
      forall q: nat | i <= q < i + p ensures !OccursAt(s, t, q) {
        assert !OccursAt(s[i..], t, q - i);
      }
      FindUnique(s, t, i, i + p);
    }
  }

  lemma ReplaceFound(r: string, needle: string, alias: string)
    requires needle != "" && Find(r, needle, 0) != -1
    ensures var q := Find(r, needle, 0);
            ReplaceAll(r, needle, alias) == Join3(r[..q], alias, ReplaceAll(r[q + |needle|..], needle, alias))
  {
    hide Find, OccursAt, Join3;
  }

  lemma ReplaceNone(r: string, needle: string, alias: string)
    requires Find(r, needle, 0) == -1
    ensures ReplaceAll(r, needle, alias) == r
  {
    hide Find, OccursAt, Join3;
  }

  lemma Join3Is(a: string, b: string, c: string)
    ensures Join3(a, b, c) == a + b + c
  {
  }

  lemma ReplaceUnfold(r: string, needle: string, alias: string)
    requires needle != ""
    ensures var q := Find(r, needle, 0);
            ReplaceAll(r, needle, alias) ==
            if q == -1 then r else r[..q] + alias + ReplaceAll(r[q + |needle|..], needle, alias)
  {
    hide *;
    var q := Find(r, needle, 0);
    if q == -1 {
      ReplaceNone(r, needle, alias);
    } else {
      ReplaceFound(r, needle, alias);
      Join3Is(r[..q], alias, ReplaceAll(r[q + |needle|..], needle, alias));
    }
  }

  /** One turn of the replacement loop: `out` is what is written, `i` the cursor. */
  lemma ReplaceTurn(out: string, s: string, i: nat, needle: string, alias: string)
    requires i <= |s| && needle != ""
    ensures var pos := Find(s, needle, i);
            out + ReplaceAll(s[i..], needle, alias) ==
            if pos == -1 then out + s[i..]
            else out + s[i..pos] + alias + ReplaceAll(s[pos + |needle|..], needle, alias)
  {
    hide *;
    var pos := Find(s, needle, i);
    FindSuffix(s, needle, i);
    ReplaceUnfold(s[i..], needle, alias);
    if pos != -1 {
      assert s[i..][..pos - i] == s[i..pos];
      assert s[i..][pos - i + |needle|..] == s[pos + |needle|..];
    }
  }

  lemma ReplaceTrivial(s: string, needle: string, alias: string)
    requires needle == "" || s == ""
    ensures ReplaceAll(s, needle, alias) == s
  {
  }

  method ReplaceAllLoop(s: string, needle: string, alias: string) returns (out: string)
    ensures out == ReplaceAll(s, needle, alias)
  {
    hide *;
    ReplaceTrivial("", needle, alias);
    if needle == "" {
      ReplaceTrivial(s, needle, alias);
      return s;
    }
    ghost var goal := ReplaceAll(s, needle, alias);
    out := "";
    var i := 0;
    assert s[0..] == s;
    while i < |s|
      invariant i <= |s|
      invariant out + ReplaceAll(s[i..], needle, alias) == goal
    {
      ReplaceTurn(out, s, i, needle, alias);
      var pos := Find(s, needle, i);
      if pos == -1 {
        out := out + s[i..];
        return;
      }
      out := out + s[i..pos];
      out := out + alias;
      i := pos + |needle|;
    }
    assert s[i..] == [];
  }

  /** The body being rewritten and the aliases minted so far. */
  datatype State = State(body: string, glossary: map<string, string>)

  function Mint(st: State, alias: string, phrase: string): (r: State)
  {
    State(ReplaceAll(st.body, phrase, alias), st.glossary[alias := phrase])
  }

  function Contains(s: string, t: string): (b: bool)
    ensures b <==> exists p: nat :: OccursAt(s, t, p)
  {
    Find(s, t, 0) != -1
  }

  /** Stage 1.5: seed phrases; an absent or empty phrase mints nothing. */
  function SeedStage(st: State, seeds: seq<string>, idx: nat): (r: State)
    decreases |seeds|
  {
    if seeds == [] then st
    else if seeds[0] == "" || !Contains(st.body, seeds[0]) then SeedStage(st, seeds[1..], idx)
    else SeedStage(Mint(st, "@S" + ToString(idx), seeds[0]), seeds[1..], idx + 1)
  }

  /** Stages 2 and 3: every ranked candidate gets an alias. */
  function RankedStage(st: State, prefix: string, ranked: seq<string>, idx: nat): (r: State)
    decreases |ranked|
  {
    if ranked == [] then st
    else RankedStage(Mint(st, prefix + ToString(idx), ranked[0]), prefix, ranked[1..], idx + 1)
  }

  function Aliased(input: string, seeds: seq<string>, paths: seq<string>, idents: seq<string>): (r: State)
  {
    var s1 := SeedStage(State(Dedup(input), map[]), seeds, 1);
    var s2 := RankedStage(s1, "@P", paths, 1);
    RankedStage(s2, "$I", idents, 1)
  }

  // ---- Whether to compress ----------------------------------------------------------

  datatype Options = Options(thresholdTok: int, respectCacheSentinel: bool, seedPhrases: seq<string>)

  function EstimateTokens(s: string): (n: nat)
  {
    (|s| + 3) / 4
  }

  const SOURCE_EXTENSIONS: seq<string> :=
    [".cs", ".ts", ".tsx", ".cpp", ".cc", ".cxx", ".hpp", ".h",
     ".py", ".rs", ".go", ".java", ".kt", ".swift", ".m", ".mm"]

  predicate IsSourceCodeKind(kind: string)
  {
    (exists e | e in SOURCE_EXTENSIONS :: EndsWith(kind, e)) || kind == "code" || kind == "source"
  }

  predicate ShouldCompress(o: Options, input: string, kind: string)
  {
    && EstimateTokens(input) >= o.thresholdTok
    && !IsSourceCodeKind(kind)
    && !(o.respectCacheSentinel && (Contains(input, "<<CACHED>>") || Contains(input, "<<cached>>")))
  }

  // ---- The text form ----------------------------------------------------------------

  type Entry = (string, string)

  /** `items` lists every entry of `g` once, in some order. */
  ghost predicate Enumerates(items: seq<Entry>, g: map<string, string>)
  {
    && (forall i | 0 <= i < |items| :: items[i].0 in g && g[items[i].0] == items[i].1)
    && (forall i, j | 0 <= i < j < |items| :: items[i].0 != items[j].0)
    && (forall k | k in g :: exists i :: 0 <= i < |items| && items[i].0 == k)
  }

  function GlossaryLines(items: seq<Entry>): (s: string)
  {
    if items == [] then ""
    else items[0].0 + "=" + items[0].1 + "\n" + GlossaryLines(items[1..])
  }

  const GLOSSARY_OPEN := "<icmg-glossary"
  const GLOSSARY_CLOSE := "</icmg-glossary>"
  const BODY_OPEN := "<icmg-body>"
  const BODY_CLOSE := "</icmg-body>"

  /** The newline added to a text that does not end in one. */
  function Newline(s: string): (n: string)
  {
    if s == "" || s[|s| - 1] != '\n' then "\n" else ""
  }

  function Wrap(hash: string, items: seq<Entry>, body: string): (text: string)
  {
    GLOSSARY_OPEN + " v=1 hash=" + hash + ">\n" + GlossaryLines(items)
    + GLOSSARY_CLOSE + "\n" + BODY_OPEN + "\n" + body + Newline(body) + BODY_CLOSE + "\n"
  }

  datatype CompressResult = CompressResult(
    text: string, bodyOnly: string, glossary: map<string, string>, skipped: bool)

  lemma {:induction false} GlossaryLinesAppend(a: seq<Entry>, e: Entry)
    ensures GlossaryLines(a + [e]) == GlossaryLines(a) + e.0 + "=" + e.1 + "\n"
  {
    if a == [] {
      assert a + [e] == [e];
    } else {
      assert (a + [e])[1..] == a[1..] + [e];
      GlossaryLinesAppend(a[1..], e);
      hide GlossaryLines;
      GlossaryLinesIs(a);
      GlossaryLinesIs(a + [e]);
    }
  }

  lemma GlossaryLinesIs(a: seq<Entry>)
    requires a != []
    ensures GlossaryLines(a) == a[0].0 + "=" + a[0].1 + "\n" + GlossaryLines(a[1..])
  {
  }

  method Seed(body0: string, seeds: seq<string>)
    returns (body: string, glossary: map<string, string>)
    ensures State(body, glossary) == SeedStage(State(body0, map[]), seeds, 1)
  {
    body, glossary := body0, map[];
    var idx := 1;
    for k := 0 to |seeds|
      invariant SeedStage(State(body, glossary), seeds[k..], idx) ==
                SeedStage(State(body0, map[]), seeds, 1)
    {
      var phrase := seeds[k];
      assert seeds[k..][1..] == seeds[k + 1..];
      if phrase == "" { continue; }
      if !Contains(body, phrase) { continue; }
      var alias := "@S" + ToString(idx);
      idx := idx + 1;
      glossary := glossary[alias := phrase];
      body := ReplaceAllLoop(body, phrase, alias);
    }
  }

  method Rank(body0: string, glossary0: map<string, string>, prefix: string, ranked: seq<string>)
    returns (body: string, glossary: map<string, string>)
    ensures State(body, glossary) == RankedStage(State(body0, glossary0), prefix, ranked, 1)
  {
    body, glossary := body0, glossary0;
    var idx := 1;
    for k := 0 to |ranked|
      invariant idx == k + 1
      invariant RankedStage(State(body, glossary), prefix, ranked[k..], idx) ==
                RankedStage(State(body0, glossary0), prefix, ranked, 1)
    {
      assert ranked[k..][1..] == ranked[k + 1..];
      var alias := prefix + ToString(idx);
      idx := idx + 1;
      glossary := glossary[alias := ranked[k]];
      body := ReplaceAllLoop(body, ranked[k], alias);
    }
  }

  /** `items` lists the entries of `g` whose keys are outside `rest`, each once. */
  ghost predicate Listed(items: seq<Entry>, g: map<string, string>, rest: set<string>)
  {
    && rest <= g.Keys
    && (forall i | 0 <= i < |items| ::
          items[i].0 in g && items[i].0 !in rest && g[items[i].0] == items[i].1)
    && (forall i, j | 0 <= i < j < |items| :: items[i].0 != items[j].0)
    && (forall k | k in g && k !in rest :: exists i :: 0 <= i < |items| && items[i].0 == k)
  }

  lemma ListOne(items: seq<Entry>, g: map<string, string>, rest: set<string>, k: string)
    requires Listed(items, g, rest) && k in rest
    ensures Listed(items + [(k, g[k])], g, rest - {k})
  {
    var out := items + [(k, g[k])];
    forall a | a in g && a !in rest - {k}
      ensures exists i :: 0 <= i < |out| && out[i].0 == a
    {
      if a == k {
        assert out[|items|].0 == a;
      } else {
        var i :| 0 <= i < |items| && items[i].0 == a;
        assert out[i].0 == a;
      }
    }
  }

  method EmitGlossary(g: map<string, string>) returns (lines: string, ghost items: seq<Entry>)
    ensures Enumerates(items, g) && lines == GlossaryLines(items)
    ensures exists order :: Enumerates(order, g) && lines == GlossaryLines(order)
  {
    lines, items := "", [];
    var rest := g.Keys;
    while rest != {}
      invariant Listed(items, g, rest)
      invariant lines == GlossaryLines(items)
    {
      var k :| k in rest;
      ListOne(items, g, rest, k);
      GlossaryLinesAppend(items, (k, g[k]));
      lines := lines + k + "=" + g[k] + "\n";
      items := items + [(k, g[k])];
      rest := rest - {k};
    }
  }

  /** Lossless mode. `paths` and `idents` are the ranked candidate lists of stages 2
      and 3, `hash` the content hash; the glossary is written in any key order. */
  method Compress(o: Options, input: string, kind: string, hash: string,
                  paths: seq<string>, idents: seq<string>)
    returns (r: CompressResult, ghost items: seq<Entry>)
    ensures !ShouldCompress(o, input, kind) ==> r == CompressResult(input, input, map[], true)
    ensures ShouldCompress(o, input, kind) ==>
              var st := Aliased(input, o.seedPhrases, paths, idents);
              && Enumerates(items, st.glossary)
              && r == CompressResult(Wrap(hash, items, st.body), st.body, st.glossary, false)
  {
    hide Dedup, SeedStage, RankedStage, GlossaryLines, IsSourceCodeKind, Enumerates;
    if !ShouldCompress(o, input, kind) {
      return CompressResult(input, input, map[], true), [];
    }
    var body := DedupLines(input);
    var glossary: map<string, string>;
    body, glossary := Seed(body, o.seedPhrases);
    body, glossary := Rank(body, glossary, "@P", paths);
    body, glossary := Rank(body, glossary, "$I", idents);
    var lines: string;
    lines, items := EmitGlossary(glossary);
    var text := GLOSSARY_OPEN + " v=1 hash=" + hash + ">\n" + lines
                + GLOSSARY_CLOSE + "\n" + BODY_OPEN + "\n" + body;
    text := text + Newline(body);
    text := text + BODY_CLOSE + "\n";
    r := CompressResult(text, body, glossary, false);
  }

  // ---- Expanding --------------------------------------------------------------------

  /** Longest alias first; the sort leaves the order of equal lengths open. */
  ghost predicate LongestFirst(order: seq<Entry>)
  {
    forall i, j | 0 <= i < j < |order| :: |order[i].0| >= |order[j].0|
  }

  function ExpandIn(text: string, order: seq<Entry>): (out: string)
    decreases |order|
  {
    if order == [] then text
    else ExpandIn(ReplaceAll(text, order[0].0, order[0].1), order[1..])
  }

  lemma {:induction false} ExpandInSnoc(text: string, order: seq<Entry>, e: Entry)
    ensures ExpandIn(text, order + [e]) == ReplaceAll(ExpandIn(text, order), e.0, e.1)
    decreases |order|
  {
    if order == [] {
      assert order + [e] == [e];
      assert [e][1..] == [];
    } else {
      assert (order + [e])[1..] == order[1..] + [e];
      ExpandInSnoc(ReplaceAll(text, order[0].0, order[0].1), order[1..], e);
    }
  }

  /** An alias by its shape: a sigil and letter of one of the three families, then digits. */
  predicate AliasAt(s: string, p: nat)
  {
    && p + 2 < |s|
    && ((s[p] == '@' && (s[p + 1] == 'P' || s[p + 1] == 'S')) || (s[p] == '$' && s[p + 1] == 'I'))
    && IsDigit(s[p + 2])
  }

  /** The first alias-shaped piece left in `s`, as the strict check reports it. */
  function Leftover(s: string): (r: Option<string>)
    ensures r.None? <==> forall p: nat | p < |s| :: !AliasAt(s, p)
    decreases |s|
  {
    if s == "" then None
    else if AliasAt(s, 0) then Some(s[..2] + DigitPrefix(s[2..]))
    else
      var r := Leftover(s[1..]);
      assert forall p: nat | 0 < p < |s| :: AliasAt(s, p) <==> AliasAt(s[1..], p - 1);
      assert forall p: nat | p < |s[1..]| :: AliasAt(s[1..], p) <==> AliasAt(s, p + 1);
      r
  }

  method PickLongest(keys: set<string>) returns (k: string)
    requires keys != {}
    ensures k in keys && forall x | x in keys :: |x| <= |k|
  {
    k :| k in keys;
    var rest := keys - {k};
    while rest != {}
      invariant k in keys && rest <= keys
      invariant forall x | x in keys && x !in rest :: |x| <= |k|
      decreases |rest|
    {
      var x :| x in rest;
      if |x| > |k| {
        k := x;
      }
      rest := rest - {x};
    }
  }

  /** `order` is sorted so far and no alias in `rest` is longer than one in it. */
  ghost predicate LongestSoFar(order: seq<Entry>, rest: set<string>)
  {
    && LongestFirst(order)
    && (forall i, x | 0 <= i < |order| && x in rest :: |x| <= |order[i].0|)
  }

  lemma LongestNext(order: seq<Entry>, rest: set<string>, e: Entry)
    requires LongestSoFar(order, rest)
    requires e.0 in rest && forall x | x in rest :: |x| <= |e.0|
    ensures LongestSoFar(order + [e], rest - {e.0})
  {
  }

  lemma ListedAll(items: seq<Entry>, g: map<string, string>)
    ensures Listed(items, g, {}) ==> Enumerates(items, g)
  {
  }

  method Expand(text: string, glossary: map<string, string>, strict: bool)
    returns (out: string, err: Option<string>, ghost order: seq<Entry>)
    ensures Enumerates(order, glossary) && LongestFirst(order)
    ensures out == ExpandIn(text, order)
    ensures err == if strict then Leftover(out) else None
  {
    out, err, order := text, None, [];
    var rest := glossary.Keys;
    assert out == ExpandIn(text, order);
    assert Listed(order, glossary, rest);
    assert LongestSoFar(order, rest);
    assert forall o, r | LongestSoFar(o, r) :: LongestFirst(o);
    assert forall r | Listed(order, glossary, r) :: r <= glossary.Keys;
    hide *;
    while rest != {}
      invariant rest <= glossary.Keys
      invariant Listed(order, glossary, rest)
      invariant LongestSoFar(order, rest)
      invariant out == ExpandIn(text, order)
      decreases |rest|
    {
      var k := PickLongest(rest);
      ListOne(order, glossary, rest, k);
      LongestNext(order, rest, (k, glossary[k]));
      ExpandInSnoc(text, order, (k, glossary[k]));
      out := ReplaceAllLoop(out, k, glossary[k]);
      order := order + [(k, glossary[k])];
      rest := rest - {k};
    }
    ListedAll(order, glossary);
    if strict {
      err := Leftover(out);
    }
  }

  // ---- Parsing the preface ----------------------------------------------------------

  /** One glossary line: text before the first `=` maps to the text after it. */
  function ParseLine(line: string, g: map<string, string>): (r: map<string, string>)
  {
    var eq := Find(line, "=", 0);
    if line == "" || eq == -1 then g else g[line[..eq] := line[eq + 1..]]
  }

  function ParseLines(text: string, g: map<string, string>): (r: map<string, string>)
    decreases |text|
  {
    if text == "" then g
    else
      var q := Find(text, "\n", 0);
      if q == -1 then ParseLine(text, g)
      else ParseLines(text[q + 1..], ParseLine(text[..q], g))
  }

  function BodyStart(text: string, gend: nat): (b: int)
    requires gend <= |text|
    ensures b == -1 || gend <= b <= |text|
  {
    var b := Find(text, BODY_OPEN, gend);
    if b == -1 then -1
    else
      var c := b + |BODY_OPEN|;
      if c < |text| && text[c] == '\n' then c + 1 else c
  }

  function ParsePreface(text: string): (r: Option<(map<string, string>, string)>)
  {
    var gstart := Find(text, GLOSSARY_OPEN, 0);
    if gstart == -1 then None
    else
      var gend := Find(text, GLOSSARY_CLOSE, gstart);
      if gend == -1 then None
      else
        var bstart := BodyStart(text, gend);
        if bstart == -1 then None
        else
          var bend0 := Find(text, BODY_CLOSE, bstart);
          var bend := if bend0 == -1 then |text| else bend0;
          var start := Find(text, "\n", gstart);
          if start == -1 || start > gend then None
          else
            StartBeforeEnd(text, gstart);
            Some((ParseLines(text[start + 1..gend], map[]), text[bstart..bend]))
  }

  method ParseGlossary(text: string) returns (glossary: map<string, string>)
    ensures glossary == ParseLines(text, map[])
  {
    hide Find, OccursAt;
    glossary := map[];
    var input := text;
    while input != ""
      invariant ParseLines(input, glossary) == ParseLines(text, map[])
      decreases |input|
    {
      var q := Find(input, "\n", 0);
      var line := if q == -1 then input else input[..q];
      input := if q == -1 then "" else input[q + 1..];
      if line == "" { continue; }
      var eq := Find(line, "=", 0);
      if eq == -1 { continue; }
      glossary := glossary[line[..eq] := line[eq + 1..]];
    }
  }

  /** The newline that ends the header stands before the closing tag, not on it. */
  lemma StartBeforeEnd(text: string, gstart: nat)
    requires gstart <= |text|
    ensures var start, gend := Find(text, "\n", gstart), Find(text, GLOSSARY_CLOSE, gstart);
            start != -1 && gend != -1 && start <= gend ==> start < gend < |text|
  {
    hide Find;
    var start, gend := Find(text, "\n", gstart), Find(text, GLOSSARY_CLOSE, gstart);
    if start != -1 && gend != -1 {
      OccursChars(text, "\n", start);
      OccursChars(text, GLOSSARY_CLOSE, gend);
    }
  }

  method ParsePrefaceLoop(text: string) returns (r: Option<(map<string, string>, string)>)
    ensures r == ParsePreface(text)
  {
    hide Find, ParseLines, OccursAt;
    var gstart := Find(text, GLOSSARY_OPEN, 0);
    if gstart == -1 { return None; }
    var gend := Find(text, GLOSSARY_CLOSE, gstart);
    if gend == -1 { return None; }
    var bstart := Find(text, BODY_OPEN, gend);
    if bstart == -1 { return None; }
    bstart := bstart + |BODY_OPEN|;
    if bstart < |text| && text[bstart] == '\n' { bstart := bstart + 1; }
    var bend := Find(text, BODY_CLOSE, bstart);
    if bend == -1 { bend := |text|; }

    StartBeforeEnd(text, gstart);
    var start := Find(text, "\n", gstart);
    if start == -1 || start > gend { return None; }
    var glossary := ParseGlossary(text[start + 1..gend]);
    r := Some((glossary, text[bstart..bend]));
  }
}
