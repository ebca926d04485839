/** The whole text form: parsing the preface and expanding the body undo compression. */
module CompressorLossless {
  import opened Text
  import opened Wrappers
  import opened Compressor
  import opened DedupProofs
  import opened CompressorRoundTrip

  // ---- Finding the parts of the text form --------------------------------------------

  predicate EndsLine(a: string)
  {
    a == "" || a[|a| - 1] == '\n'
  }

  /** A newline-free text that is not in the lines `a` but starts `b` is found at `b`. */
  lemma FindBoundary(a: string, b: string, t: string)
    requires t != "" && '\n' !in t && EndsLine(a)
    requires !Contains(a, t) && OccursAt(b, t, 0)
    ensures Find(a + b, t, 0) == |a|
  {
    OccursInConcat(a, b, t, 0);
    forall p: nat | p < |a| ensures !OccursAt(a + b, t, p) {
      OccursInConcat(a, b, t, p);
      OccursChars(a + b, t, p);
      assert (a + b)[|a| - 1] == '\n';
      assert p < |a| < p + |t| ==> t[|a| - 1 - p] != '\n';
    }
    FindUnique(a + b, t, 0, |a|);
  }

  lemma FindFrom(a: string, b: string, t: string, from: nat)
    requires from == |a|
    ensures Find(a + b, t, from) == (var p := Find(b, t, 0); if p == -1 then -1 else from + p)
  {
    assert (a + b)[from..] == b;
    FindSuffix(a + b, t, from);
  }

  /** A single character is found at its first place. */
  lemma FindChar(a: string, c: char, b: string)
    requires c !in a
    ensures Find(a + [c] + b, [c], 0) == |a|
  {
    var s := a + [c] + b;
    assert s[|a|..|a| + 1] == [c];
    forall p: nat | p < |a| ensures !OccursAt(s, [c], p) {
      assert s[p..p + 1] == [a[p]];
    }
    FindUnique(s, [c], 0, |a|);
  }

  // ---- The glossary lines -------------------------------------------------------------

  function Build(items: seq<Entry>, g: Glossary): (r: Glossary)
  {
    if items == [] then g else Build(items[1..], g[items[0].0 := items[0].1])
  }

  ghost predicate HasKey(items: seq<Entry>, k: string)
  {
    exists i :: 0 <= i < |items| && items[i].0 == k
  }

  lemma HasKeyCons(items: seq<Entry>, k: string)
    requires items != []
    ensures HasKey(items, k) <==> k == items[0].0 || HasKey(items[1..], k)
  {
    if HasKey(items, k) && k != items[0].0 {
      var i :| 0 <= i < |items| && items[i].0 == k;
      assert items[1..][i - 1].0 == k;
    }
    if HasKey(items[1..], k) {
      var i :| 0 <= i < |items[1..]| && items[1..][i].0 == k;
      assert items[i + 1].0 == k;
    }
  }

  lemma {:induction false} BuildHas(items: seq<Entry>, g: Glossary, k: string)
    ensures k in Build(items, g) <==> k in g || HasKey(items, k)
    ensures k in g && !HasKey(items, k) ==> Build(items, g)[k] == g[k]
  {
    if items != [] {
      BuildHas(items[1..], g[items[0].0 := items[0].1], k);
      HasKeyCons(items, k);
    }
  }

  lemma {:induction false} BuildAt(items: seq<Entry>, g: Glossary, i: nat)
    requires i < |items| && forall j, k | 0 <= j < k < |items| :: items[j].0 != items[k].0
    ensures items[i].0 in Build(items, g) && Build(items, g)[items[i].0] == items[i].1
  {
    var next := g[items[0].0 := items[0].1];
    if i == 0 {
      BuildHas(items[1..], next, items[0].0);
    } else {
      BuildAt(items[1..], next, i - 1);
    }
  }

  lemma BuildAll(items: seq<Entry>, g: Glossary)
    requires Enumerates(items, g)
    ensures Build(items, map[]) == g
  {
    var r := Build(items, map[]);
    forall k ensures k in r <==> k in g {
      BuildHas(items, map[], k);
    }
    forall k | k in g ensures r[k] == g[k] {
      var i :| 0 <= i < |items| && items[i].0 == k;
      BuildAt(items, map[], i);
    }
  }

  predicate PlainEntry(e: Entry)
  {
    AliasShape(e.0) && PlainPhrase(e.1)
  }

  /** An alias has no `=`, newline or `<`. */
  lemma AliasChars(a: string)
    requires AliasShape(a)
    ensures '=' !in a && '\n' !in a && '<' !in a
  {
    forall i | 0 <= i < |a| ensures a[i] != '=' && a[i] != '\n' && a[i] != '<' {
      assert i >= 2 ==> a[2..][i - 2] == a[i];
    }
  }

  lemma ParseOneLine(e: Entry, g: Glossary)
    requires PlainEntry(e)
    ensures ParseLine(e.0 + "=" + e.1, g) == g[e.0 := e.1]
  {
    AliasChars(e.0);
    FindChar(e.0, '=', e.1);
    var line := e.0 + ['='] + e.1;
    assert line == e.0 + "=" + e.1;
    assert line[..|e.0|] == e.0 && line[|e.0| + 1..] == e.1;
  }

  lemma {:induction false} ParseGlossaryLines(items: seq<Entry>, g: Glossary)
    requires forall i | 0 <= i < |items| :: PlainEntry(items[i])
    ensures ParseLines(GlossaryLines(items), g) == Build(items, g)
    decreases |items|
  {
    if items != [] {
      var e := items[0];
      var line, rest := e.0 + "=" + e.1, GlossaryLines(items[1..]);
      var text := line + ['\n'] + rest;
      assert GlossaryLines(items) == text;
      assert PlainEntry(e);
      AliasChars(e.0);
      ParseOneLine(e, g);
      FindChar(line, '\n', rest);
      assert text[..|line|] == line && text[|line| + 1..] == rest;
      ParseGlossaryLines(items[1..], g[e.0 := e.1]);
    }
  }

  lemma LineWithout(e: Entry)
    requires PlainEntry(e)
    ensures !Contains(e.0 + "=" + e.1 + "\n", GLOSSARY_CLOSE)
  {
    AliasChars(e.0);
    var a, b, t := e.0 + "=", e.1 + "\n", GLOSSARY_CLOSE;
    var s := a + b;
    assert s == e.0 + "=" + e.1 + "\n";
    forall p: nat ensures !OccursAt(s, t, p) {
      OccursChars(s, t, p);
      if p >= |a| {
        OccursInConcat(a, b, t, p - |a|);
        OccursInConcat(e.1, "\n", t, p - |a|);
        OccursChars(b, t, p - |a|);
        assert b[|e.1|] == '\n';
        assert p - |a| <= |e.1| < p - |a| + |t| ==> t[|e.1| - (p - |a|)] != '\n';
      }
    }
  }

  lemma {:induction false} GlossaryLinesClean(items: seq<Entry>)
    requires forall i | 0 <= i < |items| :: PlainEntry(items[i])
    ensures EndsLine(GlossaryLines(items)) && !Contains(GlossaryLines(items), GLOSSARY_CLOSE)
  {
    if items != [] {
      var e := items[0];
      var line, rest := e.0 + "=" + e.1 + "\n", GlossaryLines(items[1..]);
      assert PlainEntry(e);
      LineWithout(e);
      GlossaryLinesClean(items[1..]);
      assert GlossaryLines(items) == line + rest;
      hide PlainEntry, Contains;
      NoStraddle(line, rest, GLOSSARY_CLOSE);
    }
  }

  // ---- The parse ------------------------------------------------------------------------

  /** Sixteen hexadecimal digits, as the content hash prints. */
  predicate IsHash(h: string)
  {
    |h| == 16 && forall i | 0 <= i < |h| :: IsDigit(h[i]) || 'a' <= h[i] <= 'f'
  }

  function Header(hash: string): (h: string)
  {
    GLOSSARY_OPEN + " v=1 hash=" + hash + ">"
  }

  lemma HeaderClean(hash: string)
    requires IsHash(hash)
    ensures '\n' !in Header(hash)
    ensures !Contains(Header(hash) + "\n", GLOSSARY_CLOSE)
  {
    var s, t := Header(hash) + "\n", GLOSSARY_CLOSE;
    HeaderMarks(hash);
    forall p: nat ensures !OccursAt(s, t, p) {
      hide Header;
      OccursChars(s, t, p);
    }
  }

  /** The header's only `<` is its first character, and an `i` follows it. */
  lemma HeaderMarks(hash: string)
    requires IsHash(hash)
    ensures var s := Header(hash) + "\n";
            && |s| > 2 && s[1] == 'i' && (forall p | 0 < p < |s| :: s[p] != '<')
            && '\n' !in Header(hash)
  {
    var pre, post := GLOSSARY_OPEN + " v=1 hash=", ">";
    var h := pre + hash + post;
    assert h == Header(hash);
    assert '\n' !in pre && forall p | 0 < p < |pre| :: pre[p] != '<';
    forall p | 0 < p < |h| ensures h[p] != '<' && h[p] != '\n' {
      assert h[p] == if p < |pre| then pre[p] else if p < |pre| + 16 then hash[p - |pre|] else '>';
    }
    assert h[0] == '<' && h[1] == 'i';
  }

  lemma BodyWithout(body: string)
    requires !Contains(body, BODY_CLOSE)
    ensures !Contains(body + Newline(body), BODY_CLOSE) && EndsLine(body + Newline(body))
  {
    var s := body + Newline(body);
    forall p: nat ensures !OccursAt(s, BODY_CLOSE, p) {
      OccursInConcat(body, Newline(body), BODY_CLOSE, p);
      OccursChars(s, BODY_CLOSE, p);
      assert Newline(body) == "" ==> s == body;
      assert Newline(body) != "" ==> s[|body|] == '\n';
      assert p <= |body| < p + |BODY_CLOSE| ==> BODY_CLOSE[|body| - p] != '\n';
    }
  }

  /** The text after the glossary lines. */
  function Tail(full: string): (s: string)
  {
    GLOSSARY_CLOSE + "\n" + (BODY_OPEN + "\n" + (full + (BODY_CLOSE + "\n")))
  }

  lemma Assoc(a: string, b: string, c: string)
    ensures (a + b) + c == a + (b + c)
  {
  }

  lemma FindOpen(o: string, h: string, rest: string)
    ensures Find((o + h) + rest, o, 0) == 0
  {
    hide *;
    Assoc(o, h, rest);
    FindFront(o, h + rest);
  }

  lemma FindClose(a: string, c: string, rest: string)
    requires EndsLine(a) && !Contains(a, c) && c != "" && '\n' !in c
    ensures Find(a + (c + rest), c, 0) == |a|
  {
    hide *;
    FindFront(c, rest);
    FindBoundary(a, c + rest, c);
  }

  lemma HeadLines(h: string, lines: string)
    requires '\n' !in h && EndsLine(lines)
    requires !Contains(h + "\n", GLOSSARY_CLOSE) && !Contains(lines, GLOSSARY_CLOSE)
    ensures EndsLine(h + "\n" + lines) && !Contains(h + "\n" + lines, GLOSSARY_CLOSE)
  {
    hide Contains;
    NoStraddle(h + "\n", lines, GLOSSARY_CLOSE);
  }

  lemma FindGlossary(hash: string, lines: string, full: string)
    requires IsHash(hash) && EndsLine(lines) && !Contains(lines, GLOSSARY_CLOSE)
    ensures var text := (Header(hash) + "\n" + lines) + Tail(full);
            && Find(text, GLOSSARY_OPEN, 0) == 0
            && Find(text, "\n", 0) == |Header(hash)|
            && Find(text, GLOSSARY_CLOSE, 0) == |Header(hash)| + 1 + |lines|
  {
    assert GLOSSARY_CLOSE != "" && '\n' !in GLOSSARY_CLOSE;
    hide *;
    var h, t, nl := Header(hash), Tail(full), "\n";
    HeaderClean(hash);
    HeadLines(h, lines);
    Assoc(h + nl, lines, t);
    FindChar(h, '\n', lines + t);
    var h' := HeaderParts(hash);
    Assoc(h, nl, lines + t);
    FindOpen(GLOSSARY_OPEN, h', nl + (lines + t));
    var t' := TailParts(full);
    FindClose(h + nl + lines, GLOSSARY_CLOSE, t');
  }

  lemma HeaderParts(hash: string) returns (h: string)
    ensures Header(hash) == GLOSSARY_OPEN + h
  {
    h := " v=1 hash=" + hash + ">";
  }

  lemma TailParts(full: string) returns (t: string)
    ensures Tail(full) == GLOSSARY_CLOSE + t
    ensures t == "\n" + (BODY_OPEN + "\n" + (full + (BODY_CLOSE + "\n")))
  {
    t := "\n" + (BODY_OPEN + "\n" + (full + (BODY_CLOSE + "\n")));
  }

  lemma BodyOpenLate()
    ensures !Contains(GLOSSARY_CLOSE + "\n", BODY_OPEN)
    ensures BODY_OPEN != "" && '\n' !in BODY_OPEN && EndsLine(GLOSSARY_CLOSE + "\n")
  {
    var c := GLOSSARY_CLOSE + "\n";
    forall p: nat ensures !OccursAt(c, BODY_OPEN, p) {
      OccursChars(c, BODY_OPEN, p);
    }
  }

  lemma TailIs(full: string)
    ensures Tail(full) == (GLOSSARY_CLOSE + "\n") + (BODY_OPEN + ("\n" + (full + (BODY_CLOSE + "\n"))))
  {
    var u := full + (BODY_CLOSE + "\n");
    Assoc(BODY_OPEN, "\n", u);
  }

  /** The opening body tag is found right after the glossary's closing tag. */
  lemma FindBodyOpen(a: string, full: string)
    ensures Find(a + Tail(full), BODY_OPEN, |a|) == |a| + |GLOSSARY_CLOSE + "\n"|
  {
    hide *;
    var c, v := GLOSSARY_CLOSE + "\n", "\n" + (full + (BODY_CLOSE + "\n"));
    BodyOpenLate();
    TailIs(full);
    FindFrom(a, Tail(full), BODY_OPEN, |a|);
    FindClose(c, BODY_OPEN, v);
  }

  lemma FindBody(a: string, full: string)
    requires EndsLine(full) && !Contains(full, BODY_CLOSE)
    ensures var text, b := a + Tail(full), |a| + |GLOSSARY_CLOSE| + |BODY_OPEN| + 2;
            && BodyStart(text, |a|) == b
            && Find(text, BODY_CLOSE, b) == b + |full|
            && b + |full| <= |text| && text[b..b + |full|] == full
  {
    var text := a + Tail(full);
    var front := a + GLOSSARY_CLOSE + "\n" + BODY_OPEN + "\n";
    assert text == front + (full + (BODY_CLOSE + "\n"));
    assert text[|front| - 1] == '\n';
    FindBodyOpen(a, full);
    assert BodyStart(text, |a|) == |front|;
    hide *;
    FindFrom(front, full + (BODY_CLOSE + "\n"), BODY_CLOSE, |front|);
    FindClose(full, BODY_CLOSE, "\n");
  }

  /** `ParsePreface` when its searches succeed. */
  lemma ParseParts(text: string, start: nat, gend: nat, b: nat, full: string)
    requires Find(text, GLOSSARY_OPEN, 0) == 0
    requires Find(text, "\n", 0) == start < gend
    requires Find(text, GLOSSARY_CLOSE, 0) == gend
    requires BodyStart(text, gend) == b && Find(text, BODY_CLOSE, b) == b + |full|
    requires text[b..b + |full|] == full
    ensures ParsePreface(text) == Some((ParseLines(text[start + 1..gend], map[]), full))
  {
    hide Find, OccursAt, BodyStart, ParseLines;
  }

  /** Parsing what `Wrap` wrote finds the glossary and the body, newline included. */
  lemma ParseWrapped(hash: string, items: seq<Entry>, g: Glossary, body: string)
    requires IsHash(hash) && Enumerates(items, g) && PlainGlossary(g)
    requires !Contains(body, BODY_CLOSE)
    ensures ParsePreface(Wrap(hash, items, body)) == Some((g, body + Newline(body)))
  {
    hide *;
    var lines, full := GlossaryLines(items), body + Newline(body);
    var h := Header(hash);
    var a := h + "\n" + lines;
    var text := a + Tail(full);
    WrapParts(hash, lines, body, items);
    PlainItems(items, g);
    BuildAll(items, g);
    ParseGlossaryLines(items, map[]);
    GlossaryLinesClean(items);
    BodyWithout(body);
    FindGlossary(hash, lines, full);
    FindBody(a, full);
    assert text[|h| + 1..|a|] == lines;
    ParseParts(text, |h|, |a|, |a| + |GLOSSARY_CLOSE| + |BODY_OPEN| + 2, full);
  }

  lemma PlainItems(items: seq<Entry>, g: Glossary)
    requires Enumerates(items, g) && PlainGlossary(g)
    ensures forall i | 0 <= i < |items| :: PlainEntry(items[i])
  {
    hide AliasShape, PlainPhrase;
  }

  lemma WrapParts(hash: string, lines: string, body: string, items: seq<Entry>)
    requires lines == GlossaryLines(items)
    ensures Wrap(hash, items, body) == (Header(hash) + "\n" + lines) + Tail(body + Newline(body))
  {
    hide GlossaryLines, Newline;
  }

  // ---- Main results -----------------------------------------------------------------------

  lemma MarkOutside(s: string, a: string, q: nat, p: nat)
    requires AliasShape(a) && OccursAt(s, a, q) && q <= p < |s| && s[p] == '<'
    ensures q + |a| <= p
  {
    AliasChars(a);
    hide AliasShape;
    OccursChars(s, a, q);
    assert forall k | 0 <= k < |a| :: a[k] in a;
  }

  /** No tag starts inside an alias. */
  lemma OutsideAliases(s: string, p: nat, g: Glossary)
    requires PlainGlossary(g) && p < |s| && s[p] == '<'
    ensures !InsideAlias(s, p, g)
  {
    hide OccursAt, PlainPhrase, AliasShape;
    forall a, q: nat | a in g && q < p && OccursAt(s, a, q) ensures p >= q + |a| {
      MarkOutside(s, a, q, p);
    }
  }

  /** A tag in a rendered body is made of plain tokens, so it is in the expanded text too. */
  lemma TagExpands(toks: seq<Token>, g: Glossary, t: string)
    requires TokensOk(toks, g) && PlainGlossary(g) && IsTag(t)
    ensures Contains(Render(toks), t) ==> Contains(Meaning(toks, g), t)
  {
    hide TokensOk, PlainGlossary, InsideAlias, Render, Meaning, OccursAt, NoSigil;
    var s := Render(toks);
    if Contains(s, t) {
      var p: nat :| OccursAt(s, t, p);
      OccursChars(s, t, p);
      assert s[p] == '<';
      OutsideAliases(s, p, g);
      var k := Locate(toks, g, t, p);
      TagMeaning(toks, g, t, k);
    }
  }

  lemma TagMeaning(toks: seq<Token>, g: Glossary, t: string, k: nat)
    requires k + |t| <= |toks| && toks[k..k + |t|] == Lits(t)
    ensures Contains(Meaning(toks, g), t)
  {
    hide *;
    var a, b := toks[..k], toks[k + |t|..];
    assert toks == a + (Lits(t) + b);
    var m, n := Meaning(a, g), Meaning(b, g);
    FindFront(t, n);
    MeaningConcat(a, Lits(t) + b, g);
    MeaningConcat(Lits(t), b, g);
    LitsRender(t, g);
    OccursInConcat(m, t + n, t, 0);
    ContainsAt(Meaning(toks, g), t, |m|);
  }

  lemma ContainsAt(s: string, t: string, p: nat)
    requires OccursAt(s, t, p)
    ensures Contains(s, t)
  {
  }

  lemma NewlineConcat(w: string, u: string)
    ensures Newline(w + u) == if u == "" then Newline(w) else Newline(u)
  {
    if u == "" {
      assert w + u == w;
    }
  }

  lemma SameEndToken(t: Token, g: Glossary)
    requires TokenOk(t, g) && PlainGlossary(g)
    ensures Newline(Spell(t)) == Newline(Word(t, g)) && Spell(t) != "" && Word(t, g) != ""
  {
    if t.Alias? {
      var a, v := t.name, g[t.name];
      assert a[2..][|a| - 3] == a[|a| - 1];
      assert v[|v| - 1] in v;
    }
  }

  /** The body ends a line exactly when the text it stands for does. */
  lemma {:induction false} SameEnd(toks: seq<Token>, g: Glossary)
    requires TokensOk(toks, g) && PlainGlossary(g)
    ensures Newline(Render(toks)) == Newline(Meaning(toks, g))
    ensures Render(toks) == "" <==> Meaning(toks, g) == ""
  {
    if toks != [] {
      assert TokenOk(toks[0], g);
      var w, u, v, m := Spell(toks[0]), Render(toks[1..]), Word(toks[0], g), Meaning(toks[1..], g);
      assert Render(toks) == w + u && Meaning(toks, g) == v + m;
      hide *;
      TokensTail(toks, g);
      SameEnd(toks[1..], g);
      SameEndToken(toks[0], g);
      NewlineConcat(w, u);
      NewlineConcat(v, m);
    }
  }

  /** Lossless mode: for every input and candidate lists, in every order the glossary may be
      written in and every order the sort of aliases may leave, parsing the preface finds the
      glossary and expanding the body gives the deduplicated input, with a final newline if it
      had none. `SafeRun` is the condition on the replacements. */
  lemma Lossless(input: string, hash: string, seeds: seq<string>, paths: seq<string>, idents: seq<string>,
                 items: seq<Entry>)
    requires IsHash(hash) && NoSigil(input) && !Contains(input, BODY_CLOSE)
    requires PlainPhrases(seeds, paths, idents) && SafeRun(input, seeds, paths, idents)
    requires Enumerates(items, Aliased(input, seeds, paths, idents).glossary)
    ensures var st, text := Aliased(input, seeds, paths, idents), Dedup(input);
            && ParsePreface(Wrap(hash, items, st.body)) == Some((st.glossary, st.body + Newline(st.body)))
            && (forall order: seq<Entry> | Enumerates(order, st.glossary) && LongestFirst(order) ::
                  && ExpandIn(st.body + Newline(st.body), order) == text + Newline(text)
                  && Leftover(text + Newline(text)) == None)
  {
    hide *;
    var st, text := Aliased(input, seeds, paths, idents), Dedup(input);
    BodyCloseIsTag();
    DedupClean(input, BODY_CLOSE);
    var toks := RunTokens(input, seeds, paths, idents);
    var g := st.glossary;
    SafeParts(input, seeds, paths, idents);
    AliasedTokens(input, seeds, paths, idents);
    StageParts(st, toks, text);
    TagExpands(toks, g, BODY_CLOSE);
    SameEnd(toks, g);
    ParseWrapped(hash, items, g, st.body);
    NoLeftover(text + Newline(text), text);
    forall order: seq<Entry> | Enumerates(order, g) && LongestFirst(order)
      ensures ExpandIn(st.body + Newline(st.body), order) == text + Newline(text)
    {
      ExpandBody(st, toks, text, order);
    }
  }

  lemma SafeParts(input: string, seeds: seq<string>, paths: seq<string>, idents: seq<string>)
    requires SafeRun(input, seeds, paths, idents)
    ensures NoCutRun(input, seeds, paths, idents)
    ensures var g := Aliased(input, seeds, paths, idents).glossary;
            Delimited(RunTokens(input, seeds, paths, idents), g, g.Keys)
  {
    hide Aliased, RunTokens, NoCutRun, Delimited;
  }

  lemma BodyCloseIsTag()
    ensures IsTag(BODY_CLOSE)
  {
  }

  lemma StageParts(st: State, toks: seq<Token>, text: string)
    requires Stage(st, toks, text)
    ensures PlainGlossary(st.glossary) && TokensOk(toks, st.glossary)
    ensures Render(toks) == st.body && Meaning(toks, st.glossary) == text
  {
  }

  lemma NoLeftover(s: string, text: string)
    requires NoSigil(text) && s == text + Newline(text)
    ensures Leftover(s) == None
  {
    assert forall i | 0 <= i < |text| :: s[i] == text[i] && text[i] in text;
    assert forall i | |text| <= i < |s| :: s[i] == '\n';
  }

  lemma ExpandBody(st: State, toks: seq<Token>, text: string, order: seq<Entry>)
    requires Stage(st, toks, text) && Delimited(toks, st.glossary, st.glossary.Keys)
    requires Enumerates(order, st.glossary) && LongestFirst(order) && Newline(st.body) == Newline(text)
    ensures ExpandIn(st.body + Newline(st.body), order) == text + Newline(text)
  {
    hide *;
    var g, nl := st.glossary, Newline(text);
    StageParts(st, toks, text);
    NewlineIs(text);
    OkSnoc(toks, nl, g);
    DelimitedSnoc(toks, nl, g, g.Keys);
    OrderParts(toks + Lits(nl), order, g);
    DelimitedFaithful(toks + Lits(nl), g, order);
    FaithfulExpands(toks + Lits(nl), g, order);
  }

  lemma NewlineIs(s: string)
    ensures Newline(s) == "" || Newline(s) == "\n"
  {
  }

  /** A final newline makes no alias longer. */
  lemma NewlineNotMisread(a: string, rest: seq<Token>, g: Glossary, b: string)
    requires AliasShape(b) && Misread(a, rest + Lits("\n"), g, b)
    ensures Misread(a, rest, g, b)
  {
    PartlyConcat(rest, Lits("\n"), g, b);
    PartlyLits("\n", g, b);
    var m := Partly(rest, g, b);
    var s := a + (m + "\n");
    assert b[|b| - 1] == b[2..][|b| - 3] == s[|b| - 1];
    assert s == (a + m) + "\n";
    assert b <= a + m;
  }

  lemma DelimitedSnoc(toks: seq<Token>, nl: string, g: Glossary, f: set<string>)
    requires Delimited(toks, g, f) && (nl == "" || nl == "\n") && forall b | b in f :: AliasShape(b)
    ensures Delimited(toks + Lits(nl), g, f)
  {
    hide Misread, AliasShape;
    var all := toks + Lits(nl);
    if nl == "" {
      assert all == toks;
    } else {
      forall i, b | 0 <= i < |all| && all[i].Alias? && b in f ensures !Misread(all[i].name, all[i + 1..], g, b) {
        assert all[i + 1..] == toks[i + 1..] + Lits(nl);
        assert toks[i].Alias?;
        if Misread(all[i].name, all[i + 1..], g, b) {
          NewlineNotMisread(all[i].name, toks[i + 1..], g, b);
        }
      }
    }
  }

  /** The final newline is one more plain token. */
  lemma OkSnoc(toks: seq<Token>, nl: string, g: Glossary)
    requires TokensOk(toks, g) && (nl == "" || nl == "\n") && PlainGlossary(g)
    ensures TokensOk(toks + Lits(nl), g) && forall b | b in g :: AliasShape(b)
    ensures Render(toks + Lits(nl)) == Render(toks) + nl
    ensures Meaning(toks + Lits(nl), g) == Meaning(toks, g) + nl
  {
    hide Meaning, Render, PlainPhrase, AliasShape;
    RenderConcat(toks, Lits(nl));
    MeaningConcat(toks, Lits(nl), g);
    LitsRender(nl, g);
  }
}
