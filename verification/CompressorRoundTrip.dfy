/** Expanding a compressed text gives the deduplicated text back. The body is read as
    tokens, plain characters and whole aliases, and each stage is followed on tokens. */
module CompressorRoundTrip {
  import opened Text
  import opened Compressor
  import opened DedupProofs

  datatype Token = Lit(c: char) | Alias(name: string)

  type Glossary = map<string, string>

  predicate IsSigil(c: char)
  {
    c == '@' || c == '$'
  }

  /** A sigil, a family letter, then at least one digit. */
  predicate AliasShape(a: string)
  {
    |a| >= 3 && IsSigil(a[0]) && (a[1] == 'S' || a[1] == 'P' || a[1] == 'I') && AllDigits(a[2..])
  }

  function Spell(t: Token): (s: string)
  {
    match t
    case Lit(c) => [c]
    case Alias(a) => a
  }

  /** The body the tokens stand for. */
  function Render(toks: seq<Token>): (s: string)
  {
    if toks == [] then "" else Spell(toks[0]) + Render(toks[1..])
  }

  function Word(t: Token, g: Glossary): (s: string)
  {
    match t
    case Lit(c) => [c]
    case Alias(a) => if a in g then g[a] else ""
  }

  /** The text the tokens expand to. */
  function Meaning(toks: seq<Token>, g: Glossary): (s: string)
  {
    if toks == [] then "" else Word(toks[0], g) + Meaning(toks[1..], g)
  }

  /** The alias may be undone before `b`. */
  predicate Before(t: Token, b: string)
  {
    t.Alias? && |t.name| >= |b| && t.name != b
  }

  /** The text when all aliases that may be undone before `b` are. */
  function Partly(toks: seq<Token>, g: Glossary, b: string): (s: string)
  {
    if toks == [] then ""
    else (if Before(toks[0], b) then Word(toks[0], g) else Spell(toks[0])) + Partly(toks[1..], g, b)
  }

  /** When the turn of `b` comes, the shorter alias `a` and the text after it read as `b`. */
  predicate Misread(a: string, rest: seq<Token>, g: Glossary, b: string)
  {
    |b| > |a| && b <= a + Partly(rest, g, b)
  }

  /** No alias among the tokens is misread as one of `f`. */
  predicate Delimited(toks: seq<Token>, g: Glossary, f: set<string>)
  {
    forall i, b | 0 <= i < |toks| && toks[i].Alias? && b in f :: !Misread(toks[i].name, toks[i + 1..], g, b)
  }

  predicate TokenOk(t: Token, g: Glossary)
  {
    match t
    case Lit(c) => !IsSigil(c)
    case Alias(a) => a in g && AliasShape(a)
  }

  predicate TokensOk(toks: seq<Token>, g: Glossary)
  {
    forall i | 0 <= i < |toks| :: TokenOk(toks[i], g)
  }

  /** Phrases are non-empty and free of sigils, newlines and the glossary's closing tag. */
  predicate PlainPhrase(p: string)
  {
    p != "" && NoSigil(p) && '\n' !in p && !Contains(p, GLOSSARY_CLOSE)
  }

  predicate PlainGlossary(g: Glossary)
  {
    forall a | a in g :: PlainPhrase(g[a]) && AliasShape(a)
  }

  function Lits(s: string): (toks: seq<Token>)
    ensures |toks| == |s| && forall i | 0 <= i < |s| :: toks[i] == Lit(s[i])
  {
    seq(|s|, i requires 0 <= i < |s| => Lit(s[i]))
  }

  // ---- Tokens and their concatenation ------------------------------------------------

  lemma {:induction false} RenderConcat(a: seq<Token>, b: seq<Token>)
    ensures Render(a + b) == Render(a) + Render(b)
  {
    if a == [] {
      assert a + b == b;
    } else {
      assert (a + b)[1..] == a[1..] + b;
      RenderConcat(a[1..], b);
    }
  }

  lemma {:induction false} MeaningConcat(a: seq<Token>, b: seq<Token>, g: Glossary)
    ensures Meaning(a + b, g) == Meaning(a, g) + Meaning(b, g)
  {
    if a == [] {
      assert a + b == b;
    } else {
      assert (a + b)[1..] == a[1..] + b;
      MeaningConcat(a[1..], b, g);
    }
  }

  lemma {:induction false} LitsRender(s: string, g: Glossary)
    ensures Render(Lits(s)) == s && Meaning(Lits(s), g) == s
  {
    if s != "" {
      assert Lits(s)[1..] == Lits(s[1..]);
      LitsRender(s[1..], g);
    }
  }

  /** The glossary may grow by an alias the tokens do not use. */
  lemma {:induction false} MeaningGrows(toks: seq<Token>, g: Glossary, a: string, p: string)
    requires forall i | 0 <= i < |toks| :: TokenOk(toks[i], g)
    requires a !in g
    ensures Meaning(toks, g[a := p]) == Meaning(toks, g)
  {
    if toks != [] {
      MeaningGrows(toks[1..], g, a, p);
    }
  }

  lemma {:induction false} PartlyConcat(a: seq<Token>, b: seq<Token>, g: Glossary, n: string)
    ensures Partly(a + b, g, n) == Partly(a, g, n) + Partly(b, g, n)
  {
    if a == [] {
      assert a + b == b;
    } else {
      assert (a + b)[1..] == a[1..] + b;
      PartlyConcat(a[1..], b, g, n);
    }
  }

  lemma {:induction false} PartlyLits(s: string, g: Glossary, n: string)
    ensures Partly(Lits(s), g, n) == s
  {
    if s != "" {
      assert Lits(s)[1..] == Lits(s[1..]);
      PartlyLits(s[1..], g, n);
    }
  }

  lemma TokensTail(toks: seq<Token>, g: Glossary)
    requires toks != [] && TokensOk(toks, g)
    ensures TokensOk(toks[1..], g)
  {
  }

  lemma DelimitedTail(toks: seq<Token>, g: Glossary, f: set<string>)
    requires toks != [] && Delimited(toks, g, f)
    ensures Delimited(toks[1..], g, f)
    ensures forall b | b in f && toks[0].Alias? :: !Misread(toks[0].name, toks[1..], g, b)
  {
    hide Misread;
    var t := toks[1..];
    forall i, b | 0 <= i < |t| && t[i].Alias? && b in f ensures !Misread(t[i].name, t[i + 1..], g, b) {
      assert t[i + 1..] == toks[i + 2..];
      assert toks[i + 1].Alias?;
    }
  }

  lemma DelimitedCons(t: Token, toks: seq<Token>, g: Glossary, f: set<string>)
    ensures Delimited([t] + toks, g, f) <==>
            Delimited(toks, g, f) && forall b | b in f && t.Alias? :: !Misread(t.name, toks, g, b)
  {
    hide Misread;
    var r := [t] + toks;
    assert r[1..] == toks;
    if Delimited(r, g, f) {
      DelimitedTail(r, g, f);
    }
    if Delimited(toks, g, f) && forall b | b in f && t.Alias? :: !Misread(t.name, toks, g, b) {
      forall i, b | 0 <= i < |r| && r[i].Alias? && b in f ensures !Misread(r[i].name, r[i + 1..], g, b) {
        if i > 0 {
          assert r[i + 1..] == toks[i..];
          assert toks[i - 1].Alias?;
        }
      }
    }
  }

  // ---- Where a phrase can be replaced -------------------------------------------------

  /** The replacement takes no occurrence of `needle` that starts inside an alias. */
  predicate NoCut(toks: seq<Token>, needle: string)
    decreases |toks|
  {
    if toks == [] || needle == "" then true
    else if Lits(needle) <= toks then NoCut(toks[|needle|..], needle)
    else !CutsFirst(toks, needle) && NoCut(toks[1..], needle)
  }

  /** An occurrence of `needle` starts inside the alias in front. */
  predicate CutsFirst(toks: seq<Token>, needle: string)
    requires toks != []
  {
    exists k | 0 < k < |Spell(toks[0])| :: OccursAt(Render(toks), needle, k)
  }

  predicate NoCutSeeds(st: State, toks: seq<Token>, seeds: seq<string>, idx: nat)
    decreases |seeds|
  {
    if seeds == [] then true
    else if seeds[0] == "" || !Contains(st.body, seeds[0]) then NoCutSeeds(st, toks, seeds[1..], idx)
    else
      var alias := "@S" + ToString(idx);
      && NoCut(toks, seeds[0])
      && NoCutSeeds(Mint(st, alias, seeds[0]), Retoken(toks, seeds[0], alias), seeds[1..], idx + 1)
  }

  predicate NoCutRanked(toks: seq<Token>, prefix: string, ranked: seq<string>, idx: nat)
    decreases |ranked|
  {
    ranked == []
    || (&& NoCut(toks, ranked[0])
        && NoCutRanked(Retoken(toks, ranked[0], prefix + ToString(idx)), prefix, ranked[1..], idx + 1))
  }

  /** The tokens after every run of plain tokens that spells `needle` has become one alias. */
  function Retoken(toks: seq<Token>, needle: string, alias: string): (out: seq<Token>)
    decreases |toks|
  {
    if toks == [] || needle == "" then toks
    else if Lits(needle) <= toks then [Alias(alias)] + Retoken(toks[|needle|..], needle, alias)
    else [toks[0]] + Retoken(toks[1..], needle, alias)
  }

  function SeedTokens(st: State, toks: seq<Token>, seeds: seq<string>, idx: nat): (out: seq<Token>)
    decreases |seeds|
  {
    if seeds == [] then toks
    else if seeds[0] == "" || !Contains(st.body, seeds[0]) then SeedTokens(st, toks, seeds[1..], idx)
    else
      var alias := "@S" + ToString(idx);
      SeedTokens(Mint(st, alias, seeds[0]), Retoken(toks, seeds[0], alias), seeds[1..], idx + 1)
  }

  function RankedTokens(toks: seq<Token>, prefix: string, ranked: seq<string>, idx: nat): (out: seq<Token>)
    decreases |ranked|
  {
    if ranked == [] then toks
    else RankedTokens(Retoken(toks, ranked[0], prefix + ToString(idx)), prefix, ranked[1..], idx + 1)
  }

  /** The tokens of the finished body. */
  function RunTokens(input: string, seeds: seq<string>, paths: seq<string>, idents: seq<string>): (toks: seq<Token>)
  {
    var text := Dedup(input);
    var t1 := SeedTokens(State(text, map[]), Lits(text), seeds, 1);
    RankedTokens(RankedTokens(t1, "@P", paths, 1), "$I", idents, 1)
  }

  predicate NoCutRun(input: string, seeds: seq<string>, paths: seq<string>, idents: seq<string>)
  {
    var s0, t0 := State(Dedup(input), map[]), Lits(Dedup(input));
    var t1 := SeedTokens(s0, t0, seeds, 1);
    && NoCutSeeds(s0, t0, seeds, 1) && NoCutRanked(t1, "@P", paths, 1)
    && NoCutRanked(RankedTokens(t1, "@P", paths, 1), "$I", idents, 1)
  }

  /** The caller's condition: no replacement cuts an earlier alias, and no alias of the finished body
      is misread as a longer alias of the glossary. */
  predicate SafeRun(input: string, seeds: seq<string>, paths: seq<string>, idents: seq<string>)
  {
    var g := Aliased(input, seeds, paths, idents).glossary;
    NoCutRun(input, seeds, paths, idents) && Delimited(RunTokens(input, seeds, paths, idents), g, g.Keys)
  }

  // ---- Occurrences in a body -----------------------------------------------------------

  /** Offset `p` is inside an alias that starts before it. */
  predicate InsideAlias(s: string, p: nat, g: Glossary)
  {
    exists a, q | a in g && 0 <= q < p :: OccursAt(s, a, q) && p < q + |a|
  }

  /** Dropping the first `k` characters keeps an offset outside aliases. */
  lemma InsideShift(s: string, k: nat, p: nat, g: Glossary)
    requires k <= p
    ensures k <= |s| && InsideAlias(s[k..], p - k, g) ==> InsideAlias(s, p, g)
  {
    hide OccursAt;
    if k <= |s| && InsideAlias(s[k..], p - k, g) {
      var a, q :| a in g && 0 <= q < p - k && OccursAt(s[k..], a, q) && p - k < q + |a|;
      OccursInConcat(s[..k], s[k..], a, q);
      assert s[..k] + s[k..] == s;
      assert OccursAt(s, a, k + q);
    }
  }

  /** Offsets inside the alias a body starts with are recognised as such. */
  lemma InsideFirst(a: string, rest: string, p: nat, g: Glossary)
    requires a in g && 0 < p < |a|
    ensures InsideAlias(a + rest, p, g)
  {
    assert OccursAt(a + rest, a, 0);
  }

  lemma FrontStep(toks: seq<Token>, g: Glossary, t: string)
    requires TokensOk(toks, g) && t != "" && !IsSigil(t[0]) && OccursAt(Render(toks), t, 0)
    ensures toks != [] && toks[0] == Lit(t[0]) && OccursAt(Render(toks[1..]), t[1..], 0)
  {
    var s := Render(toks);
    assert s[..|t|] == t;
    assert s[0] == t[0];
    assert TokenOk(toks[0], g);
    var u := Render(toks[1..]);
    assert s == [t[0]] + u;
    hide Render;
    assert u[..|t| - 1] == s[1..|t|] == t[1..];
  }

  /** Text without sigils at the front of a body is plain tokens. */
  lemma {:induction false} FrontIsLits(toks: seq<Token>, g: Glossary, t: string)
    requires TokensOk(toks, g) && NoSigil(t)
    requires OccursAt(Render(toks), t, 0)
    ensures |t| <= |toks| && toks[..|t|] == Lits(t)
    decreases |t|
  {
    hide TokensOk, Render, OccursAt;
    if t != "" {
      assert t[0] in t;
      FrontStep(toks, g, t);
      TokensTail(toks, g);
      FrontIsLits(toks[1..], g, t[1..]);
      assert toks[..|t|] == [toks[0]] + toks[1..][..|t| - 1];
    }
  }

  lemma FirstToken(toks: seq<Token>, g: Glossary)
    requires TokensOk(toks, g) && toks != []
    ensures TokenOk(toks[0], g) && Render(toks) == Spell(toks[0]) + Render(toks[1..])
    ensures |Spell(toks[0])| >= 1 && (|Spell(toks[0])| > 1 ==> AliasShape(Spell(toks[0])))
  {
    hide Meaning, Render, Delimited;
    assert TokenOk(toks[0], g);
    RenderStep(toks);
  }

  lemma LongIsAlias(toks: seq<Token>, g: Glossary)
    requires toks != [] && TokenOk(toks[0], g) && |Spell(toks[0])| > 1
    ensures Spell(toks[0]) in g
  {
  }

  lemma RenderStep(toks: seq<Token>)
    requires toks != []
    ensures Render(toks) == Spell(toks[0]) + Render(toks[1..])
  {
  }

  /** An occurrence not inside an alias, behind the first token, is one in the other tokens. */
  lemma LocateStep(toks: seq<Token>, g: Glossary, t: string, p: nat)
    requires TokensOk(toks, g) && toks != [] && p > 0
    requires OccursAt(Render(toks), t, p) && t != "" && !InsideAlias(Render(toks), p, g)
    ensures var w, u := Spell(toks[0]), Render(toks[1..]);
            && |w| <= p && Render(toks) == w + u
            && OccursAt(u, t, p - |w|) && !InsideAlias(u, p - |w|, g)
  {
    hide *;
    var s, w, u := Render(toks), Spell(toks[0]), Render(toks[1..]);
    FirstToken(toks, g);
    OccursChars(s, t, p);
    if p < |w| {
      LongIsAlias(toks, g);
      InsideFirst(w, u, p, g);
    }
    OccursInConcat(w, u, t, p - |w|);
    assert s[|w|..] == u;
    InsideShift(s, |w|, p, g);
  }

  /** An occurrence that does not start inside an alias covers whole plain tokens. */
  lemma {:induction false} Locate(toks: seq<Token>, g: Glossary, t: string, p: nat) returns (k: nat)
    requires TokensOk(toks, g) && NoSigil(t) && t != ""
    requires OccursAt(Render(toks), t, p) && !InsideAlias(Render(toks), p, g)
    ensures k + |t| <= |toks|
    ensures |Render(toks[..k])| == p
    ensures toks[k..k + |t|] == Lits(t)
    decreases |toks|
  {
    hide *;
    if p == 0 {
      FrontIsLits(toks, g, t);
      NoneRendered(toks);
      return 0;
    }
    SomeToken(toks, t, p);
    var w := Spell(toks[0]);
    LocateStep(toks, g, t, p);
    TokensTail(toks, g);
    var j := Locate(toks[1..], g, t, p - |w|);
    BehindFirst(toks, j, |t|);
    k := j + 1;
  }

  lemma NoneRendered(toks: seq<Token>)
    ensures toks[..0] == [] && |Render(toks[..0])| == 0
    ensures forall n | 0 <= n <= |toks| :: toks[0..0 + n] == toks[..n]
  {
  }

  lemma SomeToken(toks: seq<Token>, t: string, p: nat)
    requires OccursAt(Render(toks), t, p) && t != ""
    ensures toks != []
  {
  }

  lemma BehindFirst(toks: seq<Token>, j: nat, n: nat)
    requires toks != [] && j + n < |toks|
    ensures Render(toks[..j + 1]) == Spell(toks[0]) + Render(toks[1..][..j])
    ensures toks[j + 1..j + 1 + n] == toks[1..][j..j + n]
  {
    assert toks[..j + 1][1..] == toks[1..][..j];
  }

  // ---- Minting one alias ---------------------------------------------------------------

  /** A text without sigils is at the front of a body only as plain tokens. */
  lemma NoStart(toks: seq<Token>, needle: string, g: Glossary)
    requires TokensOk(toks, g) && NoSigil(needle) && !(Lits(needle) <= toks)
    ensures !OccursAt(Render(toks), needle, 0)
  {
    hide *;
    if OccursAt(Render(toks), needle, 0) {
      FrontIsLits(toks, g, needle);
    }
  }

  lemma NoCutStep(toks: seq<Token>, needle: string)
    requires toks != [] && needle != ""
    ensures Lits(needle) <= toks ==> NoCut(toks, needle) == NoCut(toks[|needle|..], needle)
    ensures !(Lits(needle) <= toks) ==> NoCut(toks, needle) == (!CutsFirst(toks, needle) && NoCut(toks[1..], needle))
  {
    hide CutsFirst;
  }

  lemma WhereCut(toks: seq<Token>, needle: string) returns (k: nat)
    requires toks != [] && CutsFirst(toks, needle)
    ensures 0 < k < |Spell(toks[0])| && OccursAt(Render(toks), needle, k)
  {
    hide OccursAt, Render, Spell;
    k :| 0 < k < |Spell(toks[0])| && OccursAt(Render(toks), needle, k);
  }

  lemma NowhereCut(toks: seq<Token>, needle: string)
    requires toks != [] && !CutsFirst(toks, needle) && !OccursAt(Render(toks), needle, 0)
    ensures forall k: nat | k < |Spell(toks[0])| :: !OccursAt(Render(toks), needle, k)
  {
    hide OccursAt, Render, Spell;
  }

  /** Replacing a phrase in the text is replacing its tokens if and only if nothing is cut. */
  lemma {:induction false} RetokenExact(toks: seq<Token>, needle: string, alias: string, g: Glossary)
    requires TokensOk(toks, g) && NoSigil(needle) && needle != "" && AliasShape(alias)
    ensures Render(Retoken(toks, needle, alias)) == ReplaceAll(Render(toks), needle, alias) <==> NoCut(toks, needle)
    decreases |toks|
  {
    hide *;
    RetokenStep(toks, needle, alias);
    if toks == [] {
      NothingToReplace(needle, alias);
    } else if Lits(needle) <= toks {
      var post := toks[|needle|..];
      assert toks == Lits(needle) + post;
      RenderConcat(Lits(needle), post);
      LitsRender(needle, g);
      NoCutStep(toks, needle);
      TokensDrop(toks, g, |needle|);
      RetokenExact(post, needle, alias, g);
      ReplaceFront(needle, Render(post), alias);
      RenderStep([Alias(alias)] + Retoken(post, needle, alias));
      AliasFirst(alias, Retoken(post, needle, alias));
      SameFront(alias, Render(Retoken(post, needle, alias)), ReplaceAll(Render(post), needle, alias));
    } else {
      var t, u := toks[0], Render(toks[1..]);
      FirstToken(toks, g);
      NoStart(toks, needle, g);
      NoCutStep(toks, needle);
      var out := [t] + Retoken(toks[1..], needle, alias);
      RenderStep(out);
      assert out[1..] == Retoken(toks[1..], needle, alias);
      if CutsFirst(toks, needle) {
        var k := WhereCut(toks, needle);
        CutDiffers(Spell(t), u, needle, alias, Render(out[1..]), k);
      } else {
        NowhereCut(toks, needle);
        TokensTail(toks, g);
        RetokenExact(toks[1..], needle, alias, g);
        ReplaceSkip(Spell(t), u, needle, alias);
        SameFront(Spell(t), Render(out[1..]), ReplaceAll(u, needle, alias));
      }
    }
  }

  lemma SameFront(w: string, x: string, y: string)
    ensures w + x == w + y <==> x == y
  {
    assert (w + x)[|w|..] == x && (w + y)[|w|..] == y;
  }

  /** An alias written inside another one leaves a sigil where that had none. */
  lemma CutDiffers(w: string, u: string, needle: string, alias: string, x: string, k: nat)
    requires 0 < k < |w| && AliasShape(w) && AliasShape(alias) && needle != ""
    requires OccursAt(w + u, needle, k) && !OccursAt(w + u, needle, 0)
    ensures w + x != ReplaceAll(w + u, needle, alias)
  {
    var s := w + u;
    var p := FirstPlace(s, needle, k);
    ReplaceUnfold(s, needle, alias);
    hide ReplaceAll, Find, OccursAt, AliasShape;
    AliasMarks(w, p);
    AliasMarks(alias, 0);
    var rest := ReplaceAll(s[p + |needle|..], needle, alias);
    assert (s[..p] + alias + rest)[p] == alias[0];
    assert (w + x)[p] == w[p];
  }

  lemma FirstPlace(s: string, needle: string, k: nat) returns (p: nat)
    requires OccursAt(s, needle, k) && !OccursAt(s, needle, 0)
    ensures p == Find(s, needle, 0) && 0 < p <= k
  {
    p := Find(s, needle, 0);
  }

  /** An alias has a sigil at its front only. */
  lemma AliasMarks(a: string, k: nat)
    requires AliasShape(a) && k < |a|
    ensures IsSigil(a[k]) <==> k == 0
  {
    assert k >= 2 ==> a[2..][k - 2] == a[k];
  }

  lemma RetokenStep(toks: seq<Token>, needle: string, alias: string)
    requires needle != ""
    ensures toks == [] ==> Retoken(toks, needle, alias) == []
    ensures toks != [] && Lits(needle) <= toks ==>
              && |needle| <= |toks|
              && Retoken(toks, needle, alias) == [Alias(alias)] + Retoken(toks[|needle|..], needle, alias)
    ensures toks != [] && !(Lits(needle) <= toks) ==>
              Retoken(toks, needle, alias) == [toks[0]] + Retoken(toks[1..], needle, alias)
  {
  }

  lemma NothingToReplace(needle: string, alias: string)
    requires needle != ""
    ensures Render([]) == "" && ReplaceAll("", needle, alias) == "" && NoCut([], needle)
  {
  }

  lemma AliasFirst(alias: string, rest: seq<Token>)
    ensures Spell(([Alias(alias)] + rest)[0]) == alias && ([Alias(alias)] + rest)[1..] == rest
  {
  }

  lemma TokensDrop(toks: seq<Token>, g: Glossary, k: nat)
    requires TokensOk(toks, g) && k <= |toks|
    ensures TokensOk(toks[k..], g)
  {
  }

  /** The new tokens mean the same once the glossary has the alias. */
  lemma {:induction false} RetokenMeaning(toks: seq<Token>, needle: string, alias: string, g: Glossary)
    requires TokensOk(toks, g) && alias !in g && AliasShape(alias) && needle != ""
    ensures TokensOk(Retoken(toks, needle, alias), g[alias := needle])
    ensures Meaning(Retoken(toks, needle, alias), g[alias := needle]) == Meaning(toks, g)
    decreases |toks|
  {
    var g' := g[alias := needle];
    hide *;
    RetokenStep(toks, needle, alias);
    if toks == [] {
      NoTokens(g);
      NoTokens(g');
    } else if Lits(needle) <= toks {
      var post := toks[|needle|..];
      var rest := Retoken(post, needle, alias);
      assert toks == Lits(needle) + post;
      TokensDrop(toks, g, |needle|);
      RetokenMeaning(post, needle, alias, g);
      MeaningConcat(Lits(needle), post, g);
      LitsRender(needle, g);
      NewAlias(alias, needle, rest, g);
    } else {
      var rest := Retoken(toks[1..], needle, alias);
      TokensTail(toks, g);
      RetokenMeaning(toks[1..], needle, alias, g);
      OldToken(toks, rest, alias, needle, g);
    }
  }

  lemma NoTokens(g: Glossary)
    ensures Meaning([], g) == "" && TokensOk([], g)
  {
  }

  lemma NewAlias(alias: string, needle: string, rest: seq<Token>, g: Glossary)
    requires AliasShape(alias) && TokensOk(rest, g[alias := needle])
    ensures TokensOk([Alias(alias)] + rest, g[alias := needle])
    ensures Meaning([Alias(alias)] + rest, g[alias := needle]) == needle + Meaning(rest, g[alias := needle])
  {
    hide AliasShape;
    var out := [Alias(alias)] + rest;
    assert out[1..] == rest;
    assert forall i | 0 < i < |out| :: out[i] == rest[i - 1];
  }

  lemma OldToken(toks: seq<Token>, rest: seq<Token>, alias: string, needle: string, g: Glossary)
    requires toks != [] && TokensOk(toks, g) && alias !in g && TokensOk(rest, g[alias := needle])
    requires Meaning(rest, g[alias := needle]) == Meaning(toks[1..], g)
    ensures TokensOk([toks[0]] + rest, g[alias := needle])
    ensures Meaning([toks[0]] + rest, g[alias := needle]) == Meaning(toks, g)
  {
    hide AliasShape;
    var out := [toks[0]] + rest;
    assert TokenOk(toks[0], g);
    assert out[1..] == rest;
    assert forall i | 0 < i < |out| :: out[i] == rest[i - 1];
  }

  // ---- Undoing one alias -----------------------------------------------------------------

  /** The tokens after every alias `a` is written out as `p`. */
  function Subst(toks: seq<Token>, a: string, p: string): (out: seq<Token>)
  {
    if toks == [] then []
    else (if toks[0] == Alias(a) then Lits(p) else [toks[0]]) + Subst(toks[1..], a, p)
  }

  /** No alias among the tokens is longer than `a`. */
  predicate LongestAlias(toks: seq<Token>, a: string)
  {
    forall i | 0 <= i < |toks| && toks[i].Alias? :: |toks[i].name| <= |a|
  }

  /** Skipping text in which the needle does not start. */
  lemma {:induction false} ReplaceSkip(w: string, u: string, needle: string, alias: string)
    requires needle != "" && forall k: nat | k < |w| :: !OccursAt(w + u, needle, k)
    ensures ReplaceAll(w + u, needle, alias) == w + ReplaceAll(u, needle, alias)
  {
    var s := w + u;
    hide *;
    ReplaceUnfold(s, needle, alias);
    ReplaceUnfold(u, needle, alias);
    var p := Find(u, needle, 0);
    FindAfter(w, u, needle);
    if p != -1 {
      assert s[..|w| + p] == w + u[..p];
      assert s[|w| + p + |needle|..] == u[p + |needle|..];
    }
  }

  lemma FindAfter(w: string, u: string, needle: string)
    requires forall k: nat | k < |w| :: !OccursAt(w + u, needle, k)
    ensures var p := Find(u, needle, 0); Find(w + u, needle, 0) == if p == -1 then -1 else |w| + p
  {
    hide Find, OccursAt;
    var p := Find(u, needle, 0);
    forall k: nat ensures |w| <= k ==> (OccursAt(w + u, needle, k) <==> OccursAt(u, needle, k - |w|)) {
      if |w| <= k {
        OccursInConcat(w, u, needle, k - |w|);
      }
    }
    if p != -1 {
      FindUnique(w + u, needle, 0, |w| + p);
    }
  }

  lemma FindFront(needle: string, u: string)
    ensures OccursAt(needle + u, needle, 0) && Find(needle + u, needle, 0) == 0
  {
    assert (needle + u)[..|needle|] == needle;
  }

  /** A needle at the front is replaced there. */
  lemma ReplaceFront(needle: string, u: string, alias: string)
    requires needle != ""
    ensures ReplaceAll(needle + u, needle, alias) == alias + ReplaceAll(u, needle, alias)
  {
    hide *;
    var s := needle + u;
    FindFront(needle, u);
    ReplaceUnfold(s, needle, alias);
    assert s[|needle|..] == u && s[..0] == "";
  }

  /** Text without sigils at the front of a body is there whatever is written out. */
  lemma FrontStays(toks: seq<Token>, g: Glossary, t: string, n: string)
    requires TokensOk(toks, g) && NoSigil(t) && OccursAt(Render(toks), t, 0)
    ensures t <= Partly(toks, g, n)
  {
    hide *;
    FrontIsLits(toks, g, t);
    var rest := toks[|t|..];
    assert toks == Lits(t) + rest;
    PartlyConcat(Lits(t), rest, g, n);
    PartlyLits(t, g, n);
  }

  /** What of an alias comes after a shorter one is digits. */
  lemma AliasTail(a: string, n: nat)
    requires AliasShape(a) && 3 <= n <= |a|
    ensures NoSigil(a[n..]) && a == a[..n] + a[n..]
  {
    assert a[n..] == a[2..][n - 2..];
  }

  /** A longer alias does not stand where an alias token does. */
  lemma NoLongerFront(toks: seq<Token>, g: Glossary, b: string)
    requires toks != [] && TokensOk(toks, g) && toks[0].Alias?
    requires AliasShape(b) && |b| > |toks[0].name| && !Misread(toks[0].name, toks[1..], g, b)
    ensures !OccursAt(Render(toks), b, 0)
  {
    hide *;
    var w, u := toks[0].name, Render(toks[1..]);
    FirstToken(toks, g);
    AliasToken(toks, g);
    if OccursAt(Render(toks), b, 0) {
      AliasTail(b, |w|);
      FrontParts(w, u, b);
      TokensTail(toks, g);
      FrontStays(toks[1..], g, b[|w|..], b);
      IsMisread(w, b, toks[1..], g);
    }
  }

  lemma AliasToken(toks: seq<Token>, g: Glossary)
    requires toks != [] && toks[0].Alias? && TokenOk(toks[0], g)
    ensures var w := toks[0].name; Spell(toks[0]) == w && w in g && |w| >= 3
  {
  }

  lemma FrontParts(w: string, u: string, b: string)
    requires OccursAt(w + u, b, 0) && |w| <= |b|
    ensures b[..|w|] == w && OccursAt(u, b[|w|..], 0)
  {
    assert (w + u)[..|b|] == b;
    assert b[..|w|] == (w + u)[..|w|];
    assert b[|w|..] == u[..|b| - |w|];
  }

  lemma IsMisread(w: string, b: string, rest: seq<Token>, g: Glossary)
    requires |b| > |w| && b[..|w|] == w && b[|w|..] <= Partly(rest, g, b)
    ensures Misread(w, rest, g, b)
  {
    assert b == w + b[|w|..];
  }

  /** The longest remaining alias does not start inside the first token's spelling,
      unless that token is this alias. */
  lemma NoFalseStart(toks: seq<Token>, g: Glossary, f: set<string>, a: string, k: nat)
    requires toks != [] && TokensOk(toks, g) && Delimited(toks, g, f) && a in f && AliasShape(a)
    requires LongestAlias(toks, a) && toks[0] != Alias(a)
    requires k < |Spell(toks[0])|
    ensures !OccursAt(Render(toks), a, k)
  {
    DelimitedTail(toks, g, f);
    hide Delimited, Misread;
    var s, w := Render(toks), Spell(toks[0]);
    OccursChars(s, a, k);
    assert TokenOk(toks[0], g);
    assert s == w + Render(toks[1..]);
    assert s[k] == w[k];
    if toks[0].Alias? {
      if k == 0 {
        NoLongerStart(toks, g, a);
      } else if k >= 2 {
        assert IsDigit(w[2..][k - 2]);
      }
    }
  }

  lemma NoLongerStart(toks: seq<Token>, g: Glossary, a: string)
    requires toks != [] && TokensOk(toks, g) && AliasShape(a)
    requires LongestAlias(toks, a) && toks[0].Alias? && toks[0] != Alias(a)
    requires !Misread(toks[0].name, toks[1..], g, a)
    ensures !OccursAt(Render(toks), a, 0)
  {
    var s, w := Render(toks), toks[0].name;
    hide Misread;
    if |w| == |a| {
      FirstToken(toks, g);
      OccursChars(s, a, 0);
      assert forall k | 0 <= k < |a| :: s[k] == w[k];
      assert exists k :: 0 <= k < |a| && w[k] != a[k];
    } else {
      NoLongerFront(toks, g, a);
    }
  }

  /** Undoing the longest alias left replaces exactly its own tokens. */
  lemma {:induction false} SubstRender(toks: seq<Token>, g: Glossary, f: set<string>, a: string)
    requires TokensOk(toks, g) && Delimited(toks, g, f) && PlainGlossary(g)
    requires a in f && a in g && LongestAlias(toks, a)
    ensures Render(Subst(toks, a, g[a])) == ReplaceAll(Render(toks), a, g[a])
  {
    if toks == [] {
      assert ReplaceAll("", a, g[a]) == "";
    } else {
      var t, rest := toks[0], toks[1..];
      TokensTail(toks, g);
      DelimitedTail(toks, g, f);
      SubstRender(rest, g, f, a);
      assert Render(toks) == Spell(t) + Render(rest);
      var out := Subst(rest, a, g[a]);
      if t == Alias(a) {
        assert Subst(toks, a, g[a]) == Lits(g[a]) + out;
        hide *;
        ReplaceFront(a, Render(rest), g[a]);
        RenderConcat(Lits(g[a]), out);
        LitsRender(g[a], g);
      } else {
        assert Subst(toks, a, g[a]) == [t] + out;
        assert Render([t]) == Spell(t) by { assert [t][1..] == []; }
        forall k: nat | k < |Spell(t)| ensures !OccursAt(Spell(t) + Render(rest), a, k) {
          NoFalseStart(toks, g, f, a, k);
        }
        hide *;
        ReplaceSkip(Spell(t), Render(rest), a, g[a]);
        RenderConcat([t], out);
      }
    }
  }

  /** Writing an alias out keeps the meaning and the other aliases. */
  lemma {:induction false} SubstOk(toks: seq<Token>, g: Glossary, a: string)
    requires TokensOk(toks, g) && PlainGlossary(g) && a in g
    ensures TokensOk(Subst(toks, a, g[a]), g)
    ensures Meaning(Subst(toks, a, g[a]), g) == Meaning(toks, g)
    ensures forall t | t in Subst(toks, a, g[a]) && t.Alias? :: t in toks && t != Alias(a)
  {
    if toks != [] {
      hide *;
      var rest := toks[1..];
      TokensTail(toks, g);
      SubstOk(rest, g, a);
      var out := Subst(rest, a, g[a]);
      SubstStep(toks, a, g[a]);
      if toks[0] == Alias(a) {
        WordOut(toks, a, out, g);
      } else {
        WordStays(toks, a, out, g);
      }
    } else {
      SubstNone(a, g[a]);
    }
  }

  lemma SubstNone(a: string, p: string)
    ensures Subst([], a, p) == []
  {
  }

  lemma SubstStep(toks: seq<Token>, a: string, p: string)
    requires toks != []
    ensures Subst(toks, a, p) == (if toks[0] == Alias(a) then Lits(p) else [toks[0]]) + Subst(toks[1..], a, p)
  {
  }

  lemma WordOut(toks: seq<Token>, a: string, out: seq<Token>, g: Glossary)
    requires toks != [] && toks[0] == Alias(a) && a in g && PlainGlossary(g) && TokensOk(out, g)
    ensures TokensOk(Lits(g[a]) + out, g)
    ensures Meaning(toks[1..], g) == Meaning(out, g) ==> Meaning(Lits(g[a]) + out, g) == Meaning(toks, g)
    ensures forall t | t in Lits(g[a]) + out && t.Alias? :: t in out
  {
    var w := Lits(g[a]);
    assert PlainPhrase(g[a]);
    assert forall i | 0 <= i < |w| :: w[i] == Lit(g[a][i]) && g[a][i] in g[a];
    hide PlainPhrase;
    LitsRender(g[a], g);
    MeaningConcat(w, out, g);
  }

  lemma WordStays(toks: seq<Token>, a: string, out: seq<Token>, g: Glossary)
    requires toks != [] && toks[0] != Alias(a) && TokensOk(toks, g) && TokensOk(out, g)
    ensures TokensOk([toks[0]] + out, g)
    ensures Meaning(toks[1..], g) == Meaning(out, g) ==> Meaning([toks[0]] + out, g) == Meaning(toks, g)
  {
    hide TokenOk;
    var r := [toks[0]] + out;
    assert TokenOk(toks[0], g);
    assert r[1..] == out;
  }

  /** It keeps the text that later aliases are read in. */
  lemma {:induction false} SubstPartly(toks: seq<Token>, g: Glossary, a: string, b: string)
    requires a in g && |b| <= |a| && b != a
    ensures Partly(Subst(toks, a, g[a]), g, b) == Partly(toks, g, b)
  {
    if toks != [] {
      var t, out := toks[0], Subst(toks[1..], a, g[a]);
      SubstPartly(toks[1..], g, a, b);
      if t == Alias(a) {
        assert Partly(toks, g, b) == g[a] + Partly(toks[1..], g, b);
        hide *;
        SubstStep(toks, a, g[a]);
        PartlyLits(g[a], g, b);
        PartlyConcat(Lits(g[a]), out, g, b);
      } else {
        assert ([t] + out)[1..] == out;
      }
    }
  }

  /** Writing out an alias changes nothing about which later ones are misread. */
  lemma {:induction false} SubstDelimited(toks: seq<Token>, g: Glossary, f: set<string>, a: string)
    requires a in g && forall b | b in f :: |b| <= |a| && b != a
    ensures Delimited(Subst(toks, a, g[a]), g, f) <==> Delimited(toks, g, f)
  {
    hide *;
    if toks == [] {
      SubstNone(a, g[a]);
    } else {
      var rest := toks[1..];
      var out := Subst(rest, a, g[a]);
      assert toks == [toks[0]] + rest;
      SubstDelimited(rest, g, f, a);
      SubstStep(toks, a, g[a]);
      DelimitedCons(toks[0], rest, g, f);
      if toks[0] == Alias(a) {
        DelimitedLits(g[a], out, g, f);
        forall b | b in f ensures !Misread(a, rest, g, b) {
          NotShorter(a, rest, g, b);
        }
      } else {
        forall b | b in f && toks[0].Alias?
          ensures Misread(toks[0].name, out, g, b) <==> Misread(toks[0].name, rest, g, b)
        {
          SubstPartly(rest, g, a, b);
          SameMisread(toks[0].name, rest, out, g, b);
        }
        DelimitedCons(toks[0], out, g, f);
      }
    }
  }

  lemma NotShorter(a: string, rest: seq<Token>, g: Glossary, b: string)
    requires |b| <= |a|
    ensures !Misread(a, rest, g, b)
  {
  }

  lemma SameMisread(a: string, rest: seq<Token>, out: seq<Token>, g: Glossary, b: string)
    requires Partly(out, g, b) == Partly(rest, g, b)
    ensures Misread(a, out, g, b) <==> Misread(a, rest, g, b)
  {
  }

  lemma {:induction false} DelimitedLits(s: string, toks: seq<Token>, g: Glossary, f: set<string>)
    ensures Delimited(Lits(s) + toks, g, f) <==> Delimited(toks, g, f)
  {
    hide *;
    if s == "" {
      assert Lits(s) + toks == toks;
    } else {
      DelimitedLits(s[1..], toks, g, f);
      DelimitedCons(Lit(s[0]), Lits(s[1..]) + toks, g, f);
      assert Lits(s) + toks == [Lit(s[0])] + (Lits(s[1..]) + toks);
    }
  }

  /** The aliases in an order of expansion. */
  function Names(order: seq<Entry>): (f: set<string>)
  {
    set e | e in order :: e.0
  }

  predicate Once(order: seq<Entry>)
  {
    forall i, j | 0 <= i < j < |order| :: order[i].0 != order[j].0
  }

  /** Every undoing, in this order, replaces exactly the alias' own tokens. */
  predicate Faithful(toks: seq<Token>, g: Glossary, order: seq<Entry>)
    decreases |order|
  {
    order == []
    || (var a, p := order[0].0, order[0].1;
        && Render(Subst(toks, a, p)) == ReplaceAll(Render(toks), a, p)
        && Faithful(Subst(toks, a, p), g, order[1..]))
  }

  lemma {:induction false} DelimitedFaithful(toks: seq<Token>, g: Glossary, order: seq<Entry>)
    requires TokensOk(toks, g) && PlainGlossary(g) && LongestFirst(order) && Once(order)
    requires Delimited(toks, g, Names(order))
    requires forall e | e in order :: e.0 in g && g[e.0] == e.1
    requires forall t | t in toks && t.Alias? :: t.name in Names(order)
    ensures Faithful(toks, g, order)
    decreases |order|
  {
    hide *;
    FaithfulStep(toks, g, order);
    if order != [] {
      var a, rest := order[0].0, order[1..];
      var out := Subst(toks, a, g[a]);
      FirstIsLongest(toks, order);
      SubstRender(toks, g, Names(order), a);
      SubstOk(toks, g, a);
      FewerNames(toks, g, order);
      SubstDelimited(toks, g, Names(rest), a);
      DelimitedFaithful(out, g, rest);
    }
  }

  lemma FaithfulStep(toks: seq<Token>, g: Glossary, order: seq<Entry>)
    ensures Faithful(toks, g, order) <==>
            order == []
            || (var a, p := order[0].0, order[0].1;
                && Render(Subst(toks, a, p)) == ReplaceAll(Render(toks), a, p)
                && Faithful(Subst(toks, a, p), g, order[1..]))
  {
  }

  /** Expanding the aliases still among the tokens gives their meaning, when it is faithful. */
  lemma {:induction false} FaithfulExpands(toks: seq<Token>, g: Glossary, order: seq<Entry>)
    requires TokensOk(toks, g) && PlainGlossary(g) && Faithful(toks, g, order)
    requires forall e | e in order :: e.0 in g && g[e.0] == e.1
    requires forall t | t in toks && t.Alias? :: t.name in Names(order)
    ensures ExpandIn(Render(toks), order) == Meaning(toks, g)
    decreases |order|
  {
    if order == [] {
      NoAliases(toks, g);
    } else {
      hide *;
      var a, rest := order[0].0, order[1..];
      FaithfulStep(toks, g, order);
      NamesStep(order);
      SubstOk(toks, g, a);
      ExpandStep(Render(toks), order);
      FaithfulExpands(Subst(toks, a, g[a]), g, rest);
    }
  }

  lemma NamesStep(order: seq<Entry>)
    requires order != []
    ensures order[0] in order && forall e | e in order[1..] :: e in order
    ensures forall b | b in Names(order) && b != order[0].0 :: b in Names(order[1..])
  {
    assert forall e | e in order :: e == order[0] || e in order[1..];
  }

  /** An order of the whole glossary. */
  lemma OrderParts(toks: seq<Token>, order: seq<Entry>, g: Glossary)
    requires Enumerates(order, g) && TokensOk(toks, g)
    ensures Names(order) == g.Keys && Once(order) && forall e | e in order :: e.0 in g && g[e.0] == e.1
    ensures forall t | t in toks && t.Alias? :: t.name in Names(order)
  {
    forall k | k in g ensures k in Names(order) {
      var i :| 0 <= i < |order| && order[i].0 == k;
      assert order[i] in order;
    }
    forall t | t in toks && t.Alias? ensures t.name in g {
      var i :| 0 <= i < |toks| && toks[i] == t;
      assert TokenOk(toks[i], g);
    }
  }

  lemma FirstIsLongest(toks: seq<Token>, order: seq<Entry>)
    requires order != [] && LongestFirst(order) && Once(order)
    requires forall t | t in toks && t.Alias? :: t.name in Names(order)
    ensures LongestAlias(toks, order[0].0) && LongestFirst(order[1..]) && order[0].0 in Names(order)
    ensures Once(order[1..]) && forall b | b in Names(order[1..]) :: |b| <= |order[0].0| && b != order[0].0
    ensures order[0] in order && forall e | e in order[1..] :: e in order
    ensures forall t | t in toks && t.Alias? && t != Alias(order[0].0) :: t.name in Names(order[1..])
  {
    forall b | b in Names(order) ensures |b| <= |order[0].0| {
      var i :| 0 <= i < |order| && order[i].0 == b;
    }
    forall i | 0 <= i < |toks| && toks[i].Alias? ensures |toks[i].name| <= |order[0].0| {
      assert toks[i] in toks;
    }
    assert forall e | e in order :: e == order[0] || e in order[1..];
  }

  lemma FewerNames(toks: seq<Token>, g: Glossary, order: seq<Entry>)
    requires order != [] && Delimited(toks, g, Names(order))
    ensures Delimited(toks, g, Names(order[1..]))
  {
    hide Misread;
    assert forall e | e in order[1..] :: e in order;
    forall i, b | 0 <= i < |toks| && toks[i].Alias? && b in Names(order[1..])
      ensures !Misread(toks[i].name, toks[i + 1..], g, b)
    {
      assert b in Names(order);
    }
  }

  lemma ExpandStep(text: string, order: seq<Entry>)
    requires order != []
    ensures ExpandIn(text, order) == ExpandIn(ReplaceAll(text, order[0].0, order[0].1), order[1..])
  {
  }

  lemma {:induction false} NoAliases(toks: seq<Token>, g: Glossary)
    requires forall t | t in toks :: t.Lit?
    ensures Render(toks) == Meaning(toks, g)
  {
    if toks != [] {
      NoAliases(toks[1..], g);
    }
  }

  // ---- The stages ------------------------------------------------------------------------

  /** What every stage keeps: the body is a token list that means the dedup. */
  ghost predicate Stage(st: State, toks: seq<Token>, text: string)
  {
    && PlainGlossary(st.glossary)
    && TokensOk(toks, st.glossary)
    && Render(toks) == st.body
    && Meaning(toks, st.glossary) == text
  }

  /** Aliases of the family `prefix` numbered `idx` and up are still free. */
  ghost predicate FreeFrom(g: Glossary, prefix: string, idx: nat)
  {
    forall n: nat | idx <= n :: prefix + ToString(n) !in g
  }

  predicate Family(prefix: string)
  {
    prefix == "@S" || prefix == "@P" || prefix == "$I"
  }

  lemma AliasIsShaped(prefix: string, n: nat)
    requires Family(prefix)
    ensures AliasShape(prefix + ToString(n))
  {
    assert (prefix + ToString(n))[2..] == ToString(n);
  }

  /** Alias names determine their family and number. */
  lemma AliasInjective(p: string, m: nat, q: string, n: nat)
    requires Family(p) && Family(q) && p + ToString(m) == q + ToString(n)
    ensures p == q && m == n
  {
    var a := p + ToString(m);
    assert p == a[..2] == q;
    assert ToString(m) == a[2..] == ToString(n);
    ValueToString(m);
    ValueToString(n);
  }

  /** Minting number `idx` of one family keeps the later numbers of every family free. */
  lemma FreeAfter(g: Glossary, prefix: string, idx: nat, phrase: string, q: string, from: nat)
    requires Family(prefix) && Family(q) && FreeFrom(g, q, from)
    requires q == prefix ==> idx < from
    ensures FreeFrom(g[prefix + ToString(idx) := phrase], q, from)
  {
    forall n: nat | from <= n ensures q + ToString(n) !in g[prefix + ToString(idx) := phrase] {
      if q + ToString(n) == prefix + ToString(idx) {
        AliasInjective(q, n, prefix, idx);
      }
    }
  }

  lemma MintStage(st: State, toks: seq<Token>, text: string, prefix: string, idx: nat, phrase: string)
    requires Stage(st, toks, text) && Family(prefix) && FreeFrom(st.glossary, prefix, idx)
    requires PlainPhrase(phrase) && NoCut(toks, phrase)
    ensures var alias := prefix + ToString(idx);
            Stage(Mint(st, alias, phrase), Retoken(toks, phrase, alias), text)
  {
    var alias := prefix + ToString(idx);
    AliasIsShaped(prefix, idx);
    RetokenExact(toks, phrase, alias, st.glossary);
    RetokenMeaning(toks, phrase, alias, st.glossary);
    hide Render, Meaning, Retoken, ReplaceAll, TokensOk, NoCut, AliasShape;
  }

  /** The families' free numbers after one mint. */
  lemma MintFree(st: State, prefix: string, idx: nat, phrase: string)
    requires Family(prefix) && FreeFrom(st.glossary, prefix, idx)
    ensures FreeFrom(Mint(st, prefix + ToString(idx), phrase).glossary, prefix, idx + 1)
    ensures forall q, n: nat | Family(q) && q != prefix && FreeFrom(st.glossary, q, n) ::
              FreeFrom(Mint(st, prefix + ToString(idx), phrase).glossary, q, n)
  {
    assert FreeFrom(st.glossary, prefix, idx + 1);
    FreeAfter(st.glossary, prefix, idx, phrase, prefix, idx + 1);
    forall q, n: nat | Family(q) && q != prefix && FreeFrom(st.glossary, q, n)
      ensures FreeFrom(Mint(st, prefix + ToString(idx), phrase).glossary, q, n)
    {
      FreeAfter(st.glossary, prefix, idx, phrase, q, n);
    }
  }

  /** The seed stage keeps the meaning of the body. */
  lemma {:induction false} SeedsKeepText(st: State, toks: seq<Token>, text: string, seeds: seq<string>, idx: nat)
    requires Stage(st, toks, text) && NoCutSeeds(st, toks, seeds, idx)
    requires forall s | s in seeds :: s == "" || PlainPhrase(s)
    requires FreeFrom(st.glossary, "@S", idx)
    requires FreeFrom(st.glossary, "@P", 1) && FreeFrom(st.glossary, "$I", 1)
    ensures var r := SeedStage(st, seeds, idx);
            && Stage(r, SeedTokens(st, toks, seeds, idx), text)
            && FreeFrom(r.glossary, "@P", 1) && FreeFrom(r.glossary, "$I", 1)
    decreases |seeds|
  {
    hide Stage, FreeFrom, NoCut, PlainPhrase, Mint, Contains, Retoken;
    if seeds != [] {
      if seeds[0] == "" || !Contains(st.body, seeds[0]) {
        SeedsKeepText(st, toks, text, seeds[1..], idx);
      } else {
        assert seeds[0] in seeds;
        var alias := "@S" + ToString(idx);
        MintStage(st, toks, text, "@S", idx, seeds[0]);
        MintFree(st, "@S", idx, seeds[0]);
        SeedsKeepText(Mint(st, alias, seeds[0]), Retoken(toks, seeds[0], alias), text, seeds[1..], idx + 1);
      }
    }
  }

  /** So does each ranked stage. */
  lemma {:induction false} RankedKeepText(
      st: State, toks: seq<Token>, text: string, prefix: string, ranked: seq<string>, idx: nat)
    requires Stage(st, toks, text) && Family(prefix) && NoCutRanked(toks, prefix, ranked, idx)
    requires forall s | s in ranked :: PlainPhrase(s)
    requires FreeFrom(st.glossary, prefix, idx)
    ensures Stage(RankedStage(st, prefix, ranked, idx), RankedTokens(toks, prefix, ranked, idx), text)
    ensures forall q, n: nat | Family(q) && q != prefix && FreeFrom(st.glossary, q, n) ::
              FreeFrom(RankedStage(st, prefix, ranked, idx).glossary, q, n)
    decreases |ranked|
  {
    hide Stage, FreeFrom, NoCut, PlainPhrase, Mint, Family, Retoken;
    if ranked != [] {
      assert ranked[0] in ranked;
      var alias := prefix + ToString(idx);
      MintStage(st, toks, text, prefix, idx, ranked[0]);
      MintFree(st, prefix, idx, ranked[0]);
      RankedKeepText(Mint(st, alias, ranked[0]), Retoken(toks, ranked[0], alias), text, prefix, ranked[1..], idx + 1);
    }
  }

  /** Phrases the theorem is about: what the path and identifier patterns can match, and seeds
      that may also be empty. */
  ghost predicate PlainPhrases(seeds: seq<string>, paths: seq<string>, idents: seq<string>)
  {
    && (forall s | s in seeds :: s == "" || PlainPhrase(s))
    && (forall s | s in paths :: PlainPhrase(s))
    && (forall s | s in idents :: PlainPhrase(s))
  }

  /** After all stages the body is a token list meaning the deduplicated input. */
  lemma AliasedTokens(input: string, seeds: seq<string>, paths: seq<string>, idents: seq<string>)
    requires NoSigil(Dedup(input)) && PlainPhrases(seeds, paths, idents)
    requires NoCutRun(input, seeds, paths, idents)
    ensures Stage(Aliased(input, seeds, paths, idents), RunTokens(input, seeds, paths, idents), Dedup(input))
  {
    var text := Dedup(input);
    var toks := Lits(text);
    var s0 := State(text, map[]);
    LitsRender(text, map[]);
    assert Stage(s0, toks, text);
    hide Stage, NoCutSeeds, NoCutRanked, SeedStage, RankedStage, Dedup, SeedTokens, RankedTokens;
    var s1 := SeedStage(s0, seeds, 1);
    var s2 := RankedStage(s1, "@P", paths, 1);
    SeedsKeepText(s0, toks, text, seeds, 1);
    var t1 := SeedTokens(s0, toks, seeds, 1);
    RankedKeepText(s1, t1, text, "@P", paths, 1);
    RankedKeepText(s2, RankedTokens(t1, "@P", paths, 1), text, "$I", idents, 1);
  }
}
