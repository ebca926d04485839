/** Which bodies the expander reads as they were written: the condition of the lossless round trip
    is exact for that. */
module CompressorExact {
  import opened Text
  import opened Compressor
  import opened DedupProofs
  import opened CompressorRoundTrip

  // ---- Counting sigils -----------------------------------------------------------------

  function Sigils(s: string): (n: nat)
  {
    if s == "" then 0 else (if IsSigil(s[0]) then 1 else 0) + Sigils(s[1..])
  }

  lemma {:induction false} SigilsConcat(a: string, b: string)
    ensures Sigils(a + b) == Sigils(a) + Sigils(b)
  {
    if a == "" {
      assert a + b == b;
    } else {
      assert (a + b)[1..] == a[1..] + b;
      SigilsConcat(a[1..], b);
    }
  }

  lemma {:induction false} PlainSigils(s: string)
    requires NoSigil(s)
    ensures Sigils(s) == 0
  {
    if s != "" {
      PlainSigils(s[1..]);
    }
  }

  lemma AliasSigils(a: string)
    requires AliasShape(a)
    ensures Sigils(a) > 0
  {
  }

  // ---- A misread alias -----------------------------------------------------------------

  /** When the turn of `b` comes, only `b` and shorter aliases are left. */
  predicate OnlyShorter(toks: seq<Token>, b: string)
  {
    forall t | t in toks :: !Before(t, b)
  }

  lemma {:induction false} PartlyRender(toks: seq<Token>, g: Glossary, b: string)
    requires OnlyShorter(toks, b)
    ensures Partly(toks, g, b) == Render(toks)
  {
    if toks != [] {
      assert toks[0] in toks;
      PartlyRender(toks[1..], g, b);
    }
  }

  lemma MisreadOccurs(toks: seq<Token>, g: Glossary, b: string)
    requires toks != [] && toks[0].Alias? && OnlyShorter(toks, b)
    requires Misread(toks[0].name, toks[1..], g, b)
    ensures OccursAt(Render(toks), b, 0)
  {
    assert forall t | t in toks[1..] :: t in toks;
    PartlyRender(toks[1..], g, b);
    assert Render(toks) == toks[0].name + Render(toks[1..]);
    assert Render(toks)[..|b|] == b;
  }

  /** Undoing `b` where a shorter alias is misread takes that alias' sigil away. */
  lemma {:induction false} SigilsLost(toks: seq<Token>, g: Glossary, b: string)
    requires TokensOk(toks, g) && PlainGlossary(g) && b in g && OnlyShorter(toks, b)
    ensures var now, should := Sigils(ReplaceAll(Render(toks), b, g[b])), Sigils(Render(Subst(toks, b, g[b])));
            now <= should && (!Delimited(toks, g, {b}) ==> now < should)
    decreases |toks|
  {
    hide *;
    if toks == [] {
      NothingLost(g, b);
    } else {
      var t, rest := toks[0], toks[1..];
      assert toks == [t] + rest;
      FirstToken(toks, g);
      TokensTail(toks, g);
      ShorterTail(toks, b);
      SubstStep(toks, b, g[b]);
      DelimitedCons(t, rest, g, {b});
      BothPlain(g, b);
      if t == Alias(b) {
        SigilsLost(rest, g, b);
        OwnToken(t, rest, g, b);
      } else if OccursAt(Render(toks), b, 0) {
        OneLost(toks, g, b);
      } else {
        SigilsLost(rest, g, b);
        OtherToken(toks, g, b);
      }
    }
  }

  lemma NothingLost(g: Glossary, b: string)
    requires b in g && PlainGlossary(g)
    ensures ReplaceAll(Render([]), b, g[b]) == "" == Render(Subst([], b, g[b])) && Delimited([], g, {b})
  {
  }

  lemma ShorterTail(toks: seq<Token>, b: string)
    requires toks != [] && OnlyShorter(toks, b)
    ensures OnlyShorter(toks[1..], b) && (toks[0].Alias? && toks[0].name != b ==> |toks[0].name| < |b|)
  {
    assert toks[0] in toks && forall t | t in toks[1..] :: t in toks;
  }

  lemma BothPlain(g: Glossary, b: string)
    requires b in g && PlainGlossary(g)
    ensures AliasShape(b) && NoSigil(g[b]) && b != ""
  {
  }

  lemma OwnToken(t: Token, rest: seq<Token>, g: Glossary, b: string)
    requires t == Alias(b) && b in g && b != "" && NoSigil(g[b])
    ensures Sigils(ReplaceAll(b + Render(rest), b, g[b])) == Sigils(ReplaceAll(Render(rest), b, g[b]))
    ensures Sigils(Render(Lits(g[b]) + Subst(rest, b, g[b]))) == Sigils(Render(Subst(rest, b, g[b])))
    ensures Spell(t) == b && !Misread(b, rest, g, b)
  {
    assert Spell(t) == b && !Misread(b, rest, g, b);
    hide *;
    var out := Subst(rest, b, g[b]);
    ReplaceFront(b, Render(rest), g[b]);
    RenderConcat(Lits(g[b]), out);
    LitsRender(g[b], g);
    PlainSigils(g[b]);
    SigilsConcat(g[b], ReplaceAll(Render(rest), b, g[b]));
    SigilsConcat(g[b], Render(out));
  }

  /** A token in which `b` does not start. */
  lemma OtherToken(toks: seq<Token>, g: Glossary, b: string)
    requires TokensOk(toks, g) && toks != [] && AliasShape(b) && b in g && b != ""
    requires OnlyShorter(toks, b) && !OccursAt(Render(toks), b, 0)
    ensures var rest := toks[1..];
            && Sigils(ReplaceAll(Render(toks), b, g[b]))
               == Sigils(Spell(toks[0])) + Sigils(ReplaceAll(Render(rest), b, g[b]))
            && Sigils(Render([toks[0]] + Subst(rest, b, g[b])))
               == Sigils(Spell(toks[0])) + Sigils(Render(Subst(rest, b, g[b])))
            && (toks[0].Alias? ==> !Misread(toks[0].name, rest, g, b))
  {
    hide *;
    var t, rest := toks[0], toks[1..];
    var out := [t] + Subst(rest, b, g[b]);
    FirstToken(toks, g);
    NotInside(Spell(t), Render(rest), b);
    ReplaceSkip(Spell(t), Render(rest), b, g[b]);
    SigilsConcat(Spell(t), ReplaceAll(Render(rest), b, g[b]));
    RenderStep(out);
    assert out[1..] == Subst(rest, b, g[b]);
    SigilsConcat(Spell(t), Render(out[1..]));
    if t.Alias? && Misread(t.name, rest, g, b) {
      MisreadOccurs(toks, g, b);
    }
  }

  lemma NotInside(w: string, u: string, b: string)
    requires w != "" && (|w| > 1 ==> AliasShape(w)) && AliasShape(b) && !OccursAt(w + u, b, 0)
    ensures forall k: nat | k < |w| :: !OccursAt(w + u, b, k)
  {
    forall k: nat | 0 < k < |w| ensures !OccursAt(w + u, b, k) {
      AliasMarks(w, k);
      OccursChars(w + u, b, k);
    }
  }

  /** A shorter alias that is misread as `b`. */
  lemma OneLost(toks: seq<Token>, g: Glossary, b: string)
    requires TokensOk(toks, g) && PlainGlossary(g) && b in g && OnlyShorter(toks, b)
    requires toks != [] && toks[0] != Alias(b) && OccursAt(Render(toks), b, 0)
    ensures Sigils(ReplaceAll(Render(toks), b, g[b])) < Sigils(Render(Subst(toks, b, g[b])))
    decreases |toks|, 0
  {
    hide *;
    var t, rest := toks[0], toks[1..];
    BothPlain(g, b);
    FirstToken(toks, g);
    TokensTail(toks, g);
    ShorterTail(toks, b);
    AliasInFront(toks, g, b);
    var w := t.name;
    AliasToken(toks, g);
    AliasTail(b, |w|);
    FrontParts(w, Render(rest), b);
    var d := b[|w|..];
    FrontIsLits(rest, g, d);
    var post := rest[|d|..];
    assert rest == Lits(d) + post;
    TokensDrop(rest, g, |d|);
    ShorterDrop(rest, b, |d|);
    SigilsLost(post, g, b);
    // The text.
    RenderConcat(Lits(d), post);
    LitsRender(d, g);
    TwoParts(w, d, Render(post), b);
    ReplaceFront(b, Render(post), g[b]);
    PlainSigils(g[b]);
    SigilsConcat(g[b], ReplaceAll(Render(post), b, g[b]));
    // The tokens.
    SubstStep(toks, b, g[b]);
    SubstLits(d, post, b, g[b]);
    var out := Subst(post, b, g[b]);
    RenderStep([t] + (Lits(d) + out));
    assert ([t] + (Lits(d) + out))[1..] == Lits(d) + out;
    RenderConcat(Lits(d), out);
    AliasSigils(w);
    PlainSigils(d);
    SigilsConcat(w, d + Render(out));
    SigilsConcat(d, Render(out));
  }

  lemma AliasInFront(toks: seq<Token>, g: Glossary, b: string)
    requires TokensOk(toks, g) && toks != [] && AliasShape(b) && OccursAt(Render(toks), b, 0)
    ensures toks[0].Alias? && AliasShape(toks[0].name)
  {
    OccursChars(Render(toks), b, 0);
    assert TokenOk(toks[0], g);
    assert Render(toks)[0] == Spell(toks[0])[0];
  }

  lemma TwoParts(w: string, d: string, u: string, b: string)
    requires b == w + d
    ensures w + (d + u) == b + u
  {
  }

  lemma ShorterDrop(toks: seq<Token>, b: string, k: nat)
    requires OnlyShorter(toks, b) && k <= |toks|
    ensures OnlyShorter(toks[k..], b)
  {
    assert forall t | t in toks[k..] :: t in toks;
  }

  lemma {:induction false} SubstLits(d: string, post: seq<Token>, b: string, p: string)
    ensures Subst(Lits(d) + post, b, p) == Lits(d) + Subst(post, b, p)
  {
    hide *;
    if d == "" {
      assert Lits(d) + post == post && Lits(d) + Subst(post, b, p) == Subst(post, b, p);
    } else {
      SubstLits(d[1..], post, b, p);
      assert Lits(d) + post == [Lit(d[0])] + (Lits(d[1..]) + post);
      SubstStep(Lits(d) + post, b, p);
      assert (Lits(d) + post)[1..] == Lits(d[1..]) + post;
      assert Lits(d) + Subst(post, b, p) == [Lit(d[0])] + (Lits(d[1..]) + Subst(post, b, p));
    }
  }

  // ---- An order that shows it ------------------------------------------------------------

  /** `order` lists the entries of `keys` once, longest first. */
  ghost predicate Lists(order: seq<Entry>, keys: set<string>, g: Glossary)
    requires keys <= g.Keys
  {
    && (forall e | e in order :: e.0 in keys && e.1 == g[e.0])
    && Names(order) == keys && Once(order) && LongestFirst(order)
  }

  lemma LongestKey(keys: set<string>) returns (a: string)
    requires keys != {}
    ensures a in keys && forall k | k in keys :: |k| <= |a|
  {
    a :| a in keys;
    var rest := keys - {a};
    assert forall k | k in keys :: k == a || k in rest;
    if rest != {} {
      var b := LongestKey(rest);
      if |b| > |a| { a := b; }
    }
  }

  lemma Ordered(keys: set<string>, g: Glossary) returns (order: seq<Entry>)
    requires keys <= g.Keys
    ensures Lists(order, keys, g)
  {
    if keys == {} {
      order := [];
    } else {
      var a := LongestKey(keys);
      var rest := Ordered(keys - {a}, g);
      order := [(a, g[a])] + rest;
      Joined([(a, g[a])], {a}, rest, keys - {a}, g);
      assert {a} + (keys - {a}) == keys;
    }
  }

  lemma Joined(x: seq<Entry>, xs: set<string>, y: seq<Entry>, ys: set<string>, g: Glossary)
    requires xs <= g.Keys && ys <= g.Keys && xs !! ys && Lists(x, xs, g) && Lists(y, ys, g)
    requires forall a, b | a in xs && b in ys :: |a| >= |b|
    ensures Lists(x + y, xs + ys, g)
  {
    var order := x + y;
    NamesConcat(x, y);
    assert forall e | e in order :: e in x || e in y;
    assert (forall e | e in x :: e.0 in Names(x)) && forall e | e in y :: e.0 in Names(y);
    forall i, j | 0 <= i < j < |order|
      ensures order[i].0 != order[j].0 && |order[i].0| >= |order[j].0|
    {
      assert j < |x| ==> order[i] == x[i] && order[j] == x[j];
      assert |x| <= i ==> order[i] == y[i - |x|] && order[j] == y[j - |x|];
      assert i < |x| <= j ==> order[i] in x && order[j] in y;
    }
  }

  lemma NamesConcat(x: seq<Entry>, y: seq<Entry>)
    ensures Names(x + y) == Names(x) + Names(y)
  {
    assert forall e | e in x + y :: e in x || e in y;
    assert (forall e | e in x :: e in x + y) && forall e | e in y :: e in x + y;
  }

  lemma ListsAll(order: seq<Entry>, g: Glossary)
    requires Lists(order, g.Keys, g)
    ensures Enumerates(order, g) && LongestFirst(order)
  {
    assert forall i | 0 <= i < |order| :: order[i] in order;
    forall k | k in g ensures exists i :: 0 <= i < |order| && order[i].0 == k {
      assert k in Names(order);
    }
  }

  /** If an alias is misread as `b`, undoing all that may come before `b`, and then `b`, is not faithful. */
  lemma {:induction false} Unfaithful(toks: seq<Token>, g: Glossary, first: seq<Entry>, b: string, last: seq<Entry>)
    requires TokensOk(toks, g) && PlainGlossary(g) && b in g && !Delimited(toks, g, {b})
    requires forall e | e in first :: e.0 in g && e.1 == g[e.0] && |e.0| >= |b| && e.0 != b
    requires forall t | t in toks && Before(t, b) :: t.name in Names(first)
    ensures !Faithful(toks, g, first + ([(b, g[b])] + last))
    decreases |first|
  {
    hide *;
    var order := first + ([(b, g[b])] + last);
    FaithfulStep(toks, g, order);
    if first == [] {
      NoneBefore(toks, b);
      SigilsLost(toks, g, b);
      assert order[0] == (b, g[b]);
    } else {
      var a := first[0].0;
      assert order[0] == first[0] && order[1..] == first[1..] + ([(b, g[b])] + last);
      NamesStep(first);
      SubstOk(toks, g, a);
      SubstDelimited(toks, g, {b}, a);
      BeforeSome(Subst(toks, a, g[a]), b);
      Unfaithful(Subst(toks, a, g[a]), g, first[1..], b, last);
    }
  }

  lemma NoneBefore(toks: seq<Token>, b: string)
    requires forall t | t in toks && Before(t, b) :: t.name in Names([])
    ensures OnlyShorter(toks, b)
  {
  }

  lemma BeforeSome(toks: seq<Token>, b: string)
    ensures forall t | t in toks && Before(t, b) :: t.Alias?
  {
  }

  /** The expander reads a body as it was written, in every order the sort of aliases may leave, if
      and only if no alias in it is misread. */
  lemma FaithfulExactly(toks: seq<Token>, g: Glossary)
    requires TokensOk(toks, g) && PlainGlossary(g)
    ensures Delimited(toks, g, g.Keys) <==>
            forall order: seq<Entry> | Enumerates(order, g) && LongestFirst(order) :: Faithful(toks, g, order)
  {
    hide *;
    if Delimited(toks, g, g.Keys) {
      forall order: seq<Entry> | Enumerates(order, g) && LongestFirst(order) ensures Faithful(toks, g, order) {
        OrderParts(toks, order, g);
        DelimitedFaithful(toks, g, order);
      }
    } else {
      var order := MisreadOrder(toks, g);
      assert Enumerates(order, g) && LongestFirst(order) && !Faithful(toks, g, order);
    }
  }

  /** An order in which an alias is misread. */
  lemma MisreadOrder(toks: seq<Token>, g: Glossary) returns (order: seq<Entry>)
    requires TokensOk(toks, g) && PlainGlossary(g) && !Delimited(toks, g, g.Keys)
    ensures Enumerates(order, g) && LongestFirst(order) && !Faithful(toks, g, order)
  {
    hide *;
    var b := MisreadKey(toks, g);
    var hi := set k | k in g && |k| >= |b| && k != b;
    var lo := set k | k in g && |k| < |b|;
    assert hi <= g.Keys && lo <= g.Keys && {b} <= g.Keys && g.Keys == hi + ({b} + lo);
    var first := Ordered(hi, g);
    var last := Ordered(lo, g);
    OneListed(b, g);
    Joined([(b, g[b])], {b}, last, lo, g);
    Joined(first, hi, [(b, g[b])] + last, {b} + lo, g);
    order := first + ([(b, g[b])] + last);
    ListsAll(order, g);
    ListParts(first, hi, g);
    BeforeKeys(toks, g, b);
    Unfaithful(toks, g, first, b, last);
  }

  lemma OneListed(b: string, g: Glossary)
    requires b in g
    ensures Lists([(b, g[b])], {b}, g)
  {
    assert (b, g[b]) in [(b, g[b])];
  }

  lemma ListParts(order: seq<Entry>, keys: set<string>, g: Glossary)
    requires keys <= g.Keys && Lists(order, keys, g)
    ensures Names(order) == keys && forall e | e in order :: e.0 in keys && e.1 == g[e.0]
  {
  }

  lemma BeforeKeys(toks: seq<Token>, g: Glossary, b: string)
    requires TokensOk(toks, g)
    ensures forall t | t in toks && Before(t, b) :: t.name in g && |t.name| >= |b| && t.name != b
  {
    forall t | t in toks && Before(t, b) ensures t.name in g {
      var i :| 0 <= i < |toks| && toks[i] == t;
      assert TokenOk(toks[i], g);
    }
  }

  lemma MisreadKey(toks: seq<Token>, g: Glossary) returns (b: string)
    requires !Delimited(toks, g, g.Keys)
    ensures b in g && !Delimited(toks, g, {b})
  {
    hide Misread;
    var i: nat, k :| i < |toks| && toks[i].Alias? && k in g.Keys && Misread(toks[i].name, toks[i + 1..], g, k);
    b := k;
  }

  // ---- A whole run -------------------------------------------------------------------------

  /** Replacing the phrase in the body is replacing the tokens that spell it. */
  predicate Whole(toks: seq<Token>, phrase: string, alias: string)
  {
    Render(Retoken(toks, phrase, alias)) == ReplaceAll(Render(toks), phrase, alias)
  }

  predicate WholeSeeds(st: State, toks: seq<Token>, seeds: seq<string>, idx: nat)
    decreases |seeds|
  {
    if seeds == [] then true
    else if seeds[0] == "" || !Contains(st.body, seeds[0]) then WholeSeeds(st, toks, seeds[1..], idx)
    else
      var alias := "@S" + ToString(idx);
      && Whole(toks, seeds[0], alias)
      && WholeSeeds(Mint(st, alias, seeds[0]), Retoken(toks, seeds[0], alias), seeds[1..], idx + 1)
  }

  predicate WholeRanked(toks: seq<Token>, prefix: string, ranked: seq<string>, idx: nat)
    decreases |ranked|
  {
    ranked == []
    || (var alias := prefix + ToString(idx);
        Whole(toks, ranked[0], alias) && WholeRanked(Retoken(toks, ranked[0], alias), prefix, ranked[1..], idx + 1))
  }

  /** Every stage replaces whole plain text only, and the expander, in every order the sort may leave,
      undoes only aliases that were written. */
  ghost predicate ReadAsWritten(input: string, seeds: seq<string>, paths: seq<string>, idents: seq<string>)
  {
    var s0, t0 := State(Dedup(input), map[]), Lits(Dedup(input));
    var t1 := SeedTokens(s0, t0, seeds, 1);
    var g := Aliased(input, seeds, paths, idents).glossary;
    && WholeSeeds(s0, t0, seeds, 1) && WholeRanked(t1, "@P", paths, 1)
    && WholeRanked(RankedTokens(t1, "@P", paths, 1), "$I", idents, 1)
    && forall order: seq<Entry> | Enumerates(order, g) && LongestFirst(order) ::
         Faithful(RunTokens(input, seeds, paths, idents), g, order)
  }

  lemma WholeIs(toks: seq<Token>, phrase: string, prefix: string, idx: nat, g: Glossary)
    requires TokensOk(toks, g) && PlainPhrase(phrase) && Family(prefix)
    ensures Whole(toks, phrase, prefix + ToString(idx)) <==> NoCut(toks, phrase)
  {
    AliasIsShaped(prefix, idx);
    hide TokensOk, AliasShape, NoCut;
    RetokenExact(toks, phrase, prefix + ToString(idx), g);
  }

  lemma StageTokens(st: State, toks: seq<Token>, text: string)
    requires Stage(st, toks, text)
    ensures TokensOk(toks, st.glossary) && PlainGlossary(st.glossary)
  {
  }

  lemma {:induction false} SeedsExact(st: State, toks: seq<Token>, text: string, seeds: seq<string>, idx: nat)
    requires Stage(st, toks, text) && FreeFrom(st.glossary, "@S", idx)
    requires forall s | s in seeds :: s == "" || PlainPhrase(s)
    ensures WholeSeeds(st, toks, seeds, idx) <==> NoCutSeeds(st, toks, seeds, idx)
    decreases |seeds|
  {
    hide Stage, FreeFrom, NoCut, Whole, PlainPhrase, Mint, Contains, Retoken;
    if seeds != [] {
      if seeds[0] == "" || !Contains(st.body, seeds[0]) {
        SeedsExact(st, toks, text, seeds[1..], idx);
      } else {
        assert seeds[0] in seeds;
        var alias := "@S" + ToString(idx);
        StageTokens(st, toks, text);
        WholeIs(toks, seeds[0], "@S", idx, st.glossary);
        if NoCut(toks, seeds[0]) {
          MintStage(st, toks, text, "@S", idx, seeds[0]);
          MintFree(st, "@S", idx, seeds[0]);
          SeedsExact(Mint(st, alias, seeds[0]), Retoken(toks, seeds[0], alias), text, seeds[1..], idx + 1);
        }
      }
    }
  }

  lemma {:induction false} RankedExact(
      st: State, toks: seq<Token>, text: string, prefix: string, ranked: seq<string>, idx: nat)
    requires Stage(st, toks, text) && Family(prefix) && FreeFrom(st.glossary, prefix, idx)
    requires forall s | s in ranked :: PlainPhrase(s)
    ensures WholeRanked(toks, prefix, ranked, idx) <==> NoCutRanked(toks, prefix, ranked, idx)
    decreases |ranked|
  {
    hide Stage, FreeFrom, NoCut, Whole, PlainPhrase, Mint, Family, Retoken;
    if ranked != [] {
      assert ranked[0] in ranked;
      var alias := prefix + ToString(idx);
      StageTokens(st, toks, text);
      WholeIs(toks, ranked[0], prefix, idx, st.glossary);
      if NoCut(toks, ranked[0]) {
        MintStage(st, toks, text, prefix, idx, ranked[0]);
        MintFree(st, prefix, idx, ranked[0]);
        RankedExact(Mint(st, alias, ranked[0]), Retoken(toks, ranked[0], alias), text, prefix, ranked[1..], idx + 1);
      }
    }
  }

  lemma WholeRun(input: string, seeds: seq<string>, paths: seq<string>, idents: seq<string>)
    requires NoSigil(Dedup(input)) && PlainPhrases(seeds, paths, idents)
    ensures var s0, t0 := State(Dedup(input), map[]), Lits(Dedup(input));
            var t1 := SeedTokens(s0, t0, seeds, 1);
            NoCutRun(input, seeds, paths, idents) <==>
            && WholeSeeds(s0, t0, seeds, 1) && WholeRanked(t1, "@P", paths, 1)
            && WholeRanked(RankedTokens(t1, "@P", paths, 1), "$I", idents, 1)
  {
    var text := Dedup(input);
    var s0, t0 := State(text, map[]), Lits(text);
    LitsRender(text, map[]);
    assert Stage(s0, t0, text);
    hide Stage, NoCutSeeds, NoCutRanked, WholeSeeds, WholeRanked, SeedStage, RankedStage, Dedup, SeedTokens,
      RankedTokens;
    SeedsExact(s0, t0, text, seeds, 1);
    if NoCutSeeds(s0, t0, seeds, 1) {
      SeedsKeepText(s0, t0, text, seeds, 1);
      var s1, t1 := SeedStage(s0, seeds, 1), SeedTokens(s0, t0, seeds, 1);
      RankedExact(s1, t1, text, "@P", paths, 1);
      if NoCutRanked(t1, "@P", paths, 1) {
        RankedKeepText(s1, t1, text, "@P", paths, 1);
        RankedExact(RankedStage(s1, "@P", paths, 1), RankedTokens(t1, "@P", paths, 1), text, "$I", idents, 1);
      }
    }
  }

  /** The condition of the round trip holds of a run if and only if what is read is what was written,
      at every replacement and in every order of undoing them. */
  lemma SafeExactly(input: string, seeds: seq<string>, paths: seq<string>, idents: seq<string>)
    requires NoSigil(input) && PlainPhrases(seeds, paths, idents)
    ensures SafeRun(input, seeds, paths, idents) <==> ReadAsWritten(input, seeds, paths, idents)
  {
    DedupSigils(input);
    hide *;
    var toks, g := RunTokens(input, seeds, paths, idents), Aliased(input, seeds, paths, idents).glossary;
    WholeRun(input, seeds, paths, idents);
    SafeIs(input, seeds, paths, idents);
    if NoCutRun(input, seeds, paths, idents) {
      AliasedTokens(input, seeds, paths, idents);
      StageTokens(Aliased(input, seeds, paths, idents), toks, Dedup(input));
      FaithfulExactly(toks, g);
    }
  }

  lemma SafeIs(input: string, seeds: seq<string>, paths: seq<string>, idents: seq<string>)
    ensures var s0, t0 := State(Dedup(input), map[]), Lits(Dedup(input));
            var t1 := SeedTokens(s0, t0, seeds, 1);
            var g := Aliased(input, seeds, paths, idents).glossary;
            && (SafeRun(input, seeds, paths, idents) <==>
                NoCutRun(input, seeds, paths, idents) && Delimited(RunTokens(input, seeds, paths, idents), g, g.Keys))
            && (ReadAsWritten(input, seeds, paths, idents) <==>
                && WholeSeeds(s0, t0, seeds, 1) && WholeRanked(t1, "@P", paths, 1)
                && WholeRanked(RankedTokens(t1, "@P", paths, 1), "$I", idents, 1)
                && forall order: seq<Entry> | Enumerates(order, g) && LongestFirst(order) ::
                     Faithful(RunTokens(input, seeds, paths, idents), g, order))
  {
    hide Dedup, Aliased, SeedTokens, RankedTokens, WholeSeeds, WholeRanked, NoCutRun, RunTokens, Delimited, Faithful;
    hide Enumerates, LongestFirst;
  }
}
