/** Conditions a caller can read off the text and the phrases that make a run safe. */
module CompressorSimple {
  import opened Text
  import opened Compressor
  import opened DedupProofs
  import opened CompressorRoundTrip

  // ---- A phrase that starts like no inner part of an alias ----------------------------------

  /** Behind its sigil an alias has such characters only. */
  predicate AliasChar(c: char)
  {
    c == 'S' || c == 'P' || c == 'I' || IsDigit(c)
  }

  /** The phrase cannot start inside an alias. */
  predicate StartsOutside(p: string)
  {
    p == "" || !AliasChar(p[0])
  }

  predicate Shaped(toks: seq<Token>)
  {
    forall t | t in toks && t.Alias? :: AliasShape(t.name)
  }

  lemma InnerChars(a: string, k: nat)
    requires AliasShape(a) && 0 < k < |a|
    ensures AliasChar(a[k])
  {
    assert k >= 2 ==> a[2..][k - 2] == a[k];
  }

  lemma {:induction false} OutsideNoCut(toks: seq<Token>, needle: string)
    requires Shaped(toks) && StartsOutside(needle)
    ensures NoCut(toks, needle)
    decreases |toks|
  {
    if toks != [] && needle != "" {
      hide NoCut, AliasShape, Render, OccursAt;
      NoCutStep(toks, needle);
      if Lits(needle) <= toks {
        assert forall t | t in toks[|needle|..] :: t in toks;
        OutsideNoCut(toks[|needle|..], needle);
      } else {
        assert toks[0] in toks && forall t | t in toks[1..] :: t in toks;
        OutsideNoCut(toks[1..], needle);
        forall k | 0 < k < |Spell(toks[0])| ensures !OccursAt(Render(toks), needle, k) {
          InnerChars(Spell(toks[0]), k);
          RenderStep(toks);
          OccursChars(Render(toks), needle, k);
          assert Render(toks)[k] == Spell(toks[0])[k];
        }
      }
    }
  }

  lemma {:induction false} RetokenShaped(toks: seq<Token>, needle: string, alias: string)
    requires Shaped(toks) && AliasShape(alias)
    ensures Shaped(Retoken(toks, needle, alias))
    decreases |toks|
  {
    if toks != [] && needle != "" {
      hide Retoken, AliasShape;
      RetokenStep(toks, needle, alias);
      if Lits(needle) <= toks {
        assert forall t | t in toks[|needle|..] :: t in toks;
        RetokenShaped(toks[|needle|..], needle, alias);
      } else {
        assert toks[0] in toks && forall t | t in toks[1..] :: t in toks;
        RetokenShaped(toks[1..], needle, alias);
      }
    }
  }

  lemma {:induction false} SeedsNoCut(st: State, toks: seq<Token>, seeds: seq<string>, idx: nat)
    requires Shaped(toks) && forall s | s in seeds :: StartsOutside(s)
    ensures NoCutSeeds(st, toks, seeds, idx) && Shaped(SeedTokens(st, toks, seeds, idx))
    decreases |seeds|
  {
    hide Shaped, NoCut, Retoken, Contains, Mint, StartsOutside;
    if seeds != [] {
      if seeds[0] == "" || !Contains(st.body, seeds[0]) {
        SeedsNoCut(st, toks, seeds[1..], idx);
      } else {
        var alias := "@S" + ToString(idx);
        AliasIsShaped("@S", idx);
        assert seeds[0] in seeds;
        OutsideNoCut(toks, seeds[0]);
        RetokenShaped(toks, seeds[0], alias);
        SeedsNoCut(Mint(st, alias, seeds[0]), Retoken(toks, seeds[0], alias), seeds[1..], idx + 1);
      }
    }
  }

  lemma {:induction false} RankedNoCut(toks: seq<Token>, prefix: string, ranked: seq<string>, idx: nat)
    requires Shaped(toks) && Family(prefix) && forall s | s in ranked :: StartsOutside(s)
    ensures NoCutRanked(toks, prefix, ranked, idx) && Shaped(RankedTokens(toks, prefix, ranked, idx))
    decreases |ranked|
  {
    hide Shaped, NoCut, Retoken, StartsOutside, Family;
    if ranked != [] {
      var alias := prefix + ToString(idx);
      AliasIsShaped(prefix, idx);
      assert ranked[0] in ranked;
      OutsideNoCut(toks, ranked[0]);
      RetokenShaped(toks, ranked[0], alias);
      RankedNoCut(Retoken(toks, ranked[0], alias), prefix, ranked[1..], idx + 1);
    }
  }

  /** If no phrase starts with a character that aliases have behind their sigil, nothing is cut. */
  lemma OutsideIsUncut(input: string, seeds: seq<string>, paths: seq<string>, idents: seq<string>)
    requires forall s | s in seeds + paths + idents :: StartsOutside(s)
    ensures NoCutRun(input, seeds, paths, idents)
  {
    hide NoCutSeeds, NoCutRanked, SeedTokens, RankedTokens, Dedup, StartsOutside;
    var s0, t0 := State(Dedup(input), map[]), Lits(Dedup(input));
    assert Shaped(t0);
    hide Shaped;
    SeedsNoCut(s0, t0, seeds, 1);
    var t1 := SeedTokens(s0, t0, seeds, 1);
    RankedNoCut(t1, "@P", paths, 1);
    RankedNoCut(RankedTokens(t1, "@P", paths, 1), "$I", idents, 1);
  }

  // ---- Replaced text that no digit follows -----------------------------------------------------

  predicate StartsDigit(s: string)
  {
    s != "" && IsDigit(s[0])
  }

  /** In the text that the tokens mean, no digit directly follows what an alias stands for. */
  predicate NoDigitAfter(toks: seq<Token>, g: Glossary)
  {
    forall i | 0 <= i < |toks| && toks[i].Alias? ::
      var text, end := Meaning(toks, g), |Meaning(toks[..i + 1], g)|;
      end < |text| ==> !IsDigit(text[end])
  }

  lemma EndOfWord(toks: seq<Token>, g: Glossary, i: nat)
    requires i < |toks|
    ensures var text, end := Meaning(toks, g), |Meaning(toks[..i + 1], g)|;
            end <= |text| && text[end..] == Meaning(toks[i + 1..], g)
  {
    hide *;
    assert toks == toks[..i + 1] + toks[i + 1..];
    MeaningConcat(toks[..i + 1], toks[i + 1..], g);
  }

  /** What may stand in the text at the turn of `b` starts with a digit only if the meaning does. */
  lemma DigitMeant(rest: seq<Token>, g: Glossary, b: string)
    requires TokensOk(rest, g) && PlainGlossary(g) && StartsDigit(Partly(rest, g, b))
    ensures StartsDigit(Meaning(rest, g))
  {
    var t := rest[0];
    assert TokenOk(t, g);
    assert t.Alias? ==> PlainPhrase(g[t.name]);
    hide PlainPhrase, NoSigil;
    assert Partly(rest, g, b)[0] == if Before(t, b) then Word(t, g)[0] else Spell(t)[0];
  }

  lemma MisreadDigit(a: string, rest: seq<Token>, g: Glossary, b: string)
    requires AliasShape(a) && AliasShape(b) && Misread(a, rest, g, b)
    ensures StartsDigit(Partly(rest, g, b))
  {
    var s := a + Partly(rest, g, b);
    assert b[2..][|a| - 2] == b[|a|] == s[|a|] == Partly(rest, g, b)[0];
  }

  /** Where no digit follows a replaced phrase no alias is misread. */
  lemma NoDigitDelimited(toks: seq<Token>, g: Glossary)
    requires TokensOk(toks, g) && PlainGlossary(g) && NoDigitAfter(toks, g)
    ensures Delimited(toks, g, g.Keys)
  {
    forall i, b | 0 <= i < |toks| && toks[i].Alias? && b in g.Keys ensures !Misread(toks[i].name, toks[i + 1..], g, b) {
      NothingMisread(toks, g, i, b);
    }
  }

  lemma NothingMisread(toks: seq<Token>, g: Glossary, i: nat, b: string)
    requires TokensOk(toks, g) && PlainGlossary(g) && NoDigitAfter(toks, g)
    requires i < |toks| && toks[i].Alias? && b in g
    ensures !Misread(toks[i].name, toks[i + 1..], g, b)
  {
    assert TokenOk(toks[i], g);
    hide Misread, Meaning, Partly, PlainPhrase, StartsDigit;
    var rest := toks[i + 1..];
    TokensDrop(toks, g, i + 1);
    EndOfWord(toks, g, i);
    if Misread(toks[i].name, rest, g, b) {
      MisreadDigit(toks[i].name, rest, g, b);
      DigitMeant(rest, g, b);
      DigitThere(Meaning(toks, g), |Meaning(toks[..i + 1], g)|);
    }
  }

  lemma DigitThere(text: string, end: nat)
    requires end <= |text| && StartsDigit(text[end..])
    ensures end < |text| && IsDigit(text[end])
  {
  }

  /** A run is safe if it cuts nothing and no digit directly follows replaced text in the input. */
  lemma NoDigitIsSafe(input: string, seeds: seq<string>, paths: seq<string>, idents: seq<string>)
    requires NoSigil(Dedup(input)) && PlainPhrases(seeds, paths, idents) && NoCutRun(input, seeds, paths, idents)
    requires NoDigitAfter(RunTokens(input, seeds, paths, idents), Aliased(input, seeds, paths, idents).glossary)
    ensures var g := Aliased(input, seeds, paths, idents).glossary;
            Meaning(RunTokens(input, seeds, paths, idents), g) == Dedup(input)
    ensures SafeRun(input, seeds, paths, idents)
  {
    AliasedTokens(input, seeds, paths, idents);
    hide Aliased, RunTokens, NoCutRun, Delimited, Dedup, NoDigitAfter;
    NoDigitDelimited(RunTokens(input, seeds, paths, idents), Aliased(input, seeds, paths, idents).glossary);
  }

  // ---- Phrases and text alone --------------------------------------------------------------------

  /** No occurrence of the phrase in the text is directly followed by a digit. */
  ghost predicate NeverBeforeDigit(p: string, text: string)
  {
    forall i: nat | OccursAt(text, p, i) :: i + |p| < |text| ==> !IsDigit(text[i + |p|])
  }

  lemma {:induction false} SeedPhrases(st: State, seeds: seq<string>, idx: nat)
    ensures forall a | a in SeedStage(st, seeds, idx).glossary ::
              var p := SeedStage(st, seeds, idx).glossary[a];
              p in st.glossary.Values || p in seeds
    decreases |seeds|
  {
    hide Contains, ReplaceAll;
    if seeds != [] {
      if seeds[0] == "" || !Contains(st.body, seeds[0]) {
        SeedPhrases(st, seeds[1..], idx);
      } else {
        SeedPhrases(Mint(st, "@S" + ToString(idx), seeds[0]), seeds[1..], idx + 1);
      }
    }
  }

  lemma {:induction false} RankedPhrases(st: State, prefix: string, ranked: seq<string>, idx: nat)
    ensures forall a | a in RankedStage(st, prefix, ranked, idx).glossary ::
              var p := RankedStage(st, prefix, ranked, idx).glossary[a];
              p in st.glossary.Values || p in ranked
    decreases |ranked|
  {
    hide ReplaceAll;
    if ranked != [] {
      RankedPhrases(Mint(st, prefix + ToString(idx), ranked[0]), prefix, ranked[1..], idx + 1);
    }
  }

  /** The glossary has no other phrases than the seeds and candidates. */
  lemma RunPhrases(input: string, seeds: seq<string>, paths: seq<string>, idents: seq<string>)
    ensures var g := Aliased(input, seeds, paths, idents).glossary;
            forall a | a in g :: g[a] in seeds + paths + idents
  {
    hide SeedStage, RankedStage, Dedup;
    var s0 := State(Dedup(input), map[]);
    var s1 := SeedStage(s0, seeds, 1);
    var s2 := RankedStage(s1, "@P", paths, 1);
    SeedPhrases(s0, seeds, 1);
    RankedPhrases(s1, "@P", paths, 1);
    RankedPhrases(s2, "$I", idents, 1);
  }

  /** An alias' phrase occurs in the text where the alias stands. */
  lemma WordOccurs(toks: seq<Token>, g: Glossary, i: nat)
    requires i < |toks| && toks[i].Alias? && toks[i].name in g
    ensures var text, p, end := Meaning(toks, g), g[toks[i].name], |Meaning(toks[..i + 1], g)|;
            |p| <= end && OccursAt(text, p, end - |p|)
  {
    hide *;
    var pre, p, post := Meaning(toks[..i], g), g[toks[i].name], Meaning(toks[i + 1..], g);
    assert toks == toks[..i] + toks[i..] && toks[..i + 1] == toks[..i] + [toks[i]];
    MeaningConcat(toks[..i], toks[i..], g);
    MeaningConcat(toks[..i], [toks[i]], g);
    AliasMeaning(toks[i..], g);
    AliasMeaning([toks[i]], g);
    assert toks[i..][1..] == toks[i + 1..] && [toks[i]][1..] == [];
    FindFront(p, post);
    OccursInConcat(pre, p + post, p, 0);
  }

  lemma AliasMeaning(toks: seq<Token>, g: Glossary)
    requires toks != [] && toks[0].Alias? && toks[0].name in g
    ensures Meaning(toks, g) == g[toks[0].name] + Meaning(toks[1..], g)
    ensures Meaning([], g) == ""
  {
  }

  lemma PhrasesNoDigit(toks: seq<Token>, g: Glossary, text: string)
    requires TokensOk(toks, g) && Meaning(toks, g) == text
    requires forall a | a in g :: NeverBeforeDigit(g[a], text)
    ensures NoDigitAfter(toks, g)
  {
    hide Meaning, OccursAt, AliasShape;
    forall i | 0 <= i < |toks| && toks[i].Alias?
      ensures var end := |Meaning(toks[..i + 1], g)|; end < |text| ==> !IsDigit(text[end])
    {
      assert TokenOk(toks[i], g);
      WordOccurs(toks, g, i);
      assert NeverBeforeDigit(g[toks[i].name], text);
    }
  }

  /** A run is safe, so that its text is recovered, if no phrase starts with `S`, `P`, `I` or a digit
      and no phrase occurs in the deduplicated input directly before a digit. */
  lemma PlainlySafe(input: string, seeds: seq<string>, paths: seq<string>, idents: seq<string>)
    requires NoSigil(Dedup(input)) && PlainPhrases(seeds, paths, idents)
    requires forall s | s in seeds + paths + idents :: StartsOutside(s) && NeverBeforeDigit(s, Dedup(input))
    ensures SafeRun(input, seeds, paths, idents)
  {
    hide Aliased, RunTokens, NoCutRun, Dedup, StartsOutside, NeverBeforeDigit, SafeRun, NoDigitAfter, Meaning, Render;
    OutsideIsUncut(input, seeds, paths, idents);
    AliasedTokens(input, seeds, paths, idents);
    RunPhrases(input, seeds, paths, idents);
    var toks, g := RunTokens(input, seeds, paths, idents), Aliased(input, seeds, paths, idents).glossary;
    PhrasesNoDigit(toks, g, Dedup(input));
    NoDigitIsSafe(input, seeds, paths, idents);
  }
}
