/** Inputs on which the lossless round trip fails, one for each half of `SafeRun`. */
module CompressorLimits {
  import opened Text
  import opened Compressor
  import opened DedupProofs
  import opened CompressorRoundTrip

  lemma OneLine(s: string)
    requires s != "" && '\n' !in s
    ensures Dedup(s) == s
  {
    SplitOne("", s);
    assert "" + s == s;
    assert RunEnd([s], 0, 1) == 1;
    assert DedupFrom([s], 0) == [s] + DedupFrom([s], 1);
    assert DedupFrom([s], 0) == [s];
    assert Concat([s]) == s + Concat([]) by {
      assert [s][1..] == [];
    }
  }

  lemma {:induction false} SplitOne(cur: string, s: string)
    requires cur + s != "" && '\n' !in s
    ensures SplitFrom(cur, s) == [cur + s]
    decreases |s|
  {
    if s == "" {
      assert cur + s == cur;
    } else {
      SplitOne(cur + [s[0]], s[1..]);
      assert (cur + [s[0]]) + s[1..] == cur + s;
    }
  }

  lemma ReplaceAbsent(s: string, c: char, rest: string, alias: string)
    requires c !in s
    ensures ReplaceAll(s, [c] + rest, alias) == s
  {
    var needle := [c] + rest;
    forall p: nat ensures !OccursAt(s, needle, p) {
      OccursChars(s, needle, p);
    }
  }

  // ---- A seed that cuts an earlier alias ----------------------------------------------

  lemma ReplaceWhole(needle: string, alias: string)
    requires needle != ""
    ensures ReplaceAll(needle, needle, alias) == alias
  {
    ReplaceFront(needle, "", alias);
    assert needle + "" == needle;
    assert ReplaceAll("", needle, alias) == "";
  }

  lemma CutBody()
    ensures ReplaceAll("@S1", "S1", "@S2") == "@@S2"
  {
    assert "@" + "S1" == "@S1" && "@" + "@S2" == "@@S2";
    OccursChars("@" + "S1", "S1", 0);
    hide ReplaceAll, OccursAt, Find;
    ReplaceSkip("@", "S1", "S1", "@S2");
    ReplaceWhole("S1", "@S2");
  }

  lemma CutExpandFirst()
    ensures ReplaceAll("@@S2\n", "@S1", "ab") == "@@S2\n"
  {
    var s, t := "@@S2\n", "@S1";
    assert s[1..4] == "@S2" && "@S2"[2] != t[2];
    forall p: nat ensures !OccursAt(s, t, p) {
      OccursChars(s, t, p);
    }
    ReplaceNone(s, t, "ab");
  }

  lemma CutExpandSecond()
    ensures ReplaceAll("@@S2\n", "@S2", "S1") == "@S1\n"
  {
    var u := "@S2";
    var v := u + "\n";
    OccursChars("@" + v, u, 0);
    assert "@" + v == "@@S2\n" && ['@'] + "S2" == u && "@" + ("S1" + "\n") == "@S1\n";
    hide ReplaceAll, OccursAt, Find;
    ReplaceSkip("@", v, u, "S1");
    ReplaceFront(u, "\n", "S1");
    ReplaceAbsent("\n", '@', "S2", "S1");
  }

  lemma SeedOne(st: State, seed: string, rest: seq<string>, idx: nat)
    requires seed != "" && Contains(st.body, seed)
    ensures SeedStage(st, [seed] + rest, idx) ==
            SeedStage(Mint(st, "@S" + ToString(idx), seed), rest, idx + 1)
  {
    hide Contains, Mint, ToString;
    assert ([seed] + rest)[1..] == rest;
  }

  lemma FirstNumbers()
    ensures "@S" + ToString(1) == "@S1" && "@S" + ToString(2) == "@S2"
  {
  }

  lemma CutFound()
    ensures Contains("ab", "ab") && Contains("@S1", "S1")
  {
    assert OccursAt("ab", "ab", 0);
    assert OccursAt("@S1", "S1", 1);
  }

  lemma CutMints()
    ensures Mint(State("ab", map[]), "@S1", "ab") == State("@S1", map["@S1" := "ab"])
    ensures Mint(State("@S1", map["@S1" := "ab"]), "@S2", "S1") ==
            State("@@S2", map["@S1" := "ab", "@S2" := "S1"])
  {
    hide ReplaceAll;
    CutBody();
    ReplaceWhole("ab", "@S1");
  }

  lemma CutStage()
    ensures Aliased("ab", ["ab", "S1"], [], []) == State("@@S2", map["@S1" := "ab", "@S2" := "S1"])
  {
    hide ReplaceAll, Contains, Find, ToString, OccursAt, Dedup, Mint;
    OneLine("ab");
    var s0, s1 := State("ab", map[]), State("@S1", map["@S1" := "ab"]);
    CutFound();
    CutMints();
    FirstNumbers();
    SeedOne(s0, "ab", ["S1"], 1);
    SeedOne(s1, "S1", [], 2);
    assert ["ab", "S1"] == ["ab"] + ["S1"] && ["S1"] == ["S1"] + [];
  }

  /** With seeds `ab` and `S1` the text `ab` does not come back in one of the orders the sort
      allows: the second seed cuts the alias of the first. */
  lemma CutAliasLost()
    ensures var st := Aliased("ab", ["ab", "S1"], [], []);
            exists order :: && Enumerates(order, st.glossary) && LongestFirst(order)
                            && ExpandIn(st.body + "\n", order) == "@S1\n"
  {
    hide Aliased, ReplaceAll;
    CutStage();
    CutExpandFirst();
    CutExpandSecond();
    var first: seq<Entry>, second: seq<Entry> := [("@S1", "ab")], [("@S2", "S1")];
    var order := first + second;
    assert order[1..] == second && second[1..] == [];
    assert order[0] == ("@S1", "ab") && order[1] == ("@S2", "S1");
    assert "@S1" != "@S2" by { assert "@S1"[2] != "@S2"[2]; }
    assert "@@S2" + "\n" == "@@S2\n";
    assert ExpandIn("@@S2\n", order) == "@S1\n";
    var g: Glossary := map["@S1" := "ab", "@S2" := "S1"];
    assert Enumerates(order, g) by {
      forall k | k in g ensures exists i :: 0 <= i < |order| && order[i].0 == k {
        assert k == order[0].0 || k == order[1].0;
      }
    }
  }

  /** In the other order, which the sort allows as well, the same text comes back. */
  lemma CutAliasUndone()
    ensures var st := Aliased("ab", ["ab", "S1"], [], []);
            exists order :: && Enumerates(order, st.glossary) && LongestFirst(order)
                            && ExpandIn(st.body + "\n", order) == "ab\n"
  {
    hide Aliased, ReplaceAll;
    CutStage();
    CutExpandSecond();
    ReplaceFront("@S1", "\n", "ab");
    ReplaceAbsent("\n", '@', "S1", "ab");
    assert "@S1" + "\n" == "@S1\n" && "ab" + "\n" == "ab\n" && ['@'] + "S1" == "@S1";
    var first: seq<Entry>, second: seq<Entry> := [("@S2", "S1")], [("@S1", "ab")];
    var order := first + second;
    assert order[1..] == second && second[1..] == [];
    assert order[0] == ("@S2", "S1") && order[1] == ("@S1", "ab");
    assert "@S1" != "@S2" by { assert "@S1"[2] != "@S2"[2]; }
    assert "@@S2" + "\n" == "@@S2\n";
    assert ExpandIn("@@S2\n", order) == "ab\n";
    var g: Glossary := map["@S1" := "ab", "@S2" := "S1"];
    assert Enumerates(order, g) by {
      forall k | k in g ensures exists i :: 0 <= i < |order| && order[i].0 == k {
        assert k == order[0].0 || k == order[1].0;
      }
    }
  }

  // ---- A misread alias that does no harm ------------------------------------------------

  lemma {:induction false} ExpandPlain(text: string, order: seq<Entry>)
    requires NoSigil(text) && forall e | e in order :: AliasShape(e.0)
    ensures ExpandIn(text, order) == text
    decreases |order|
  {
    if order != [] {
      var a := order[0].0;
      assert order[0] in order;
      assert a == [a[0]] + a[1..];
      hide ReplaceAll;
      ReplaceAbsent(text, a[0], a[1..], order[0].1);
      assert forall e | e in order[1..] :: e in order;
      ExpandPlain(text, order[1..]);
    }
  }

  lemma TenFirst(order: seq<Entry>, g: Glossary)
    requires g == map["@S1" := "x", "@S10" := "x0"] && Enumerates(order, g) && LongestFirst(order)
    ensures order != [] && order[0] == ("@S10", "x0") && forall e | e in order[1..] :: AliasShape(e.0)
  {
    assert |"@S1"| == 3 && |"@S10"| == 4 && AliasShape("@S1") && AliasShape("@S10");
    hide AliasShape;
    assert "@S10" in g;
    var i :| 0 <= i < |order| && order[i].0 == "@S10";
    assert |order[0].0| >= |order[i].0|;
    assert order[0].0 in g;
    assert forall k | 0 <= k < |order| :: order[k].0 in g;
    assert forall e | e in order[1..] :: e in order;
  }

  /** A body whose first alias is misread, and which every order of undoing still gives its meaning:
      the longer alias stands for the shorter one's phrase and the digit. */
  lemma MisreadHarmless()
    ensures var toks, g := [Alias("@S1"), Lit('0')], map["@S1" := "x", "@S10" := "x0"];
            && TokensOk(toks, g) && !Delimited(toks, g, g.Keys)
            && forall order: seq<Entry> | Enumerates(order, g) && LongestFirst(order) ::
                 ExpandIn(Render(toks), order) == Meaning(toks, g)
  {
    var toks, g := [Alias("@S1"), Lit('0')], map["@S1" := "x", "@S10" := "x0"];
    MisreadBody(toks, g);
    ReplaceWhole("@S10", "x0");
    forall order: seq<Entry> | Enumerates(order, g) && LongestFirst(order)
      ensures ExpandIn("@S10", order) == "x0"
    {
      TenFirst(order, g);
      hide ReplaceAll;
      ExpandPlain("x0", order[1..]);
    }
  }

  lemma MisreadBody(toks: seq<Token>, g: Glossary)
    requires toks == [Alias("@S1"), Lit('0')] && g == map["@S1" := "x", "@S10" := "x0"]
    ensures Render(toks) == "@S10" && Meaning(toks, g) == "x0" && TokensOk(toks, g)
    ensures !Delimited(toks, g, g.Keys)
  {
    var rest := toks[1..];
    assert rest == Lits("0");
    LitsRender("0", g);
    PartlyLits("0", g, "@S10");
    RenderStep(toks);
    assert "@S1" + "0" == "@S10" && "x" + "0" == "x0";
    assert Misread("@S1", rest, g, "@S10");
    assert toks[0].name == "@S1" && toks[0 + 1..] == rest && "@S10" in g.Keys;
  }

  // ---- A phrase directly followed by a digit --------------------------------------------

  /** Every letter is a seed. */
  function Letters(s: string): (r: seq<string>)
    ensures |r| == |s| && forall i | 0 <= i < |s| :: r[i] == [s[i]]
  {
    seq(|s|, i requires 0 <= i < |s| => [s[i]])
  }

  lemma LettersConcat(a: string, b: string)
    ensures Letters(a + b) == Letters(a) + Letters(b)
  {
  }

  /** The aliases that one-letter seeds numbered from `idx` on get, in a row. */
  function Aliases(s: string, idx: nat): (r: string)
    decreases |s|
  {
    if s == "" then "" else "@S" + ToString(idx) + Aliases(s[1..], idx + 1)
  }

  function Numbered(s: string, idx: nat, g: map<string, string>): (r: map<string, string>)
    decreases |s|
  {
    if s == "" then g else Numbered(s[1..], idx + 1, g["@S" + ToString(idx) := [s[0]]])
  }

  predicate IsLower(c: char)
  {
    'a' <= c <= 'z'
  }

  lemma AliasNoLetter(idx: nat, c: char)
    requires IsLower(c)
    ensures c !in "@S" + ToString(idx)
  {
  }

  lemma {:induction false} AliasesNoLetter(s: string, idx: nat, c: char)
    requires IsLower(c)
    ensures c !in Aliases(s, idx)
    decreases |s|
  {
    if s != "" {
      AliasNoLetter(idx, c);
      AliasesNoLetter(s[1..], idx + 1, c);
    }
  }

  /** The first place of a letter is replaced by the alias. */
  lemma ReplaceOnce(x: string, c: char, y: string, alias: string)
    requires c !in x
    ensures ReplaceAll(x + ([c] + y), [c], alias) == x + (alias + ReplaceAll(y, [c], alias))
    ensures Contains(x + ([c] + y), [c])
  {
    var s := [c] + y;
    forall k: nat | k < |x| ensures !OccursAt(x + s, [c], k) {
      OccursChars(x + s, [c], k);
    }
    OccursChars(x + s, [c], |x|);
    hide ReplaceAll, OccursAt, Find;
    ReplaceFront([c], y, alias);
    ReplaceSkip(x, s, [c], alias);
  }

  lemma ReplaceMissing(s: string, c: char, alias: string)
    requires c !in s
    ensures ReplaceAll(s, [c], alias) == s
  {
    ReplaceAbsent(s, c, "", alias);
    assert [c] + "" == [c];
  }

  predicate Distinct(s: string)
  {
    forall i, j | 0 <= i < j < |s| :: s[i] != s[j]
  }

  /** The letters `s`, each standing once and in this order, become a row of aliases. */
  lemma {:induction false} SeedRow(x: string, s: string, y: string, g: map<string, string>,
                                   rest: seq<string>, idx: nat)
    requires Distinct(s) && forall c | c in s :: IsLower(c) && c !in x && c !in y
    ensures SeedStage(State(x + (s + y), g), Letters(s) + rest, idx) ==
            SeedStage(State(x + (Aliases(s, idx) + y), Numbered(s, idx, g)), rest, idx + |s|)
    decreases |s|
  {
    hide *;
    if s == "" {
      NoLetters(idx, g);
      assert Letters(s) + rest == rest && x + ("" + y) == x + y;
    } else {
      var c, t, alias := s[0], s[1..], "@S" + ToString(idx);
      RowStep(s, idx, g, x, y);
      var body := x + ([c] + (t + y));
      assert s + y == [c] + (t + y);
      LettersConcat([c], t);
      assert s == [c] + t && Letters(s) + rest == [[c]] + (Letters(t) + rest);
      ReplaceOnce(x, c, t + y, alias);
      ReplaceMissing(t + y, c, alias);
      SeedMint(body, x + (alias + (t + y)), [c], Letters(t) + rest, idx, g);
      assert x + (alias + (t + y)) == (x + alias) + (t + y);
      SeedRow(x + alias, t, y, g[alias := [c]], rest, idx + 1);
      assert (x + alias) + (Aliases(t, idx + 1) + y) == x + (Aliases(s, idx) + y);
    }
  }

  lemma NoLetters(idx: nat, g: map<string, string>)
    ensures Letters("") == [] && Aliases("", idx) == "" && Numbered("", idx, g) == g
  {
  }

  lemma SeedMint(body: string, body': string, seed: string, rest: seq<string>, idx: nat, g: map<string, string>)
    requires seed != "" && Contains(body, seed) && ReplaceAll(body, seed, "@S" + ToString(idx)) == body'
    ensures SeedStage(State(body, g), [seed] + rest, idx) ==
            SeedStage(State(body', g["@S" + ToString(idx) := seed]), rest, idx + 1)
  {
    hide ReplaceAll, Contains, ToString, SeedStage;
    SeedOne(State(body, g), seed, rest, idx);
  }

  /** The first of the letters in a row. */
  lemma RowStep(s: string, idx: nat, g: map<string, string>, x: string, y: string)
    requires s != "" && Distinct(s) && forall c | c in s :: IsLower(c) && c !in x && c !in y
    ensures var c, t, alias := s[0], s[1..], "@S" + ToString(idx);
            && c !in x && c !in t + y && Letters([c]) == [[c]] && Distinct(t)
            && (forall d | d in t :: IsLower(d) && d !in x + alias && d !in y)
            && Aliases(s, idx) == alias + Aliases(t, idx + 1)
            && Numbered(s, idx, g) == Numbered(t, idx + 1, g[alias := [c]])
  {
    hide Aliases, Numbered, ToString;
    forall d | d in s[1..] ensures IsLower(d) && d !in x + ("@S" + ToString(idx)) && d !in y && d != s[0] {
      AliasNoLetter(idx, d);
    }
    RowUnfold(s, idx, g);
  }

  lemma RowUnfold(s: string, idx: nat, g: map<string, string>)
    requires s != ""
    ensures Aliases(s, idx) == "@S" + ToString(idx) + Aliases(s[1..], idx + 1)
    ensures Numbered(s, idx, g) == Numbered(s[1..], idx + 1, g["@S" + ToString(idx) := [s[0]]])
  {
  }

  const MIDDLE: string := "bcdefghi"

  lemma MiddleLetters()
    ensures Distinct(MIDDLE) && |MIDDLE| == 8
    ensures forall c | c in MIDDLE :: IsLower(c) && c != 'j'
  {
  }

  lemma TenthNumber()
    ensures "@S" + ToString(1) == "@S1" && "@S" + ToString(10) == "@S10"
  {
    assert ToString(10) == ToString(1) + ToString(0);
    assert ToString(1) == "1" && ToString(0) == "0" && "1" + "0" == "10";
  }

  const FIRST: string := "aa0" + (MIDDLE + "j")
  const SECOND: string := "aj" + (MIDDLE + "j")
  const SEEDS: seq<string> := ["a"] + (Letters(MIDDLE) + ["j"])

  /** The first seed, `a`. */
  lemma FirstSeed(input: string, body: string, rest: seq<string>)
    requires Contains(input, "a") && ReplaceAll(input, "a", "@S1") == body
    ensures SeedStage(State(input, map[]), ["a"] + rest, 1) == SeedStage(State(body, map["@S1" := "a"]), rest, 2)
  {
    TenthNumber();
    hide ReplaceAll, Contains, ToString, SeedStage;
    SeedOne(State(input, map[]), "a", rest, 1);
  }

  /** The last seed, `j`. */
  lemma LastSeed(body: string, body': string, g: map<string, string>)
    requires Contains(body, "j") && ReplaceAll(body, "j", "@S10") == body'
    ensures SeedStage(State(body, g), ["j"], 10) == State(body', g["@S10" := "j"])
  {
    TenthNumber();
    hide ReplaceAll, Contains, ToString;
    SeedOne(State(body, g), "j", [], 10);
    assert ["j"] + [] == ["j"];
  }

  /** The ten seeds, given the bodies after the first and the last of them. */
  lemma TenSeeds(input: string, x: string, body: string)
    requires Dedup(input) == input && Contains(input, "a")
    requires ReplaceAll(input, "a", "@S1") == x + (MIDDLE + "j") && forall c | c in MIDDLE :: c !in x
    requires Contains(x + (Aliases(MIDDLE, 2) + "j"), "j")
    requires ReplaceAll(x + (Aliases(MIDDLE, 2) + "j"), "j", "@S10") == body
    ensures Aliased(input, SEEDS, [], []) == State(body, Numbered(MIDDLE, 2, map["@S1" := "a"])["@S10" := "j"])
  {
    MiddleLetters();
    hide *;
    var g := map["@S1" := "a"];
    FirstSeed(input, x + (MIDDLE + "j"), Letters(MIDDLE) + ["j"]);
    SeedRow(x, MIDDLE, "j", g, ["j"], 2);
    LastSeed(x + (Aliases(MIDDLE, 2) + "j"), body, Numbered(MIDDLE, 2, g));
    SeedsOnly(input);
  }

  lemma SeedsOnly(input: string)
    ensures Aliased(input, SEEDS, [], []) ==
            SeedStage(State(Dedup(input), map[]), ["a"] + (Letters(MIDDLE) + ["j"]), 1)
  {
    hide SeedStage, Dedup, Letters;
  }

  /** What both texts become. */
  function Both(): (st: State)
  {
    State("@S1@S10" + (Aliases(MIDDLE, 2) + "@S10"), Numbered(MIDDLE, 2, map["@S1" := "a"])["@S10" := "j"])
  }

  lemma BothIs()
    ensures Both() == State("@S1@S10" + (Aliases(MIDDLE, 2) + "@S10"),
                            Numbered(MIDDLE, 2, map["@S1" := "a"])["@S10" := "j"])
  {
  }

  lemma Marks()
    ensures FIRST == "aa0" + (MIDDLE + "j") && SECOND == "aj" + (MIDDLE + "j")
    ensures FIRST == "aa0bcdefghij" && SECOND == "ajbcdefghij"
    ensures 'a' !in MIDDLE + "j" && FIRST != "" && SECOND != ""
    ensures IsLower('j') && '\n' !in FIRST && '\n' !in SECOND
    ensures (forall c | c in MIDDLE :: c !in "@S1@S10" && c !in "@S1j")
    ensures 'j' !in "@S1@S10" && 'j' !in "@S1"
  {
  }

  lemma FirstText()
    ensures Dedup(FIRST) == FIRST && Aliased(FIRST, SEEDS, [], []) == Both()
  {
    hide *;
    var m, a, x := MIDDLE + "j", Aliases(MIDDLE, 2), "@S1@S10";
    Marks();
    OneLine(FIRST);
    FirstStart(m);
    AliasesNoLetter(MIDDLE, 2, 'j');
    LastPlace(x, a);
    TenSeeds(FIRST, x, x + (a + "@S10"));
    BothIs();
  }

  lemma FirstStart(m: string)
    requires 'a' !in m
    ensures var input := "aa0" + m;
            Contains(input, "a") && ReplaceAll(input, "a", "@S1") == "@S1@S10" + m
  {
    hide *;
    FirstWords(m);
    FrontLetter('a', "a" + ("0" + m), "@S1");
    FrontLetter('a', "0" + m, "@S1");
    ReplaceMissing("0" + m, 'a', "@S1");
  }

  lemma FirstWords(m: string)
    requires 'a' !in m
    ensures "aa0" + m == ['a'] + ("a" + ("0" + m)) && "a" + ("0" + m) == ['a'] + ("0" + m)
    ensures "@S1@S10" + m == "@S1" + ("@S1" + ("0" + m)) && 'a' !in "0" + m && "a" == ['a']
  {
    assert "@S1@S10" == ("@S1" + "@S1") + "0" && "aa0" == ("a" + "a") + "0";
  }

  lemma FrontLetter(c: char, u: string, alias: string)
    ensures Contains([c] + u, [c])
    ensures ReplaceAll([c] + u, [c], alias) == alias + ReplaceAll(u, [c], alias)
  {
    hide ReplaceAll, Contains;
    ReplaceOnce("", c, u, alias);
    assert "" + ([c] + u) == [c] + u;
  }

  /** A letter that stands at the end only. */
  lemma LastPlace(x: string, a: string)
    requires 'j' !in x && 'j' !in a
    ensures Contains(x + (a + "j"), "j") && ReplaceAll(x + (a + "j"), "j", "@S10") == x + (a + "@S10")
  {
    hide ReplaceAll, Contains;
    ReplaceOnce(x + a, 'j', "", "@S10");
    ReplaceMissing("", 'j', "@S10");
    assert (x + a) + (['j'] + "") == x + (a + "j") && (x + a) + ("@S10" + "") == x + (a + "@S10");
  }

  lemma SecondText()
    ensures Dedup(SECOND) == SECOND && Aliased(SECOND, SEEDS, [], []) == Both()
  {
    hide *;
    var m, a, x := MIDDLE + "j", Aliases(MIDDLE, 2), "@S1j";
    Marks();
    OneLine(SECOND);
    SecondStart(m);
    AliasesNoLetter(MIDDLE, 2, 'j');
    TwoPlaces(a);
    TenSeeds(SECOND, x, "@S1@S10" + (a + "@S10"));
    BothIs();
  }

  lemma SecondStart(m: string)
    requires 'a' !in m
    ensures var input := "aj" + m; Contains(input, "a") && ReplaceAll(input, "a", "@S1") == "@S1j" + m
  {
    hide *;
    SecondWords(m);
    FrontLetter('a', "j" + m, "@S1");
    ReplaceMissing("j" + m, 'a', "@S1");
  }

  lemma SecondWords(m: string)
    requires 'a' !in m
    ensures "aj" + m == ['a'] + ("j" + m) && "@S1j" + m == "@S1" + ("j" + m) && 'a' !in "j" + m && "a" == ['a']
  {
    assert "@S1j" == "@S1" + "j" && "aj" == "a" + "j";
  }

  lemma TwoPlaces(a: string)
    requires 'j' !in a
    ensures var body := "@S1j" + (a + "j");
            Contains(body, "j") && ReplaceAll(body, "j", "@S10") == "@S1@S10" + (a + "@S10")
  {
    hide *;
    SecondPlaces(a);
    ReplaceOnce("@S1", 'j', a + "j", "@S10");
    LastPlace("", a);
  }

  lemma SecondPlaces(a: string)
    ensures "@S1" + (['j'] + (a + "j")) == "@S1j" + (a + "j") && ['j'] == "j" && 'j' !in "@S1" && 'j' !in ""
    ensures "" + (a + "j") == a + "j" && "" + (a + "@S10") == a + "@S10"
    ensures "@S1" + ("@S10" + (a + "@S10")) == "@S1@S10" + (a + "@S10")
  {
    assert "@S1j" == "@S1" + "j" && "@S1@S10" == "@S1" + "@S10";
  }

  /** Two texts with one compressed form under the seeds `a` to `j`: in `aa0bcdefghij` the second
      `a` is directly followed by a digit, so its alias and the digit read as the tenth alias.
      No expander can tell that text from `ajbcdefghij`. */
  lemma DigitAfterPhraseLost()
    ensures SEEDS == ["a", "b", "c", "d", "e", "f", "g", "h", "i", "j"]
    ensures FIRST == "aa0bcdefghij" && SECOND == "ajbcdefghij" && Dedup(FIRST) != Dedup(SECOND)
    ensures Aliased(FIRST, SEEDS, [], []) == Aliased(SECOND, SEEDS, [], [])
  {
    Marks();
    SeedWords();
    assert |"aa0bcdefghij"| != |"ajbcdefghij"|;
    hide *;
    FirstText();
    SecondText();
  }

  lemma SeedWords()
    ensures SEEDS == ["a", "b", "c", "d", "e", "f", "g", "h", "i", "j"]
  {
  }
}
