/** The regular expression the pre-tokenizer stands for, with the semantics of a backtracking
    matcher, and how far the scanner agrees with it. */
module PreTokenPattern {
  import opened PreTokenizer

  // ---- A backtracking matcher -----------------------------------------------------------------

  datatype Pattern =
    | Empty
    | One(c: char -> bool)
    | NoCase(lower: char)
    | Star(c: char -> bool)
    | Cat(first: Pattern, second: Pattern)
    | Or(left: Pattern, right: Pattern)
    | NotBefore(c: char -> bool)

  predicate Fits(lower: char, s: string, i: nat)
  {
    'a' <= lower <= 'z' && IsNoCase(lower, s, i)
  }

  /** Every place a match from `i` can end, in the order a greedy backtracking matcher tries them. */
  function Ends(p: Pattern, s: string, i: nat): (ends: seq<nat>)
    requires i <= |s|
    ensures forall k | 0 <= k < |ends| :: i <= ends[k] <= |s|
    decreases p, 0
  {
    match p
    case Empty => [i]
    case One(c) => if At(c, s, i) then [i + 1] else []
    case NoCase(lower) => if Fits(lower, s, i) then [i + 1] else []
    case Star(c) => StarEnds(c, s, i)
    case Cat(a, b) => FromEach(b, s, Ends(a, s, i), i)
    case Or(a, b) => Ends(a, s, i) + Ends(b, s, i)
    case NotBefore(c) => if At(c, s, i) then [] else [i]
  }

  function StarEnds(c: char -> bool, s: string, i: nat): (ends: seq<nat>)
    requires i <= |s|
    ensures ends != [] && ends[0] == RunEnd(c, s, i)
    ensures forall k | 0 <= k < |ends| :: i <= ends[k] <= |s|
    decreases |s| - i
  {
    if At(c, s, i) then StarEnds(c, s, i + 1) + [i] else [i]
  }

  function FromEach(p: Pattern, s: string, starts: seq<nat>, low: nat): (ends: seq<nat>)
    requires forall k | 0 <= k < |starts| :: low <= starts[k] <= |s|
    ensures forall k | 0 <= k < |ends| :: low <= ends[k] <= |s|
    decreases p, |starts| + 1
  {
    if starts == [] then [] else Ends(p, s, starts[0]) + FromEach(p, s, starts[1..], low)
  }

  /** The end of the match a matcher finds at `i`, or -1. */
  function Found(p: Pattern, s: string, i: nat): (e: int)
    requires i <= |s|
    ensures e == -1 || i <= e <= |s|
  {
    if Ends(p, s, i) == [] then -1 else Ends(p, s, i)[0]
  }

  // ---- The pattern --------------------------------------------------------------------------------

  predicate Apostrophe(c: char) { c == '\'' }

  predicate SpaceChar(c: char) { c == ' ' }

  predicate NonSpace(c: char) { !Space(c) }

  function Opt(p: Pattern): Pattern { Or(p, Empty) }

  function Plus(c: char -> bool): Pattern { Cat(One(c), Star(c)) }

  function Pair(a: char, b: char): Pattern { Cat(NoCase(a), NoCase(b)) }

  function Suffix(): Pattern
  {
    Or(NoCase('s'), Or(NoCase('t'), Or(NoCase('m'), Or(NoCase('d'),
      Or(Pair('l', 'l'), Or(Pair('v', 'e'), Pair('r', 'e')))))))
  }

  function Contracted(): Pattern { Cat(One(Apostrophe), Suffix()) }

  function Word(): Pattern { Cat(Opt(One(Lead)), Plus(Letter)) }

  function Number(): Pattern { Cat(One(Digit), Opt(Cat(One(Digit), Opt(One(Digit))))) }

  function Marks(): Pattern { Cat(Opt(One(SpaceChar)), Cat(Plus(Mark), Star(Newline))) }

  function LineEnd(): Pattern { Cat(Star(Space), One(Newline)) }

  function InnerSpace(): Pattern { Cat(Plus(Space), NotBefore(NonSpace)) }

  function Whole(): Pattern
  {
    Or(Contracted(), Or(Word(), Or(Number(), Or(Marks(), Or(LineEnd(), Or(InnerSpace(), Plus(Space)))))))
  }

  // ---- First matches ------------------------------------------------------------------------------

  lemma FoundOr(a: Pattern, b: Pattern, s: string, i: nat)
    requires i <= |s|
    ensures Found(Or(a, b), s, i) == if Found(a, s, i) != -1 then Found(a, s, i) else Found(b, s, i)
  {
  }

  lemma FoundFromOne(p: Pattern, s: string, j: nat, low: nat)
    requires low <= j <= |s|
    ensures FromEach(p, s, [j], low) == Ends(p, s, j)
  {
    assert [j][1..] == [];
  }

  /** After a part that can end in one place only. */
  lemma FoundAfter(a: Pattern, b: Pattern, s: string, i: nat)
    requires i <= |s| && |Ends(a, s, i)| <= 1
    ensures Ends(Cat(a, b), s, i) == if Ends(a, s, i) == [] then [] else Ends(b, s, Ends(a, s, i)[0])
  {
    if Ends(a, s, i) != [] {
      assert Ends(a, s, i) == [Ends(a, s, i)[0]];
      FoundFromOne(b, s, Ends(a, s, i)[0], i);
    }
  }

  lemma CatEnds(a: Pattern, b: Pattern, s: string, i: nat)
    requires i <= |s|
    ensures Ends(Cat(a, b), s, i) == FromEach(b, s, Ends(a, s, i), i)
  {
  }

  lemma FromEachStep(p: Pattern, s: string, starts: seq<nat>, low: nat)
    requires forall k | 0 <= k < |starts| :: low <= starts[k] <= |s|
    ensures FromEach(p, s, starts, low) ==
            if starts == [] then [] else Ends(p, s, starts[0]) + FromEach(p, s, starts[1..], low)
  {
  }

  /** When the rest matches after the first part's first end, that is the match. */
  lemma FoundFirst(a: Pattern, b: Pattern, s: string, i: nat)
    requires i <= |s|
    ensures Ends(a, s, i) == [] ==> Found(Cat(a, b), s, i) == -1
    ensures Ends(a, s, i) != [] && Found(b, s, Ends(a, s, i)[0]) != -1
            ==> Found(Cat(a, b), s, i) == Found(b, s, Ends(a, s, i)[0])
  {
    hide Ends, FromEach;
    CatEnds(a, b, s, i);
    FromEachStep(b, s, Ends(a, s, i), i);
  }

  /** Otherwise the matcher goes back to the second end. */
  lemma FoundSecond(a: Pattern, b: Pattern, s: string, i: nat)
    requires i <= |s| && |Ends(a, s, i)| >= 2
    requires Found(b, s, Ends(a, s, i)[0]) == -1
    ensures Found(b, s, Ends(a, s, i)[1]) != -1 ==> Found(Cat(a, b), s, i) == Found(b, s, Ends(a, s, i)[1])
    ensures |Ends(a, s, i)| == 2 ==> Found(Cat(a, b), s, i) == Found(b, s, Ends(a, s, i)[1])
  {
    hide Ends, FromEach;
    var x := Ends(a, s, i);
    CatEnds(a, b, s, i);
    FromEachStep(b, s, x, i);
    FromEachStep(b, s, x[1..], i);
    FromEachStep(b, s, x[1..][1..], i);
  }

  lemma FoundAfterOne(c: char -> bool, b: Pattern, s: string, i: nat)
    requires i <= |s|
    ensures Found(Cat(One(c), b), s, i) == if At(c, s, i) then Found(b, s, i + 1) else -1
  {
    FoundAfter(One(c), b, s, i);
  }

  /** Before a part that never fails, the first part's own first match is kept. */
  lemma FoundBefore(a: Pattern, c: char -> bool, s: string, i: nat)
    requires i <= |s|
    ensures Found(Cat(a, Star(c)), s, i) == if Found(a, s, i) == -1 then -1 else RunEnd(c, s, Found(a, s, i))
  {
    FoundFirst(a, Star(c), s, i);
  }

  lemma FoundPlus(c: char -> bool, s: string, i: nat)
    requires i <= |s|
    ensures Found(Plus(c), s, i) == if At(c, s, i) then RunEnd(c, s, i) else -1
  {
    FoundBefore(One(c), c, s, i);
  }

  lemma OptEnds(c: char -> bool, s: string, i: nat)
    requires i <= |s|
    ensures Ends(Opt(One(c)), s, i) == if At(c, s, i) then [i + 1, i] else [i]
  {
  }

  /** An optional leading character is taken when the rest then matches. */
  lemma FoundOpt(c: char -> bool, p: Pattern, s: string, i: nat)
    requires i <= |s|
    ensures Found(Cat(Opt(One(c)), p), s, i) ==
            if At(c, s, i) && Found(p, s, i + 1) != -1 then Found(p, s, i + 1) else Found(p, s, i)
  {
    OptEnds(c, s, i);
    if At(c, s, i) {
      FoundFirst(Opt(One(c)), p, s, i);
      if Found(p, s, i + 1) == -1 {
        FoundSecond(Opt(One(c)), p, s, i);
      }
    } else {
      FoundAfter(Opt(One(c)), p, s, i);
    }
  }

  // ---- The alternatives ---------------------------------------------------------------------------

  lemma FoundPair(a: char, b: char, s: string, i: nat)
    requires i <= |s|
    ensures Found(Pair(a, b), s, i) == if Fits(a, s, i) && Fits(b, s, i + 1) then i + 2 else -1
  {
    FoundAfter(NoCase(a), NoCase(b), s, i);
  }

  function SuffixEnd(s: string, i: nat): (e: int)
  {
    if Fits('s', s, i) || Fits('t', s, i) || Fits('m', s, i) || Fits('d', s, i) then i + 1
    else if (Fits('l', s, i) && Fits('l', s, i + 1)) || (Fits('v', s, i) && Fits('e', s, i + 1))
            || (Fits('r', s, i) && Fits('e', s, i + 1)) then i + 2
    else -1
  }

  lemma FoundSuffix(s: string, i: nat)
    requires i <= |s|
    ensures Found(Suffix(), s, i) == SuffixEnd(s, i)
  {
    hide Found, Ends, Fits, Pair;
    var re := Pair('r', 'e');
    var vere := Or(Pair('v', 'e'), re);
    var pairs := Or(Pair('l', 'l'), vere);
    FoundPair('l', 'l', s, i);
    FoundPair('v', 'e', s, i);
    FoundPair('r', 'e', s, i);
    FoundOr(Pair('v', 'e'), re, s, i);
    FoundOr(Pair('l', 'l'), vere, s, i);
    FoundOr(NoCase('d'), pairs, s, i);
    FoundOr(NoCase('m'), Or(NoCase('d'), pairs), s, i);
    FoundOr(NoCase('t'), Or(NoCase('m'), Or(NoCase('d'), pairs)), s, i);
    FoundOr(NoCase('s'), Or(NoCase('t'), Or(NoCase('m'), Or(NoCase('d'), pairs))), s, i);
    FoundNoCase('d', s, i);
    FoundNoCase('m', s, i);
    FoundNoCase('t', s, i);
    FoundNoCase('s', s, i);
  }

  lemma FoundNoCase(a: char, s: string, i: nat)
    requires i <= |s|
    ensures Found(NoCase(a), s, i) == if Fits(a, s, i) then i + 1 else -1
  {
  }

  lemma ContractionSuffix(s: string, i: nat)
    requires i < |s| && s[i] == '\''
    ensures Contraction(s, i) == if SuffixEnd(s, i + 1) == -1 then 0 else SuffixEnd(s, i + 1) - i
  {
  }

  lemma FoundContracted(s: string, i: nat)
    requires i <= |s|
    ensures Found(Contracted(), s, i) == if Contraction(s, i) > 0 then i + Contraction(s, i) else -1
  {
    hide Found, Ends, Suffix, IsNoCase, Fits;
    FoundAfterOne(Apostrophe, Suffix(), s, i);
    if At(Apostrophe, s, i) {
      FoundSuffix(s, i + 1);
      ContractionSuffix(s, i);
    }
  }

  lemma FoundWord(s: string, i: nat)
    requires i <= |s|
    ensures var j := WordStart(s, i);
            Found(Word(), s, i) == if At(Letter, s, j) then RunEnd(Letter, s, j) else -1
  {
    FoundOpt(Lead, Plus(Letter), s, i);
    FoundPlus(Letter, s, i);
    if i < |s| {
      FoundPlus(Letter, s, i + 1);
    }
  }

  lemma FoundNumber(s: string, i: nat)
    requires i <= |s|
    ensures Found(Number(), s, i) == if At(Digit, s, i) then NumberEnd(s, i) else -1
  {
    hide Found, Ends, Opt;
    var last := Opt(One(Digit));
    var two := Cat(One(Digit), last);
    FoundAfterOne(Digit, Opt(two), s, i);
    if At(Digit, s, i) {
      FoundOptional(two, s, i + 1);
      FoundAfterOne(Digit, last, s, i + 1);
      if At(Digit, s, i + 1) {
        FoundOptional(One(Digit), s, i + 2);
        FoundOne(Digit, s, i + 2);
      }
    }
  }

  lemma FoundOptional(p: Pattern, s: string, i: nat)
    requires i <= |s|
    ensures Found(Opt(p), s, i) == if Found(p, s, i) == -1 then i else Found(p, s, i)
  {
    FoundOr(p, Empty, s, i);
  }

  lemma FoundOne(c: char -> bool, s: string, i: nat)
    requires i <= |s|
    ensures Found(One(c), s, i) == if At(c, s, i) then i + 1 else -1
  {
  }

  lemma FoundMarkRun(s: string, i: nat)
    requires i <= |s|
    ensures Found(Cat(Plus(Mark), Star(Newline)), s, i) ==
            if At(Mark, s, i) then RunEnd(Newline, s, RunEnd(Mark, s, i)) else -1
  {
    hide Found, Ends, Plus;
    FoundBefore(Plus(Mark), Newline, s, i);
    FoundPlus(Mark, s, i);
  }

  lemma FoundMarks(s: string, i: nat)
    requires i <= |s|
    ensures var k := MarkStart(s, i);
            Found(Marks(), s, i) == if At(Mark, s, k) then RunEnd(Newline, s, RunEnd(Mark, s, k)) else -1
  {
    hide Found, Ends, Plus, Opt, RunEnd;
    FoundOpt(SpaceChar, Cat(Plus(Mark), Star(Newline)), s, i);
    FoundMarkRun(s, i);
    if i < |s| {
      FoundMarkRun(s, i + 1);
    }
  }

  /** After the last newline of the white-space run at `i`, or -1. */
  function LastNewline(s: string, i: nat): (e: int)
    requires i <= |s|
    decreases |s| - i
  {
    if !At(Space, s, i) then -1
    else if LastNewline(s, i + 1) != -1 then LastNewline(s, i + 1)
    else if Newline(s[i]) then i + 1
    else -1
  }

  lemma {:induction false} FromEachAppend(p: Pattern, s: string, a: seq<nat>, j: nat, low: nat)
    requires low <= j <= |s| && forall k | 0 <= k < |a| :: low <= a[k] <= |s|
    ensures FromEach(p, s, a + [j], low) == FromEach(p, s, a, low) + Ends(p, s, j)
  {
    if a == [] {
      FoundFromOne(p, s, j, low);
    } else {
      assert (a + [j])[1..] == a[1..] + [j];
      FromEachAppend(p, s, a[1..], j, low);
    }
  }

  lemma {:induction false} FromEachLow(p: Pattern, s: string, a: seq<nat>, low: nat, low': nat)
    requires low <= low' && forall k | 0 <= k < |a| :: low' <= a[k] <= |s|
    ensures FromEach(p, s, a, low) == FromEach(p, s, a, low')
  {
    if a != [] {
      FromEachLow(p, s, a[1..], low, low');
    }
  }

  /** A later newline is tried before this one. */
  lemma LineEndEnds(s: string, i: nat)
    requires i < |s| && Space(s[i])
    ensures Ends(LineEnd(), s, i) == Ends(LineEnd(), s, i + 1) + Ends(One(Newline), s, i)
  {
    hide *;
    var nl, rest := One(Newline), StarEnds(Space, s, i + 1);
    LineEndIs(s, i);
    LineEndIs(s, i + 1);
    StarStep(Space, s, i);
    FromEachAppend(nl, s, rest, i, i);
    FromEachLow(nl, s, rest, i, i + 1);
  }

  lemma LineEndIs(s: string, i: nat)
    requires i <= |s|
    ensures Ends(LineEnd(), s, i) == FromEach(One(Newline), s, StarEnds(Space, s, i), i)
  {
  }

  lemma StarStep(c: char -> bool, s: string, i: nat)
    requires i < |s| && c(s[i])
    ensures StarEnds(c, s, i) == StarEnds(c, s, i + 1) + [i]
  {
  }

  lemma {:induction false} FoundLineEnd(s: string, i: nat)
    requires i <= |s|
    ensures Found(LineEnd(), s, i) == LastNewline(s, i)
    decreases |s| - i
  {
    hide *;
    if At(Space, s, i) {
      SpaceAt(s, i);
      FoundLineEnd(s, i + 1);
      LineEndLater(s, i);
      LastStep(s, i);
    } else {
      LineEndNone(s, i);
      LastStep(s, i);
    }
  }

  lemma SpaceAt(s: string, i: nat)
    ensures At(Space, s, i) ==> i < |s| && Space(s[i])
  {
  }

  lemma LastStep(s: string, i: nat)
    requires i <= |s|
    ensures LastNewline(s, i) == if !At(Space, s, i) then -1
                                 else if LastNewline(s, i + 1) != -1 then LastNewline(s, i + 1)
                                 else if Newline(s[i]) then i + 1 else -1
  {
  }

  lemma LineEndLater(s: string, i: nat)
    requires i < |s| && Space(s[i])
    ensures Found(LineEnd(), s, i) == if Found(LineEnd(), s, i + 1) != -1 then Found(LineEnd(), s, i + 1)
                                      else if Newline(s[i]) then i + 1 else -1
  {
    hide LineEnd, StarEnds, FromEach;
    LineEndEnds(s, i);
  }

  lemma LineEndNone(s: string, i: nat)
    requires i <= |s| && !At(Space, s, i)
    ensures Found(LineEnd(), s, i) == -1
  {
    hide LineEnd, StarEnds, FromEach;
    LineEndIs(s, i);
    NoStar(Space, s, i);
    FoundFromOne(One(Newline), s, i, i);
  }

  lemma NoStar(c: char -> bool, s: string, i: nat)
    requires i <= |s| && !At(c, s, i)
    ensures StarEnds(c, s, i) == [i]
  {
  }

  lemma StarSecond(c: char -> bool, s: string, i: nat)
    requires i <= |s|
    ensures RunEnd(c, s, i) > i ==> |StarEnds(c, s, i)| >= 2 && StarEnds(c, s, i)[1] == RunEnd(c, s, i) - 1
    ensures RunEnd(c, s, i) == i ==> StarEnds(c, s, i) == [i]
    decreases |s| - i
  {
  }

  lemma PlusEnds(c: char -> bool, s: string, i: nat)
    requires i <= |s|
    ensures Ends(Plus(c), s, i) == if At(c, s, i) then StarEnds(c, s, i + 1) else []
  {
    FoundAfter(One(c), Star(c), s, i);
  }

  lemma FoundNotBefore(c: char -> bool, s: string, i: nat)
    requires i <= |s|
    ensures Found(NotBefore(c), s, i) == if At(c, s, i) then -1 else i
  {
  }

  lemma RunEndStep(c: char -> bool, s: string, i: nat)
    requires i <= |s|
    ensures RunEnd(c, s, i) == if At(c, s, i) then RunEnd(c, s, i + 1) else i
  {
  }

  /** A run of white space, all of it at the end of the text, else all but its last character. */
  lemma FoundInnerSpace(s: string, i: nat)
    requires i <= |s|
    ensures var e := RunEnd(Space, s, i);
            Found(InnerSpace(), s, i) == if e == i || (e < |s| && e == i + 1) then -1
                                         else if e < |s| then e - 1 else e
  {
    hide Found, Ends, StarEnds, Plus, RunEnd;
    var here, e := NotBefore(NonSpace), RunEnd(Space, s, i);
    PlusEnds(Space, s, i);
    RunEndStep(Space, s, i);
    FoundFirst(Plus(Space), here, s, i);
    FoundNotBefore(NonSpace, s, e);
    if At(Space, s, i) && e < |s| {
      StarSecond(Space, s, i + 1);
      FoundNotBefore(NonSpace, s, e - 1);
      if e > i + 1 {
        FoundSecond(Plus(Space), here, s, i);
      } else {
        FoundAfter(Plus(Space), here, s, i);
        FoundSame(Cat(Plus(Space), here), here, s, i, e);
      }
    }
  }

  lemma FoundSame(p: Pattern, q: Pattern, s: string, i: nat, j: nat)
    requires i <= |s| && j <= |s| && Ends(p, s, i) == Ends(q, s, j)
    ensures Found(p, s, i) == Found(q, s, j)
  {
  }

  // ---- The scanner against the pattern --------------------------------------------------------------

  function PatternSpaceEnd(s: string, i: nat): (e: int)
    requires i <= |s|
  {
    var e := RunEnd(Space, s, i);
    if LastNewline(s, i) != -1 then LastNewline(s, i)
    else if e == i then -1
    else if e < |s| && e > i + 1 then e - 1
    else e
  }

  lemma FoundSpaces(s: string, i: nat)
    requires i <= |s|
    ensures Found(Or(LineEnd(), Or(InnerSpace(), Plus(Space))), s, i) == PatternSpaceEnd(s, i)
  {
    hide Found, Ends, LineEnd, InnerSpace, Plus;
    FoundOr(LineEnd(), Or(InnerSpace(), Plus(Space)), s, i);
    FoundOr(InnerSpace(), Plus(Space), s, i);
    FoundLineEnd(s, i);
    FoundInnerSpace(s, i);
    FoundPlus(Space, s, i);
  }

  /** What the pattern matches at `i`, rule by rule. */
  lemma FoundWhole(s: string, i: nat)
    requires i <= |s|
    ensures var j, k := WordStart(s, i), MarkStart(s, i);
            Found(Whole(), s, i) ==
            if Contraction(s, i) > 0 then i + Contraction(s, i)
            else if At(Letter, s, j) then RunEnd(Letter, s, j)
            else if At(Digit, s, i) then NumberEnd(s, i)
            else if At(Mark, s, k) then RunEnd(Newline, s, RunEnd(Mark, s, k))
            else PatternSpaceEnd(s, i)
  {
    hide Found, Ends, Contracted, Word, Number, Marks, LineEnd, InnerSpace, Plus;
    var spaces := Or(LineEnd(), Or(InnerSpace(), Plus(Space)));
    FoundOr(Marks(), spaces, s, i);
    FoundOr(Number(), Or(Marks(), spaces), s, i);
    FoundOr(Word(), Or(Number(), Or(Marks(), spaces)), s, i);
    FoundOr(Contracted(), Or(Word(), Or(Number(), Or(Marks(), spaces))), s, i);
    FoundContracted(s, i);
    FoundWord(s, i);
    FoundNumber(s, i);
    FoundMarks(s, i);
    FoundSpaces(s, i);
  }

  /** The number of newlines in the white-space run at `i`. */
  function Newlines(s: string, i: nat): (n: nat)
    requires i <= |s|
    decreases |s| - i
  {
    if !At(Space, s, i) then 0
    else (if Newline(s[i]) then 1 else 0) + Newlines(s, i + 1)
  }

  lemma {:induction false} NewlineEnds(s: string, i: nat)
    requires i <= |s|
    ensures var w, last := RunEnd(Blank, s, i), LastNewline(s, i);
            && (Newlines(s, i) == 0 ==> !At(Newline, s, w) && last == -1)
            && (Newlines(s, i) == 1 ==> At(Newline, s, w) && last == w + 1)
            && (Newlines(s, i) > 1 ==> At(Newline, s, w) && last > w + 1)
    decreases |s| - i
  {
    if At(Space, s, i) {
      NewlineEnds(s, i + 1);
    }
  }

  /** The scanner ends a chunk where the pattern's match ends exactly when the white space at the
      start of the chunk holds at most one newline; with more, it ends the chunk earlier. */
  lemma ChunkIsMatch(s: string, i: nat)
    requires i < |s|
    ensures Found(Whole(), s, i) == ChunkEnd(s, i) <==> Newlines(s, i) <= 1
    ensures ChunkEnd(s, i) <= Found(Whole(), s, i)
  {
    hide Found, Ends, Whole;
    FoundWhole(s, i);
    NewlineEnds(s, i);
  }

  // ---- Whole texts ------------------------------------------------------------------------------------

  /** The text cut by matching the pattern again and again. */
  function PatternChunks(s: string, i: nat): (out: seq<string>)
    requires i <= |s|
    decreases |s| - i
  {
    var e := Found(Whole(), s, i);
    if i == |s| || e <= i then [] else [s[i..e]] + PatternChunks(s, e)
  }

  /** At every chunk start the white-space run holds at most one newline. */
  predicate OneLine(s: string, i: nat)
    requires i <= |s|
    decreases |s| - i
  {
    i == |s| || (Newlines(s, i) <= 1 && OneLine(s, ChunkEnd(s, i)))
  }

  lemma {:induction false} ChunksMatch(s: string, i: nat)
    requires i <= |s|
    ensures Chunks(s, i) == PatternChunks(s, i) <==> OneLine(s, i)
    decreases |s| - i
  {
    hide Found, Whole, ChunkEnd, Newlines;
    if i < |s| {
      ChunkIsMatch(s, i);
      var e, f := ChunkEnd(s, i), Found(Whole(), s, i);
      assert Chunks(s, i) == [s[i..e]] + Chunks(s, e);
      assert PatternChunks(s, i) == [s[i..f]] + PatternChunks(s, f);
      if e == f {
        ChunksMatch(s, e);
        assert [s[i..e]] + Chunks(s, e) == [s[i..f]] + PatternChunks(s, f) <==> Chunks(s, e) == PatternChunks(s, e) by {
          assert ([s[i..e]] + Chunks(s, e))[1..] == Chunks(s, e);
          assert ([s[i..f]] + PatternChunks(s, f))[1..] == PatternChunks(s, f);
        }
      } else {
        assert |s[i..e]| < |s[i..f]|;
        assert Chunks(s, i)[0] != PatternChunks(s, i)[0];
      }
    }
  }

  /** A white-space run starts at `a`. */
  predicate RunStart(s: string, a: nat)
  {
    At(Space, s, a) && (a == 0 || !Space(s[a - 1]))
  }

  /** Where the run is left after the newlines that go with a mark before it. */
  function AfterMark(s: string, a: nat): (b: nat)
    requires a <= |s|
    ensures a <= b <= |s|
  {
    if a > 0 && Mark(s[a - 1]) then RunEnd(Newline, s, a) else a
  }

  lemma {:induction false} FewerLater(s: string, a: nat, b: nat)
    requires a <= b <= |s| && forall k | a <= k < b :: Space(s[k])
    ensures Newlines(s, b) <= Newlines(s, a)
    decreases b - a
  {
    if a < b {
      FewerLater(s, a + 1, b);
    }
  }

  /** A chunk that runs past the start of a white-space run is marks and their newlines. */
  lemma ChunkAcross(s: string, i: nat, a: nat)
    requires i < |s| && i < a < ChunkEnd(s, i) && RunStart(s, a)
    ensures ChunkEnd(s, i) == AfterMark(s, a)
  {
    var k := MarkStart(s, i);
    assert !Space(s[a - 1]) && Space(s[a]);
    if Contraction(s, i) == 0 && !At(Letter, s, WordStart(s, i)) && !At(Digit, s, i) && At(Mark, s, k) {
      var m := RunEnd(Mark, s, k);
      assert a >= m;
      assert a == m;
      assert Mark(s[a - 1]);
    }
  }

  lemma {:induction false} OneLineRuns(s: string, i: nat, a: nat)
    requires i <= a && RunStart(s, a) && OneLine(s, i)
    ensures Newlines(s, AfterMark(s, a)) <= 1
    decreases |s| - i
  {
    if i == a {
      FewerLater(s, a, AfterMark(s, a));
    } else if ChunkEnd(s, i) <= a {
      OneLineRuns(s, ChunkEnd(s, i), a);
    } else {
      ChunkAcross(s, i, a);
      assert OneLine(s, ChunkEnd(s, i));
    }
  }

  /** Every white-space run, less the newlines right after a mark, holds at most one newline. */
  predicate OneNewlineRuns(s: string)
  {
    forall a | 0 <= a < |s| && RunStart(s, a) :: Newlines(s, AfterMark(s, a)) <= 1
  }

  predicate IsMarks(s: string, i: nat)
    requires i < |s|
  {
    && Contraction(s, i) == 0 && !At(Letter, s, WordStart(s, i)) && !At(Digit, s, i)
    && At(Mark, s, MarkStart(s, i))
  }

  lemma MarksChunk(s: string, i: nat)
    requires i < |s| && IsMarks(s, i)
    ensures var m := RunEnd(Mark, s, MarkStart(s, i));
            && i < m <= |s| && Mark(s[m - 1]) && ChunkEnd(s, i) == AfterMark(s, m)
  {
  }

  /** A chunk that is not marks ends in something other than a mark, and in white space only if it
      is all white space. */
  lemma OtherChunk(s: string, i: nat)
    requires i < |s| && !IsMarks(s, i)
    ensures var e := ChunkEnd(s, i);
            && !Mark(s[e - 1])
            && (Space(s[e - 1]) ==> forall k | i <= k < e :: Space(s[k]))
  {
  }

  /** White space that follows a chunk is what is left of a run. */
  lemma NextNewlines(s: string, i: nat)
    requires i < |s| && Newlines(s, i) <= 1 && OneNewlineRuns(s)
    ensures Newlines(s, ChunkEnd(s, i)) <= 1
  {
    hide ChunkEnd, IsMarks;
    var e := ChunkEnd(s, i);
    if IsMarks(s, i) {
      MarksChunk(s, i);
      var m := RunEnd(Mark, s, MarkStart(s, i));
      if At(Space, s, m) {
        assert RunStart(s, m);
      }
    } else {
      OtherChunk(s, i);
      if Space(s[e - 1]) {
        FewerLater(s, i, e);
      } else if At(Space, s, e) {
        assert RunStart(s, e);
      }
    }
  }

  lemma {:induction false} RunsOneLine(s: string, i: nat)
    requires i <= |s| && Newlines(s, i) <= 1 && OneNewlineRuns(s)
    ensures OneLine(s, i)
    decreases |s| - i
  {
    if i < |s| {
      NextNewlines(s, i);
      RunsOneLine(s, ChunkEnd(s, i));
    }
  }

  /** The scanner cuts a text as the pattern does exactly when every white-space run, less the
      newlines right after a mark, holds at most one newline. */
  lemma SplitsLikePattern(s: string)
    ensures Chunks(s, 0) == PatternChunks(s, 0) <==> OneNewlineRuns(s)
  {
    ChunksMatch(s, 0);
    if OneLine(s, 0) {
      forall a | 0 <= a < |s| && RunStart(s, a) ensures Newlines(s, AfterMark(s, a)) <= 1 {
        OneLineRuns(s, 0, a);
      }
    }
    if OneNewlineRuns(s) {
      if At(Space, s, 0) {
        assert RunStart(s, 0) && AfterMark(s, 0) == 0;
      }
      RunsOneLine(s, 0);
    }
  }

  /** Two newlines are two chunks to the scanner and one match of the pattern. */
  lemma TwoNewlines()
    ensures ChunkEnd("\n\n", 0) == 1 && Found(Whole(), "\n\n", 0) == 2
  {
    hide Found, Ends, Whole;
    var s := "\n\n";
    assert Newlines(s, 1) == 1 && Newlines(s, 0) == 2;
    ChunkIsMatch(s, 0);
    assert RunEnd(Blank, s, 0) == 0;
  }
}
