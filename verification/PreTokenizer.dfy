/** The pre-tokenizer that cuts text into chunks for byte-pair merging. */
module PreTokenizer {
  import T = Text
  import B = BpeTokenizer

  // ---- Character classes ------------------------------------------------------------------

  predicate Letter(c: char) { 'a' <= c <= 'z' || 'A' <= c <= 'Z' }

  predicate Digit(c: char) { '0' <= c <= '9' }

  predicate Newline(c: char) { c == '\r' || c == '\n' }

  predicate Blank(c: char) { c == ' ' || c == '\t' || c == '\U{0B}' || c == '\U{0C}' }

  predicate Space(c: char) { Newline(c) || Blank(c) }

  predicate Mark(c: char) { !Letter(c) && !Digit(c) && !Space(c) }

  predicate Lead(c: char) { !Letter(c) && !Digit(c) && !Newline(c) }

  predicate At(c: char -> bool, s: string, k: nat)
  {
    k < |s| && c(s[k])
  }

  /** Is `s[k]` the letter `lower`, in either case? */
  predicate IsNoCase(lower: char, s: string, k: nat)
    requires 'a' <= lower <= 'z'
  {
    k < |s| && (s[k] == lower || (Letter(s[k]) && s[k] < 'a' && s[k] as int + 32 == lower as int))
  }

  function RunEnd(c: char -> bool, s: string, i: nat): (e: nat)
    requires i <= |s|
    ensures i <= e <= |s|
    ensures forall k | i <= k < e :: c(s[k])
    ensures e < |s| ==> !c(s[e])
    decreases |s| - i
  {
    if At(c, s, i) then RunEnd(c, s, i + 1) else i
  }

  // ---- One chunk ---------------------------------------------------------------------------

  /** The length of the contraction at `i`, or 0. */
  function Contraction(s: string, i: nat): (len: nat)
  {
    if i < |s| && s[i] == '\'' then
      if (IsNoCase('l', s, i + 1) && IsNoCase('l', s, i + 2))
         || (IsNoCase('v', s, i + 1) && IsNoCase('e', s, i + 2))
         || (IsNoCase('r', s, i + 1) && IsNoCase('e', s, i + 2)) then 3
      else if IsNoCase('s', s, i + 1) || IsNoCase('t', s, i + 1)
              || IsNoCase('m', s, i + 1) || IsNoCase('d', s, i + 1) then 2
      else 0
    else 0
  }

  function WordStart(s: string, i: nat): (j: nat)
    ensures j == i || (j == i + 1 && At(Letter, s, j))
  {
    if At(Lead, s, i) && At(Letter, s, i + 1) then i + 1 else i
  }

  function NumberEnd(s: string, i: nat): (e: nat)
  {
    if !At(Digit, s, i) then i
    else if !At(Digit, s, i + 1) then i + 1
    else if !At(Digit, s, i + 2) then i + 2
    else i + 3
  }

  function MarkStart(s: string, i: nat): (j: nat)
    ensures j == i || (j == i + 1 && At(Mark, s, j))
  {
    if i < |s| && s[i] == ' ' && At(Mark, s, i + 1) then i + 1 else i
  }

  /** White space: up to the first newline of the run, else the run, less its last character when a
      word follows a longer run. */
  function SpaceEnd(s: string, i: nat): (e: nat)
    requires i <= |s|
  {
    var w := RunEnd(Blank, s, i);
    if At(Newline, s, w) then w + 1
    else
      var e := RunEnd(Space, s, i);
      if e < |s| && e > i + 1 then e - 1 else e
  }

  function ChunkEnd(s: string, i: nat): (e: nat)
    requires i < |s|
    ensures i < e <= |s|
  {
    var j, k := WordStart(s, i), MarkStart(s, i);
    if Contraction(s, i) > 0 then i + Contraction(s, i)
    else if At(Letter, s, j) then RunEnd(Letter, s, j)
    else if At(Digit, s, i) then NumberEnd(s, i)
    else if At(Mark, s, k) then RunEnd(Newline, s, RunEnd(Mark, s, k))
    else SpaceEnd(s, i)
  }

  function Chunks(s: string, i: nat): (out: seq<string>)
    requires i <= |s|
    decreases |s| - i
  {
    if i == |s| then [] else [s[i..ChunkEnd(s, i)]] + Chunks(s, ChunkEnd(s, i))
  }

  // ---- The scanner -------------------------------------------------------------------------

  method SkipRun(c: char -> bool, s: string, i: nat) returns (w: nat)
    requires i <= |s|
    ensures w == RunEnd(c, s, i)
  {
    w := i;
    while w < |s| && c(s[w])
      invariant i <= w <= |s|
      invariant RunEnd(c, s, w) == RunEnd(c, s, i)
    {
      w := w + 1;
    }
  }

  method SkipDigits(s: string, i: nat) returns (w: nat)
    requires i <= |s|
    ensures w == NumberEnd(s, i)
  {
    w := i;
    var c := 0;
    while At(Digit, s, w) && c < 3
      invariant 0 <= c <= 3 && w == i + c <= |s|
      invariant forall k | i <= k < w :: Digit(s[k])
      decreases 3 - c
    {
      w := w + 1;
      c := c + 1;
    }
  }

  method PreTokenize(s: string) returns (out: seq<string>)
    ensures out == Chunks(s, 0)
  {
    out := [];
    var i := 0;
    while i < |s|
      invariant i <= |s|
      invariant out + Chunks(s, i) == Chunks(s, 0)
      decreases |s| - i
    {
      var end := ScanChunk(s, i);
      assert out + Chunks(s, i) == out + [s[i..end]] + Chunks(s, end);
      out := out + [s[i..end]];
      i := end;
    }
  }

  /** One turn of the scan: the first rule that applies decides where the chunk ends. */
  method ScanChunk(s: string, i: nat) returns (end: nat)
    requires i < |s|
    ensures end == ChunkEnd(s, i)
  {
    if Contraction(s, i) > 0 { return i + Contraction(s, i); }
    var j := i;
    if At(Lead, s, j) && At(Letter, s, j + 1) { j := j + 1; }
    if At(Letter, s, j) {
      end := SkipRun(Letter, s, j);
      return;
    }
    if At(Digit, s, i) {
      end := SkipDigits(s, i);
      return;
    }
    j := i;
    if s[j] == ' ' && At(Mark, s, j + 1) { j := j + 1; }
    if At(Mark, s, j) {
      end := SkipRun(Mark, s, j);
      end := SkipRun(Newline, s, end);
      return;
    }
    var w := SkipRun(Blank, s, i);
    if At(Newline, s, w) { return w + 1; }
    end := SkipRun(Space, s, i);
    if end < |s| && end - 1 > i { end := end - 1; }
  }

  method CountTokens(ranks: B.Ranks, text: string) returns (total: nat)
    ensures total == if |ranks| == 0 then 0 else TokenCount(ranks, Chunks(text, 0))
  {
    if |ranks| == 0 || text == "" { return 0; }
    var chunks := PreTokenize(text);
    total := 0;
    var k := 0;
    while k < |chunks|
      invariant k <= |chunks|
      invariant total + TokenCount(ranks, chunks[k..]) == TokenCount(ranks, chunks)
    {
      var c := B.MergeCount(ranks, chunks[k]);
      total := total + c;
      k := k + 1;
    }
  }

  function TokenCount(ranks: B.Ranks, chunks: seq<string>): (total: nat)
  {
    if chunks == [] then 0 else |B.Greedy(ranks, B.Singles(chunks[0]))| + TokenCount(ranks, chunks[1..])
  }

  // ---- The chunks partition the text ---------------------------------------------------------

  /** The chunks are non-empty and concatenate to the text; a chunk that starts with a digit is
      one to three digits. */
  lemma {:induction false} ChunksPartition(s: string, i: nat)
    requires i <= |s|
    ensures T.Concat(Chunks(s, i)) == s[i..]
    ensures forall c | c in Chunks(s, i) :: c != "" && (Digit(c[0]) ==> |c| <= 3 && forall d | d in c :: Digit(d))
    decreases |s| - i
  {
    hide ChunkEnd;
    if i < |s| {
      var e := ChunkEnd(s, i);
      NumberChunk(s, i);
      ChunksPartition(s, e);
      assert s[i..] == s[i..e] + s[e..];
      assert Chunks(s, i)[1..] == Chunks(s, e);
    }
  }

  lemma NumberChunk(s: string, i: nat)
    requires i < |s|
    ensures Digit(s[i]) ==> ChunkEnd(s, i) <= i + 3 && forall d | d in s[i..ChunkEnd(s, i)] :: Digit(d)
  {
  }

  /** Every chunk costs at least one token and at most one token a byte. */
  lemma {:induction false} TokensWithin(ranks: B.Ranks, chunks: seq<string>)
    requires forall c | c in chunks :: c != ""
    ensures |chunks| <= TokenCount(ranks, chunks) <= |T.Concat(chunks)|
  {
    if chunks != [] {
      B.MergeOfPiece(ranks, chunks[0]);
      assert chunks[0] in chunks && forall c | c in chunks[1..] :: c in chunks;
      TokensWithin(ranks, chunks[1..]);
    }
  }

  /** The token count of a text lies between its number of chunks and its length in bytes. */
  lemma CountBounds(ranks: B.Ranks, text: string)
    ensures |Chunks(text, 0)| <= TokenCount(ranks, Chunks(text, 0)) <= |text|
  {
    ChunksPartition(text, 0);
    TokensWithin(ranks, Chunks(text, 0));
  }

  /** The tokens of a text: for each chunk in turn the parts that greedy merging of its bytes leaves. */
  function Tokens(ranks: B.Ranks, chunks: seq<string>): (tokens: seq<string>)
  {
    if chunks == [] then []
    else Tokens(ranks, chunks[..|chunks| - 1]) + B.Greedy(ranks, B.Singles(chunks[|chunks| - 1]))
  }

  lemma {:induction false} CountSnoc(ranks: B.Ranks, chunks: seq<string>, c: string)
    ensures TokenCount(ranks, chunks + [c]) == TokenCount(ranks, chunks) + |B.Greedy(ranks, B.Singles(c))|
  {
    if chunks == [] {
      assert chunks + [c] == [c] && [c][1..] == [];
    } else {
      assert (chunks + [c])[1..] == chunks[1..] + [c];
      CountSnoc(ranks, chunks[1..], c);
    }
  }

  /** The count is the number of tokens; they are the text cut up, and each is a single byte or in the
      rank table. */
  lemma {:induction false} CountIsTokens(ranks: B.Ranks, chunks: seq<string>)
    ensures TokenCount(ranks, chunks) == |Tokens(ranks, chunks)|
    ensures T.Concat(Tokens(ranks, chunks)) == T.Concat(chunks)
    ensures forall t | t in Tokens(ranks, chunks) :: |t| == 1 || t in ranks
    decreases |chunks|
  {
    if chunks != [] {
      var front, c := chunks[..|chunks| - 1], chunks[|chunks| - 1];
      assert chunks == front + [c];
      CountIsTokens(ranks, front);
      CountSnoc(ranks, front, c);
      B.MergeOfPiece(ranks, c);
      T.ConcatAppend(Tokens(ranks, front), B.Greedy(ranks, B.Singles(c)));
      T.ConcatAppend(front, [c]);
      assert [c][1..] == [];
    }
  }

  /** The tokens of a text concatenate to it, and their number is what is counted. */
  lemma CountMeaning(ranks: B.Ranks, text: string)
    ensures TokenCount(ranks, Chunks(text, 0)) == |Tokens(ranks, Chunks(text, 0))|
    ensures T.Concat(Tokens(ranks, Chunks(text, 0))) == text
  {
    CountIsTokens(ranks, Chunks(text, 0));
    ChunksPartition(text, 0);
    assert text[0..] == text;
  }

  // ---- The character classes by code -----------------------------------------------------------

  /** The classes the rules speak of, by character code, and the letters that count as one whatever
      their case. */
  lemma ClassesByCode(c: char, lower: char)
    requires 'a' <= lower <= 'z'
    ensures Letter(c) <==> 65 <= c as int <= 90 || 97 <= c as int <= 122
    ensures Digit(c) <==> 48 <= c as int <= 57
    ensures Newline(c) <==> c as int == 10 || c as int == 13
    ensures Space(c) <==> c as int == 32 || 9 <= c as int <= 13
    ensures Mark(c) <==> !Letter(c) && !Digit(c) && !Space(c)
    ensures IsNoCase(lower, [c], 0) <==> c as int == lower as int || c as int + 32 == lower as int
  {
  }
}
