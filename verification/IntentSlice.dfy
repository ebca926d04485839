/** The lines of a file that matter to an intent: a window around every hit, merged, and the best
    windows within a line budget. */
module IntentSlice {
  import T = Text

  datatype Win = Win(start: int, end: int, score: int)

  datatype LineRange = LineRange(start: int, end: int)

  function Min(a: int, b: int): int { if a < b then a else b }

  function Max(a: int, b: int): int { if a < b then b else a }

  // ---- Scoring ----------------------------------------------------------------------------------

  function LowerChar(c: char): char
  {
    if 'A' <= c <= 'Z' then c - 'A' + 'a' else c
  }

  function Lower(s: string): (low: string)
    ensures |low| == |s| && forall i | 0 <= i < |s| :: low[i] == LowerChar(s[i])
  {
    if s == "" then "" else [LowerChar(s[0])] + Lower(s[1..])
  }

  /** The number of the first `n` terms that occur in a line. */
  function Hits(terms: seq<string>, low: string, n: nat): (score: nat)
    requires n <= |terms|
    ensures score > 0 <==> exists k | 0 <= k < n :: T.Find(low, terms[k], 0) != -1
  {
    if n == 0 then 0
    else Hits(terms, low, n - 1) + if T.Find(low, terms[n - 1], 0) != -1 then 1 else 0
  }

  function Score(terms: seq<string>, line: string): (score: nat)
  {
    Hits(terms, Lower(line), |terms|)
  }

  /** The window around line `i` (from 0), of lines counted from 1. */
  function Window(i: nat, n: nat, context: int, score: int): Win
  {
    Win(Max(1, i + 1 - context), Min(n, i + 1 + context), score)
  }

  function Windows(lines: seq<string>, terms: seq<string>, context: int, n: nat): (wins: seq<Win>)
    requires n <= |lines|
  {
    if n == 0 then []
    else
      Windows(lines, terms, context, n - 1)
      + if Score(terms, lines[n - 1]) > 0
        then [Window(n - 1, |lines|, context, Score(terms, lines[n - 1]))] else []
  }

  method ScoreLine(terms: seq<string>, line: string) returns (s: nat)
    ensures s == Score(terms, line)
  {
    hide T.Find, Lower;
    var low := Lower(line);
    s := 0;
    for k := 0 to |terms|
      invariant s == Hits(terms, low, k)
    {
      if T.Find(low, terms[k], 0) != -1 { s := s + 1; }
    }
  }

  method BuildWindows(lines: seq<string>, terms: seq<string>, context: int) returns (wins: seq<Win>)
    ensures wins == Windows(lines, terms, context, |lines|)
  {
    hide Score, Window;
    wins := [];
    for i := 0 to |lines|
      invariant wins == Windows(lines, terms, context, i)
    {
      var s := ScoreLine(terms, lines[i]);
      if s > 0 {
        wins := wins + [Window(i, |lines|, context, s)];
      }
    }
  }

  // ---- Sorting ------------------------------------------------------------------------------------

  datatype Order = ByStart | ByScore

  predicate Before(o: Order, x: Win, y: Win)
  {
    match o
    case ByStart => x.start < y.start
    case ByScore => if x.score != y.score then x.score > y.score else x.start < y.start
  }

  predicate Sorted(o: Order, s: seq<Win>)
  {
    forall i, j | 0 <= i < j < |s| :: !Before(o, s[j], s[i])
  }

  /** `std::sort`: some sorted permutation. */
  method Sort(o: Order, s: seq<Win>) returns (r: seq<Win>)
    ensures Sorted(o, r) && multiset(r) == multiset(s)
  {
    r := [];
    for n := 0 to |s|
      invariant Sorted(o, r) && multiset(r) == multiset(s[..n])
    {
      var k := 0;
      while k < |r| && !Before(o, s[n], r[k])
        invariant k <= |r|
        invariant forall i | 0 <= i < k :: !Before(o, s[n], r[i])
      {
        k := k + 1;
      }
      InsertSorted(o, r, k, s[n]);
      assert s[..n + 1] == s[..n] + [s[n]];
      r := r[..k] + [s[n]] + r[k..];
    }
    assert s[..|s|] == s;
  }

  lemma InsertSorted(o: Order, r: seq<Win>, k: nat, w: Win)
    requires Sorted(o, r) && k <= |r|
    requires forall i | 0 <= i < k :: !Before(o, w, r[i])
    requires k < |r| ==> Before(o, w, r[k])
    ensures Sorted(o, r[..k] + [w] + r[k..])
    ensures multiset(r[..k] + [w] + r[k..]) == multiset(r) + multiset{w}
  {
    hide Before;
    var q := r[..k] + [w] + r[k..];
    forall i, j | 0 <= i < j < |q| ensures !Before(o, q[j], q[i]) {
      InsertAt(r, k, w, i);
      InsertAt(r, k, w, j);
      if i == k {
        BeforeOrder(o, w, r[k], r[j - 1]);
      }
    }
    assert r == r[..k] + r[k..];
  }

  lemma InsertAt(r: seq<Win>, k: nat, w: Win, i: nat)
    requires k <= |r| && i <= |r|
    ensures (r[..k] + [w] + r[k..])[i] == if i < k then r[i] else if i == k then w else r[i - 1]
  {
  }

  lemma BeforeOrder(o: Order, x: Win, y: Win, z: Win)
    requires Before(o, x, y)
    ensures !Before(o, z, y) || z == y ==> !Before(o, z, x)
  {
  }

  lemma SameMembers(a: seq<Win>, b: seq<Win>)
    requires multiset(a) == multiset(b)
    ensures |a| == |b| && forall w :: w in a <==> w in b
  {
    forall w ensures w in a <==> w in b {
      assert w in a <==> multiset(a)[w] > 0;
      assert w in b <==> multiset(b)[w] > 0;
    }
    assert |multiset(a)| == |a| && |multiset(b)| == |b|;
  }

  // ---- Merging --------------------------------------------------------------------------------------

  function Joined(last: Win, w: Win): Win
  {
    Win(last.start, Max(last.end, w.end), last.score + w.score)
  }

  function Merged(wins: seq<Win>): (merged: seq<Win>)
  {
    if wins == [] then []
    else
      var before, w := Merged(wins[..|wins| - 1]), wins[|wins| - 1];
      if before != [] && w.start <= before[|before| - 1].end + 1 then
        before[..|before| - 1] + [Joined(before[|before| - 1], w)]
      else before + [w]
  }

  method MergeWindows(wins: seq<Win>) returns (merged: seq<Win>)
    ensures merged == Merged(wins)
  {
    merged := [];
    assert wins[..0] == [];
    for i := 0 to |wins|
      invariant merged == Merged(wins[..i])
    {
      var w := wins[i];
      assert wins[..i + 1][..i] == wins[..i];
      if merged != [] && w.start <= merged[|merged| - 1].end + 1 {
        var last := merged[|merged| - 1];
        merged := merged[..|merged| - 1] + [Win(last.start, Max(last.end, w.end), last.score + w.score)];
      } else {
        merged := merged + [w];
      }
    }
    assert wins[..|wins|] == wins;
  }

  // ---- Picking within the budget ----------------------------------------------------------------------

  function Length(w: Win): int { w.end - w.start + 1 }

  function Sum(f: Win -> int, wins: seq<Win>): (sum: int)
  {
    if wins == [] then 0 else Sum(f, wins[..|wins| - 1]) + f(wins[|wins| - 1])
  }

  function Total(wins: seq<Win>): (lines: int)
  {
    Sum(Length, wins)
  }

  /** The windows kept of the first ones in score order. */
  function Picked(ranked: seq<Win>, maxRanges: int, maxTotal: int): (kept: seq<Win>)
  {
    if ranked == [] then []
    else
      var kept, w := Picked(ranked[..|ranked| - 1], maxRanges, maxTotal), ranked[|ranked| - 1];
      if |kept| >= maxRanges || (kept != [] && Total(kept) + Length(w) > maxTotal) then kept else kept + [w]
  }

  method PickWindows(ranked: seq<Win>, maxRanges: int, maxTotal: int) returns (kept: seq<Win>)
    ensures kept == Picked(ranked, maxRanges, maxTotal)
  {
    kept := [];
    var total := 0;
    assert ranked[..0] == [];
    for i := 0 to |ranked|
      invariant kept == Picked(ranked[..i], maxRanges, maxTotal) && total == Total(kept)
    {
      var w := ranked[i];
      assert ranked[..i + 1][..i] == ranked[..i];
      if |kept| >= maxRanges {
        PickedFull(ranked, maxRanges, maxTotal, i);
        return;
      }
      var len := w.end - w.start + 1;
      if kept == [] || total + len <= maxTotal {
        assert (kept + [w])[..|kept|] == kept;
        kept := kept + [w];
        total := total + len;
      }
    }
    assert ranked[..|ranked|] == ranked;
  }

  /** Once there are enough windows no more are taken. */
  lemma {:induction false} PickedFull(ranked: seq<Win>, maxRanges: int, maxTotal: int, i: nat)
    requires i <= |ranked| && |Picked(ranked[..i], maxRanges, maxTotal)| >= maxRanges
    ensures Picked(ranked, maxRanges, maxTotal) == Picked(ranked[..i], maxRanges, maxTotal)
    decreases |ranked|
  {
    if i < |ranked| {
      assert ranked[..|ranked| - 1][..i] == ranked[..i];
      PickedFull(ranked[..|ranked| - 1], maxRanges, maxTotal, i);
    } else {
      assert ranked[..i] == ranked;
    }
  }

  // ---- The slice -----------------------------------------------------------------------------------------

  /** `ranked` holds the merged windows of the file, best first. */
  ghost predicate Ranked(ranked: seq<Win>, wins: seq<Win>, lines: seq<string>, terms: seq<string>, context: int)
  {
    && multiset(wins) == multiset(Windows(lines, terms, context, |lines|)) && Sorted(ByStart, wins)
    && multiset(ranked) == multiset(Merged(wins)) && Sorted(ByScore, ranked)
  }

  /** `kept` holds the picked windows in reading order. */
  ghost predicate Reading(kept: seq<Win>, ranked: seq<Win>, maxRanges: int, maxTotal: int)
  {
    multiset(kept) == multiset(Picked(ranked, maxRanges, maxTotal)) && Sorted(ByStart, kept)
  }

  predicate Emitted(out: seq<LineRange>, kept: seq<Win>)
  {
    |out| == |kept| && forall i | 0 <= i < |out| :: out[i] == LineRange(kept[i].start, kept[i].end)
  }

  method IntentSliceRanges(lines: seq<string>, terms: seq<string>, context: int, maxRanges: int, maxTotal: int)
    returns (out: seq<LineRange>)
    ensures exists wins: seq<Win>, ranked: seq<Win>, kept: seq<Win> ::
              && Ranked(ranked, wins, lines, terms, context) && Reading(kept, ranked, maxRanges, maxTotal)
              && Emitted(out, kept)
  {
    out := [];
    if terms == [] || lines == [] {
      NoHits(lines, terms, context, maxRanges, maxTotal);
      return;
    }
    var wins := BuildWindows(lines, terms, context);
    if wins == [] {
      NoWindows(lines, terms, context, maxRanges, maxTotal);
      return;
    }
    var sorted := Sort(ByStart, wins);
    var merged := MergeWindows(sorted);
    var ranked := Sort(ByScore, merged);
    var picked := PickWindows(ranked, maxRanges, maxTotal);
    var kept := Sort(ByStart, picked);
    hide *;
    RankedIs(ranked, sorted, merged, lines, terms, context);
    ReadingIs(kept, picked, ranked, maxRanges, maxTotal);
    out := Emit(kept);
  }

  lemma RankedIs(ranked: seq<Win>, sorted: seq<Win>, merged: seq<Win>, lines: seq<string>, terms: seq<string>,
                 context: int)
    requires multiset(sorted) == multiset(Windows(lines, terms, context, |lines|)) && Sorted(ByStart, sorted)
    requires merged == Merged(sorted) && multiset(ranked) == multiset(merged) && Sorted(ByScore, ranked)
    ensures Ranked(ranked, sorted, lines, terms, context)
  {
  }

  lemma ReadingIs(kept: seq<Win>, picked: seq<Win>, ranked: seq<Win>, maxRanges: int, maxTotal: int)
    requires picked == Picked(ranked, maxRanges, maxTotal) && multiset(kept) == multiset(picked) &&
             Sorted(ByStart, kept)
    ensures Reading(kept, ranked, maxRanges, maxTotal)
  {
  }

  method Emit(kept: seq<Win>) returns (out: seq<LineRange>)
    ensures Emitted(out, kept)
  {
    out := [];
    for i := 0 to |kept|
      invariant |out| == i && forall k | 0 <= k < i :: out[k] == LineRange(kept[k].start, kept[k].end)
    {
      out := out + [LineRange(kept[i].start, kept[i].end)];
    }
  }

  lemma {:induction false} NoTerms(lines: seq<string>, context: int, n: nat)
    requires n <= |lines|
    ensures Windows(lines, [], context, n) == []
  {
    if n > 0 {
      NoTerms(lines, context, n - 1);
    }
  }

  lemma NoWindows(lines: seq<string>, terms: seq<string>, context: int, maxRanges: int, maxTotal: int)
    requires Windows(lines, terms, context, |lines|) == []
    ensures Ranked([], [], lines, terms, context) && Reading([], [], maxRanges, maxTotal) && Emitted([], [])
  {
  }

  lemma NoHits(lines: seq<string>, terms: seq<string>, context: int, maxRanges: int, maxTotal: int)
    requires terms == [] || lines == []
    ensures Ranked([], [], lines, terms, context) && Reading([], [], maxRanges, maxTotal) && Emitted([], [])
  {
    if terms == [] {
      NoTerms(lines, context, |lines|);
    }
    NoWindows(lines, terms, context, maxRanges, maxTotal);
  }
}
