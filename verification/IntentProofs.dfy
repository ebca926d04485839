/** What an intent slice guarantees. */
module IntentProofs {
  import opened IntentSlice

  // ---- Counting terms -----------------------------------------------------------------------------------

  predicate Occurs(low: string, t: string)
  {
    T.Find(low, t, 0) != -1
  }

  function Distinct(terms: seq<string>, low: string): (s: set<string>)
  {
    set t | t in terms && Occurs(low, t)
  }

  predicate NoneTwice(terms: seq<string>, low: string)
  {
    forall i, j | 0 <= i < j < |terms| && terms[i] == terms[j] :: !Occurs(low, terms[i])
  }

  lemma {:induction false} HitsAreDistinct(terms: seq<string>, low: string, n: nat)
    requires n <= |terms|
    ensures Hits(terms, low, n) >= |Distinct(terms[..n], low)|
    ensures Hits(terms, low, n) == |Distinct(terms[..n], low)| <==> NoneTwice(terms[..n], low)
  {
    hide T.Find, Occurs, Distinct, NoneTwice;
    if n == 0 {
      NoTerm(low);
    } else {
      HitsAreDistinct(terms, low, n - 1);
      var t, front := terms[n - 1], terms[..n - 1];
      assert terms[..n] == front + [t];
      DistinctSnoc(front, t, low);
      HitsStep(terms, low, n);
      if t in Distinct(front, low) {
        Twice(front, t, low);
      } else {
        TwiceSnoc(front, t, low);
      }
    }
  }

  lemma NoTerm(low: string)
    ensures Distinct([], low) == {} && NoneTwice([], low)
  {
  }

  lemma HitsStep(terms: seq<string>, low: string, n: nat)
    requires 0 < n <= |terms|
    ensures Hits(terms, low, n) == Hits(terms, low, n - 1) + if Occurs(low, terms[n - 1]) then 1 else 0
  {
  }

  lemma DistinctSnoc(front: seq<string>, t: string, low: string)
    ensures Distinct(front + [t], low) == Distinct(front, low) + if Occurs(low, t) then {t} else {}
    ensures t in Distinct(front, low) ==> Occurs(low, t)
  {
    hide Occurs;
  }

  lemma Twice(front: seq<string>, t: string, low: string)
    requires t in Distinct(front, low)
    ensures !NoneTwice(front + [t], low)
  {
    hide Occurs;
    var all := front + [t];
    var i :| 0 <= i < |front| && front[i] == t;
    assert all[i] == all[|front|];
  }

  lemma TwiceSnoc(front: seq<string>, t: string, low: string)
    requires t !in Distinct(front, low)
    ensures NoneTwice(front + [t], low) <==> NoneTwice(front, low)
  {
    hide Occurs;
    var all := front + [t];
    if NoneTwice(all, low) {
      forall i, j | 0 <= i < j < |front| && front[i] == front[j] ensures !Occurs(low, front[i]) {
        assert all[i] == all[j];
      }
    }
  }

  /** The score of a line is the number of distinct terms in it exactly when no term that occurs
      in the line stands twice among the terms; otherwise it is greater. */
  lemma ScoreIsDistinct(terms: seq<string>, line: string)
    ensures var low := Lower(line);
            var distinct := set t | t in terms && T.Find(low, t, 0) != -1;
            && Score(terms, line) >= |distinct|
            && (Score(terms, line) == |distinct| <==>
                forall i, j | 0 <= i < j < |terms| && terms[i] == terms[j] :: T.Find(low, terms[i], 0) == -1)
  {
    hide T.Find;
    assert terms[..|terms|] == terms;
    var low := Lower(line);
    HitsAreDistinct(terms, low, |terms|);
    assert Distinct(terms, low) == set t | t in terms && T.Find(low, t, 0) != -1;
  }

  /** A word said twice counts twice. */
  lemma RepeatedTermCounts()
    ensures Score(["ab", "ab"], "ab") == 2 && |set t | t in ["ab", "ab"] && T.Find(Lower("ab"), t, 0) != -1| == 1
  {
    assert Lower("ab") == "ab" && T.OccursAt("ab", "ab", 0);
    var terms := ["ab", "ab"];
    assert Hits(terms, "ab", 0) == 0 && Hits(terms, "ab", 1) == 1;
    assert (set t | t in terms && T.Find(Lower("ab"), t, 0) != -1) == {"ab"};
  }

  // ---- Windows ------------------------------------------------------------------------------------

  predicate Inside(w: Win, n: int)
  {
    1 <= w.start <= w.end <= n
  }

  ghost predicate Covered(x: int, wins: seq<Win>)
  {
    exists w | w in wins :: w.start <= x <= w.end
  }

  /** Line `x`, counted from 1, is within `context` lines of a hit. */
  predicate NearHit(x: int, lines: seq<string>, terms: seq<string>, context: int)
  {
    && 1 <= x <= |lines|
    && exists i | 0 <= i < |lines| ::
         Score(terms, lines[i]) > 0 && i + 1 - context <= x <= i + 1 + context
  }

  lemma {:induction false} WindowsAreHits(lines: seq<string>, terms: seq<string>, context: int, n: nat, w: Win)
    requires n <= |lines|
    ensures w in Windows(lines, terms, context, n) <==>
            exists i | 0 <= i < n ::
              Score(terms, lines[i]) > 0 && w == Window(i, |lines|, context, Score(terms, lines[i]))
  {
    hide Score, Window;
    if n > 0 {
      WindowsAreHits(lines, terms, context, n - 1, w);
    }
  }

  /** With non-negative context the windows lie in the file and cover the lines near a hit. */
  lemma WindowsCover(lines: seq<string>, terms: seq<string>, context: int)
    requires context >= 0
    ensures var wins := Windows(lines, terms, context, |lines|);
            && AllInside(wins, |lines|)
            && (forall x :: Covered(x, wins) <==> NearHit(x, lines, terms, context))
  {
    hide Windows, Score;
    var wins := Windows(lines, terms, context, |lines|);
    forall w | w in wins ensures Inside(w, |lines|) {
      WindowsAreHits(lines, terms, context, |lines|, w);
    }
    forall x ensures Covered(x, wins) <==> NearHit(x, lines, terms, context) {
      if Covered(x, wins) {
        var w :| w in wins && w.start <= x <= w.end;
        WindowsAreHits(lines, terms, context, |lines|, w);
      }
      if NearHit(x, lines, terms, context) {
        var i :| 0 <= i < |lines| && Score(terms, lines[i]) > 0 && i + 1 - context <= x <= i + 1 + context;
        var w := Window(i, |lines|, context, Score(terms, lines[i]));
        WindowsAreHits(lines, terms, context, |lines|, w);
        assert w in wins;
      }
    }
  }

  // ---- Merging keeps what is covered ---------------------------------------------------------------

  /** Ranges in order with at least one line between them. */
  predicate Separated(wins: seq<Win>)
  {
    forall i, j | 0 <= i < j < |wins| :: wins[i].end + 1 < wins[j].start
  }

  predicate AllInside(wins: seq<Win>, n: int)
  {
    forall w | w in wins :: Inside(w, n)
  }

  lemma InsideParts(a: seq<Win>, w: Win, n: int)
    ensures AllInside(a + [w], n) <==> AllInside(a, n) && Inside(w, n)
  {
    assert w in a + [w];
    assert forall v | v in a :: v in a + [w];
  }

  lemma CoveredParts(x: int, a: seq<Win>, w: Win)
    ensures Covered(x, a + [w]) <==> Covered(x, a) || w.start <= x <= w.end
  {
    assert w in a + [w];
    assert forall v | v in a :: v in a + [w];
  }

  lemma SumParts(f: Win -> int, a: seq<Win>, w: Win)
    ensures Sum(f, a + [w]) == Sum(f, a) + f(w)
  {
    assert (a + [w])[..|a|] == a;
  }

  lemma SeparatedParts(a: seq<Win>, w: Win)
    ensures Separated(a + [w]) <==> Separated(a) && forall i | 0 <= i < |a| :: a[i].end + 1 < w.start
  {
    var r := a + [w];
    assert forall i | 0 <= i < |a| :: r[i] == a[i];
    assert r[|a|] == w;
    if Separated(r) {
      forall i | 0 <= i < |a| ensures a[i].end + 1 < w.start {
        assert r[i].end + 1 < r[|a|].start;
      }
      forall i, j | 0 <= i < j < |a| ensures a[i].end + 1 < a[j].start {
        assert r[i].end + 1 < r[j].start;
      }
    }
  }

  function ScoreOf(w: Win): int { w.score }

  lemma MergedStep(wins: seq<Win>, w: Win)
    ensures Merged(wins + [w]) ==
            var before := Merged(wins);
            if before != [] && w.start <= before[|before| - 1].end + 1 then
              before[..|before| - 1] + [Joined(before[|before| - 1], w)]
            else before + [w]
  {
    assert (wins + [w])[..|wins|] == wins;
  }

  predicate StartsBy(merged: seq<Win>, x: int)
  {
    merged != [] ==> merged[|merged| - 1].start <= x
  }

  /** Merging one more window: into the last range when they overlap or touch. */
  lemma JoinLast(a: seq<Win>, last: Win, w: Win, n: int, x: int)
    requires Separated(a + [last]) && AllInside(a + [last], n) && Inside(w, n)
    requires last.start <= w.start <= last.end + 1
    ensures var r := a + [Joined(last, w)];
            && Separated(r) && AllInside(r, n)
            && (Covered(x, r) <==> Covered(x, a + [last]) || w.start <= x <= w.end)
            && Sum(ScoreOf, r) == Sum(ScoreOf, a + [last]) + w.score
  {
    hide Separated, AllInside, Covered, Sum;
    SeparatedParts(a, last);
    SeparatedParts(a, Joined(last, w));
    InsideParts(a, last, n);
    InsideParts(a, Joined(last, w), n);
    CoveredParts(x, a, last);
    CoveredParts(x, a, Joined(last, w));
    SumParts(ScoreOf, a, last);
    SumParts(ScoreOf, a, Joined(last, w));
  }

  lemma AddLast(a: seq<Win>, w: Win, n: int, x: int)
    requires Separated(a) && AllInside(a, n) && Inside(w, n)
    requires a != [] ==> a[|a| - 1].end + 1 < w.start
    ensures var r := a + [w];
            && Separated(r) && AllInside(r, n)
            && (Covered(x, r) <==> Covered(x, a) || w.start <= x <= w.end)
            && Sum(ScoreOf, r) == Sum(ScoreOf, a) + w.score
  {
    SeparatedParts(a, w);
    InsideParts(a, w, n);
    CoveredParts(x, a, w);
    SumParts(ScoreOf, a, w);
    if a != [] {
      LastFarthest(a, n);
    }
  }

  lemma LastFarthest(a: seq<Win>, n: int)
    requires a != [] && Separated(a) && AllInside(a, n)
    ensures forall i | 0 <= i < |a| :: a[i].end <= a[|a| - 1].end
  {
    assert a[|a| - 1] in a;
  }

  ghost predicate MergedRight(m: seq<Win>, wins: seq<Win>, n: int, x: int)
  {
    && Separated(m) && AllInside(m, n)
    && (Covered(x, m) <==> Covered(x, wins))
    && Sum(ScoreOf, m) == Sum(ScoreOf, wins)
    && (wins != [] ==> StartsBy(m, wins[|wins| - 1].start))
    && (wins == [] <==> m == [])
  }

  lemma MergeMore(before: seq<Win>, w: Win, n: int, x: int)
    requires MergedRight(Merged(before), before, n, x) && Inside(w, n)
    requires before != [] ==> before[|before| - 1].start <= w.start
    ensures MergedRight(Merged(before + [w]), before + [w], n, x)
  {
    hide Separated, AllInside, Covered, Sum, Merged, StartsBy, Joined;
    CoveredParts(x, before, w);
    SumParts(ScoreOf, before, w);
    MergedStep(before, w);
    MergeLast(Merged(before), w, before, n, x);
  }

  /** Merging windows sorted by start keeps the set of covered lines and the total score, and leaves
      ranges in order, inside the file, with an uncovered line between any two. */
  lemma {:induction false} MergeKeeps(wins: seq<Win>, n: int, x: int)
    requires Sorted(ByStart, wins) && AllInside(wins, n)
    ensures MergedRight(Merged(wins), wins, n, x)
  {
    if wins != [] {
      hide *;
      var before, w := wins[..|wins| - 1], wins[|wins| - 1];
      SortedFront(wins);
      assert wins == before + [w];
      InsideParts(before, w, n);
      MergeKeeps(before, n, x);
      MergeMore(before, w, n, x);
    }
  }

  lemma SortedFront(wins: seq<Win>)
    requires Sorted(ByStart, wins) && wins != []
    ensures Sorted(ByStart, wins[..|wins| - 1])
    ensures |wins| > 1 ==> wins[..|wins| - 1][|wins| - 2].start <= wins[|wins| - 1].start
  {
    assert |wins| > 1 ==> !Before(ByStart, wins[|wins| - 1], wins[|wins| - 2]);
  }

  lemma MergeLast(m: seq<Win>, w: Win, before: seq<Win>, n: int, x: int)
    requires Separated(m) && AllInside(m, n) && Inside(w, n)
    requires before != [] ==> StartsBy(m, before[|before| - 1].start) && before[|before| - 1].start <= w.start
    requires before == [] <==> m == []
    ensures var r := if m != [] && w.start <= m[|m| - 1].end + 1 then m[..|m| - 1] + [Joined(m[|m| - 1], w)]
                     else m + [w];
            && r != [] && Separated(r) && AllInside(r, n) && StartsBy(r, w.start)
            && (Covered(x, r) <==> Covered(x, m) || w.start <= x <= w.end)
            && Sum(ScoreOf, r) == Sum(ScoreOf, m) + w.score
  {
    hide Separated, AllInside, Covered, Sum;
    if m != [] && w.start <= m[|m| - 1].end + 1 {
      assert m == m[..|m| - 1] + [m[|m| - 1]];
      JoinLast(m[..|m| - 1], m[|m| - 1], w, n, x);
    } else {
      AddLast(m, w, n, x);
    }
  }

  // ---- Permutations -----------------------------------------------------------------------------------

  lemma {:induction false} SumOfPermutation(f: Win -> int, a: seq<Win>, b: seq<Win>)
    requires multiset(a) == multiset(b)
    ensures Sum(f, a) == Sum(f, b)
    decreases |a|
  {
    hide *;
    SameMembers(a, b);
    if a != [] {
      var w := a[|a| - 1];
      assert w in a;
      var k :| 0 <= k < |b| && b[k] == w;
      var front, rest := a[..|a| - 1], b[..k] + b[k + 1..];
      assert a == front + [w];
      assert b == b[..k] + [w] + b[k + 1..];
      Without(a, front, w);
      WithoutMiddle(b, b[..k], w, b[k + 1..]);
      SumOfPermutation(f, front, rest);
      SumParts(f, front, w);
      SumMiddle(f, b[..k], w, b[k + 1..]);
    }
  }

  lemma Without(a: seq<Win>, front: seq<Win>, w: Win)
    requires a == front + [w]
    ensures multiset(front) == multiset(a) - multiset{w}
  {
  }

  lemma WithoutMiddle(b: seq<Win>, x: seq<Win>, w: Win, y: seq<Win>)
    requires b == x + [w] + y
    ensures multiset(x + y) == multiset(b) - multiset{w}
  {
  }

  lemma {:induction false} SumMiddle(f: Win -> int, a: seq<Win>, w: Win, b: seq<Win>)
    ensures Sum(f, a + [w] + b) == Sum(f, a + b) + f(w)
    decreases |b|
  {
    if b == [] {
      assert a + [w] + b == a + [w] && a + b == a;
      SumParts(f, a, w);
    } else {
      var front, last := b[..|b| - 1], b[|b| - 1];
      assert a + [w] + b == (a + [w] + front) + [last] && a + b == (a + front) + [last];
      SumParts(f, a + [w] + front, last);
      SumParts(f, a + front, last);
      SumMiddle(f, a, w, front);
    }
  }

  /** No window occurs twice. */
  ghost predicate Once(s: multiset<Win>)
  {
    forall w :: s[w] <= 1
  }

  lemma {:induction false} SeparatedOnce(wins: seq<Win>, n: int)
    requires Separated(wins) && AllInside(wins, n)
    ensures Once(multiset(wins))
  {
    if wins != [] {
      var a, w := wins[..|wins| - 1], wins[|wins| - 1];
      assert wins == a + [w];
      InsideParts(a, w, n);
      SeparatedOnce(a, n);
      forall v | v in a ensures v != w {
        assert Inside(v, n);
      }
    }
  }

  lemma OnceDistinct(wins: seq<Win>, i: nat, j: nat)
    requires Once(multiset(wins)) && i < j < |wins|
    ensures wins[i] != wins[j]
  {
    var a, b := wins[..j], wins[j..];
    assert wins == a + b;
    assert wins[i] == a[i] && a[i] in multiset(a);
    assert wins[j] == b[0] && b[0] in multiset(b);
    assert multiset(wins)[wins[j]] == multiset(a)[wins[j]] + multiset(b)[wins[j]];
  }

  // ---- Picking ------------------------------------------------------------------------------------------

  lemma PickedStep(ranked: seq<Win>, w: Win, maxRanges: int, maxTotal: int)
    ensures Picked(ranked + [w], maxRanges, maxTotal) ==
            var kept := Picked(ranked, maxRanges, maxTotal);
            if |kept| >= maxRanges || (kept != [] && Total(kept) + Length(w) > maxTotal) then kept else kept + [w]
  {
    assert (ranked + [w])[..|ranked|] == ranked;
  }

  predicate Positive(wins: seq<Win>)
  {
    forall w | w in wins :: w.start <= w.end
  }

  /** The picked windows: no more than allowed, within the line budget or the top window alone, the
      top window among them; and a window left out did not fit. */
  ghost predicate PickedRight(kept: seq<Win>, ranked: seq<Win>, maxRanges: int, maxTotal: int)
  {
    && |kept| <= Max(maxRanges, 0)
    && multiset(kept) <= multiset(ranked)
    && (ranked != [] ==> Total(kept) <= Max(maxTotal, Length(ranked[0])))
    && (ranked != [] && maxRanges >= 1 ==> kept != [] && kept[0] == ranked[0])
    && Total(kept) >= 0
    && (forall w | w in ranked && w !in kept :: |kept| >= maxRanges || Total(kept) + Length(w) > maxTotal)
  }

  lemma {:induction false} PickKeeps(ranked: seq<Win>, maxRanges: int, maxTotal: int)
    requires Positive(ranked)
    ensures PickedRight(Picked(ranked, maxRanges, maxTotal), ranked, maxRanges, maxTotal)
  {
    if ranked != [] {
      var front, w := ranked[..|ranked| - 1], ranked[|ranked| - 1];
      assert ranked == front + [w];
      assert w in ranked && forall v | v in front :: v in ranked;
      PickKeeps(front, maxRanges, maxTotal);
      PickedStep(front, w, maxRanges, maxTotal);
      PickMore(Picked(front, maxRanges, maxTotal), front, w, maxRanges, maxTotal);
    }
  }

  lemma PickMore(kept: seq<Win>, front: seq<Win>, w: Win, maxRanges: int, maxTotal: int)
    requires PickedRight(kept, front, maxRanges, maxTotal) && w.start <= w.end
    ensures var r := if |kept| >= maxRanges || (kept != [] && Total(kept) + Length(w) > maxTotal) then kept
                     else kept + [w];
            PickedRight(r, front + [w], maxRanges, maxTotal)
  {
    hide Sum, Total;
    TotalMore(kept, w);
    assert front != [] ==> (front + [w])[0] == front[0];
    assert kept != [] ==> (kept + [w])[0] == kept[0];
    assert w in kept + [w] && forall v | v in kept :: v in kept + [w];
    SubEmpty(kept, front);
  }

  lemma TotalMore(kept: seq<Win>, w: Win)
    ensures Total(kept + [w]) == Total(kept) + Length(w) && Total([]) == 0
  {
    SumParts(Length, kept, w);
  }

  lemma SubEmpty(kept: seq<Win>, front: seq<Win>)
    requires multiset(kept) <= multiset(front)
    ensures front == [] ==> kept == []
    ensures forall w | w in kept :: w in front
  {
    forall w | w in kept ensures w in front {
      assert multiset(kept)[w] > 0;
    }
    assert kept != [] ==> kept[0] in kept;
  }

  // ---- The slice ------------------------------------------------------------------------------------------

  predicate InOrder(out: seq<LineRange>, n: int)
  {
    && (forall i | 0 <= i < |out| :: 1 <= out[i].start <= out[i].end <= n)
    && forall i, j | 0 <= i < j < |out| :: out[i].end + 1 < out[j].start
  }

  /** The file's merged windows: inside the file, each once, two of them apart, all lines near a hit
      and no others, with the total score of the hits. */
  lemma RankedRight(ranked: seq<Win>, wins: seq<Win>, lines: seq<string>, terms: seq<string>, context: int)
    requires context >= 0 && Ranked(ranked, wins, lines, terms, context)
    ensures AllInside(ranked, |lines|) && Once(multiset(ranked))
    ensures forall v, w | v in ranked && w in ranked && v != w :: v.end + 1 < w.start || w.end + 1 < v.start
    ensures forall x :: Covered(x, ranked) <==> NearHit(x, lines, terms, context)
    ensures Sum(ScoreOf, ranked) == Sum(ScoreOf, Windows(lines, terms, context, |lines|))
  {
    hide *;
    var all, m := Windows(lines, terms, context, |lines|), Merged(wins);
    RankedParts(ranked, wins, lines, terms, context);
    WindowsCover(lines, terms, context);
    SameInside(wins, all, |lines|, 0);
    MergeKeeps(wins, |lines|, 0);
    MergedParts(m, wins, |lines|, 0);
    SameInside(ranked, m, |lines|, 0);
    SeparatedOnce(m, |lines|);
    SumOfPermutation(ScoreOf, wins, all);
    SumOfPermutation(ScoreOf, ranked, m);
    forall x ensures Covered(x, ranked) <==> NearHit(x, lines, terms, context) {
      MergeKeeps(wins, |lines|, x);
      MergedParts(m, wins, |lines|, x);
      SameInside(ranked, m, |lines|, x);
      SameInside(wins, all, |lines|, x);
    }
    forall v, w | v in ranked && w in ranked && v != w ensures v.end + 1 < w.start || w.end + 1 < v.start {
      SameMembers(ranked, m);
      SeparatedApart(m, v, w);
    }
  }

  lemma RankedParts(ranked: seq<Win>, wins: seq<Win>, lines: seq<string>, terms: seq<string>, context: int)
    requires Ranked(ranked, wins, lines, terms, context)
    ensures multiset(wins) == multiset(Windows(lines, terms, context, |lines|)) && Sorted(ByStart, wins)
    ensures multiset(ranked) == multiset(Merged(wins))
  {
    hide Windows, Merged, Sorted;
  }

  lemma MergedParts(m: seq<Win>, wins: seq<Win>, n: int, x: int)
    requires MergedRight(m, wins, n, x)
    ensures Separated(m) && AllInside(m, n) && (Covered(x, m) <==> Covered(x, wins))
    ensures Sum(ScoreOf, m) == Sum(ScoreOf, wins)
  {
    hide Separated, AllInside, Covered, Sum;
  }

  /** Windows with the same members lie in the file, and cover a line, alike. */
  lemma SameInside(a: seq<Win>, b: seq<Win>, n: int, x: int)
    requires multiset(a) == multiset(b)
    ensures AllInside(a, n) <==> AllInside(b, n)
    ensures Covered(x, a) <==> Covered(x, b)
  {
    SameMembers(a, b);
    hide Inside;
  }

  lemma SeparatedApart(m: seq<Win>, v: Win, w: Win)
    requires Separated(m) && v in m && w in m && v != w
    ensures v.end + 1 < w.start || w.end + 1 < v.start
  {
    var i, j :| 0 <= i < |m| && m[i] == v && 0 <= j < |m| && m[j] == w;
    assert i < j || j < i;
  }

  /** The lines of a range are near a hit, and the lines next to it are not. */
  ghost predicate WholeBlock(r: LineRange, lines: seq<string>, terms: seq<string>, context: int)
  {
    && (forall x | r.start <= x <= r.end :: NearHit(x, lines, terms, context))
    && !NearHit(r.start - 1, lines, terms, context) && !NearHit(r.end + 1, lines, terms, context)
  }

  lemma BlockOf(w: Win, ranked: seq<Win>, lines: seq<string>, terms: seq<string>, context: int)
    requires w in ranked && AllInside(ranked, |lines|)
    requires forall v, w | v in ranked && w in ranked && v != w :: v.end + 1 < w.start || w.end + 1 < v.start
    requires forall x :: Covered(x, ranked) <==> NearHit(x, lines, terms, context)
    ensures WholeBlock(LineRange(w.start, w.end), lines, terms, context)
  {
    hide NearHit;
    assert forall x | w.start <= x <= w.end :: Covered(x, ranked);
    assert Inside(w, |lines|);
    forall x | x == w.start - 1 || x == w.end + 1 ensures !Covered(x, ranked) {
      forall v | v in ranked ensures !(v.start <= x <= v.end) {
        assert Inside(v, |lines|);
      }
    }
  }

  function RangeLines(out: seq<LineRange>): (n: int)
  {
    if out == [] then 0 else RangeLines(out[..|out| - 1]) + (out[|out| - 1].end - out[|out| - 1].start + 1)
  }

  lemma {:induction false} EmittedTotal(out: seq<LineRange>, kept: seq<Win>)
    requires Emitted(out, kept)
    ensures RangeLines(out) == Total(kept)
  {
    if out != [] {
      EmittedTotal(out[..|out| - 1], kept[..|kept| - 1]);
    }
  }

  lemma KeptRight(kept: seq<Win>, ranked: seq<Win>, maxRanges: int, maxTotal: int)
    requires Reading(kept, ranked, maxRanges, maxTotal) && Once(multiset(ranked)) && Positive(ranked)
    ensures Once(multiset(kept)) && Total(kept) == Total(Picked(ranked, maxRanges, maxTotal))
    ensures |kept| == |Picked(ranked, maxRanges, maxTotal)|
    ensures forall w | w in kept :: w in ranked
    ensures forall w :: w in kept <==> w in Picked(ranked, maxRanges, maxTotal)
  {
    hide Picked, Sum;
    var picked := Picked(ranked, maxRanges, maxTotal);
    PickKeeps(ranked, maxRanges, maxTotal);
    SameMembers(kept, picked);
    SumOfPermutation(Length, kept, picked);
    SubEmpty(picked, ranked);
  }

  /** The slice of a file: with non-negative context, ranges in reading order inside the file with a
      line left out between any two, each a whole block of lines near hits; no more ranges than
      allowed, and no more lines than the budget or the best block; the best block among them; and
      every block left out would have exceeded the budget unless the ranges ran out. */
  lemma SliceRight(out: seq<LineRange>, kept: seq<Win>, ranked: seq<Win>, wins: seq<Win>, lines: seq<string>,
                   terms: seq<string>, context: int, maxRanges: int, maxTotal: int)
    requires context >= 0 && Ranked(ranked, wins, lines, terms, context)
    requires Reading(kept, ranked, maxRanges, maxTotal) && Emitted(out, kept)
    ensures InOrder(out, |lines|) && forall r | r in out :: WholeBlock(r, lines, terms, context)
    ensures |out| <= Max(maxRanges, 0)
    ensures ranked != [] ==> RangeLines(out) <= Max(maxTotal, Length(ranked[0]))
    ensures ranked != [] && maxRanges >= 1 ==> LineRange(ranked[0].start, ranked[0].end) in out
    ensures forall w | w in ranked && LineRange(w.start, w.end) !in out ::
              |out| >= maxRanges || RangeLines(out) + Length(w) > maxTotal
  {
    hide Windows, Merged, NearHit, Picked, WholeBlock, Sum;
    RankedRight(ranked, wins, lines, terms, context);
    PickKeeps(ranked, maxRanges, maxTotal);
    KeptRight(kept, ranked, maxRanges, maxTotal);
    EmittedTotal(out, kept);
    KeptInOrder(out, kept, ranked, |lines|);
    forall r | r in out ensures WholeBlock(r, lines, terms, context) {
      var i :| 0 <= i < |out| && out[i] == r;
      BlockOf(kept[i], ranked, lines, terms, context);
    }
    forall w | w in kept ensures LineRange(w.start, w.end) in out {
      var i :| 0 <= i < |kept| && kept[i] == w;
      assert out[i] == LineRange(w.start, w.end);
    }
  }

  lemma KeptInOrder(out: seq<LineRange>, kept: seq<Win>, ranked: seq<Win>, n: int)
    requires AllInside(ranked, n) && Once(multiset(kept)) && Sorted(ByStart, kept) && Emitted(out, kept)
    requires forall w | w in kept :: w in ranked
    requires forall v, w | v in ranked && w in ranked && v != w :: v.end + 1 < w.start || w.end + 1 < v.start
    ensures InOrder(out, n)
  {
    hide Once;
    forall i | 0 <= i < |kept| ensures Inside(kept[i], n) {
      assert kept[i] in kept;
    }
    forall i, j | 0 <= i < j < |out| ensures out[i].end + 1 < out[j].start {
      OnceDistinct(kept, i, j);
      assert kept[i] in kept && kept[j] in kept;
      assert !Before(ByStart, kept[j], kept[i]);
    }
  }

  /** The best block has the highest score, the earliest of those with it. */
  lemma BestBlock(ranked: seq<Win>, wins: seq<Win>, lines: seq<string>, terms: seq<string>, context: int, w: Win)
    requires Ranked(ranked, wins, lines, terms, context) && w in ranked
    ensures w.score < ranked[0].score || (w.score == ranked[0].score && ranked[0].start <= w.start)
  {
    var i :| 0 <= i < |ranked| && ranked[i] == w;
    assert i > 0 ==> !Before(ByScore, ranked[i], ranked[0]);
  }

  // ---- Which windows are preferred ---------------------------------------------------------------------------

  /** The windows marked. */
  function Marked(wins: seq<Win>, mask: seq<bool>): (kept: seq<Win>)
    requires |mask| == |wins|
  {
    if wins == [] then []
    else Marked(wins[..|wins| - 1], mask[..|wins| - 1]) + if mask[|wins| - 1] then [wins[|wins| - 1]] else []
  }

  /** There is room for `w` beside the windows kept so far. */
  predicate Room(kept: seq<Win>, w: Win, maxRanges: int, maxTotal: int)
  {
    |kept| < maxRanges && (kept == [] || Total(kept) + Length(w) <= maxTotal)
  }

  /** A window is marked exactly when there is room for it beside the better-ranked marked ones. */
  ghost predicate Preferred(ranked: seq<Win>, mask: seq<bool>, maxRanges: int, maxTotal: int)
  {
    && |mask| == |ranked|
    && forall i | 0 <= i < |ranked| :: mask[i] <==> Room(Marked(ranked[..i], mask[..i]), ranked[i], maxRanges, maxTotal)
  }

  lemma PreferredMore(ranked: seq<Win>, mask: seq<bool>, w: Win, b: bool, maxRanges: int, maxTotal: int)
    requires Preferred(ranked, mask, maxRanges, maxTotal)
    requires b <==> Room(Marked(ranked, mask), w, maxRanges, maxTotal)
    ensures Preferred(ranked + [w], mask + [b], maxRanges, maxTotal)
    ensures Marked(ranked + [w], mask + [b]) == Marked(ranked, mask) + if b then [w] else []
  {
    hide Room;
    var r, m := ranked + [w], mask + [b];
    assert r[..|ranked|] == ranked && m[..|mask|] == mask;
    forall i | 0 <= i < |r| ensures m[i] <==> Room(Marked(r[..i], m[..i]), r[i], maxRanges, maxTotal) {
      if i < |ranked| {
        assert r[..i] == ranked[..i] && m[..i] == mask[..i];
      }
    }
  }

  /** Windows are kept greedily, best first. */
  lemma {:induction false} PickPrefers(ranked: seq<Win>, maxRanges: int, maxTotal: int) returns (mask: seq<bool>)
    ensures Preferred(ranked, mask, maxRanges, maxTotal)
    ensures Picked(ranked, maxRanges, maxTotal) == Marked(ranked, mask)
  {
    if ranked == [] {
      mask := [];
    } else {
      var front, w := ranked[..|ranked| - 1], ranked[|ranked| - 1];
      assert ranked == front + [w];
      hide Preferred, Marked, Picked, Total;
      mask := PickPrefers(front, maxRanges, maxTotal);
      PreferredSize(front, mask, maxRanges, maxTotal);
      var b := Room(Marked(front, mask), w, maxRanges, maxTotal);
      PreferredMore(front, mask, w, b, maxRanges, maxTotal);
      PickedStep(front, w, maxRanges, maxTotal);
      mask := mask + [b];
    }
  }

  lemma PreferredSize(ranked: seq<Win>, mask: seq<bool>, maxRanges: int, maxTotal: int)
    requires Preferred(ranked, mask, maxRanges, maxTotal)
    ensures |mask| == |ranked|
  {
  }

  lemma {:induction false} MarkedHas(wins: seq<Win>, mask: seq<bool>, w: Win)
    requires |mask| == |wins|
    ensures w in Marked(wins, mask) <==> exists i :: 0 <= i < |wins| && wins[i] == w && mask[i]
  {
    if wins != [] {
      var n := |wins| - 1;
      MarkedHas(wins[..n], mask[..n], w);
      if i :| 0 <= i < n && wins[..n][i] == w && mask[..n][i] {
        assert wins[i] == w && mask[i];
      }
      if i :| 0 <= i < |wins| && wins[i] == w && mask[i] {
        assert i < n ==> wins[..n][i] == w && mask[..n][i];
      }
    }
  }

  /** In the slice of a file, going down from the best block, a block is in the slice exactly when
      the better blocks in it leave a range and enough lines, or there is none. */
  lemma SlicePrefers(out: seq<LineRange>, kept: seq<Win>, ranked: seq<Win>, wins: seq<Win>, lines: seq<string>,
                     terms: seq<string>, context: int, maxRanges: int, maxTotal: int)
    returns (mask: seq<bool>)
    requires context >= 0 && Ranked(ranked, wins, lines, terms, context)
    requires Reading(kept, ranked, maxRanges, maxTotal) && Emitted(out, kept)
    ensures Preferred(ranked, mask, maxRanges, maxTotal)
    ensures |mask| == |ranked|
    ensures forall i | 0 <= i < |ranked| :: mask[i] <==> LineRange(ranked[i].start, ranked[i].end) in out
  {
    hide *;
    RankedRight(ranked, wins, lines, terms, context);
    mask := PickPrefers(ranked, maxRanges, maxTotal);
    PreferredSize(ranked, mask, maxRanges, maxTotal);
    InsidePositive(ranked, |lines|);
    forall i | 0 <= i < |ranked| ensures mask[i] <==> LineRange(ranked[i].start, ranked[i].end) in out {
      var w := ranked[i];
      EmittedHas(out, kept, ranked, maxRanges, maxTotal, w, |lines|);
      MarkedHas(ranked, mask, w);
      if j :| 0 <= j < |ranked| && ranked[j] == w && mask[j] {
        if j < i { OnceDistinct(ranked, j, i); }
        if i < j { OnceDistinct(ranked, i, j); }
      }
    }
  }

  lemma InsidePositive(wins: seq<Win>, n: int)
    requires AllInside(wins, n)
    ensures Positive(wins)
  {
  }

  lemma EmittedHas(out: seq<LineRange>, kept: seq<Win>, ranked: seq<Win>, maxRanges: int, maxTotal: int, w: Win, n: int)
    requires Reading(kept, ranked, maxRanges, maxTotal) && Emitted(out, kept) && w in ranked && AllInside(ranked, n)
    requires forall v, w | v in ranked && w in ranked && v != w :: v.end + 1 < w.start || w.end + 1 < v.start
    requires Positive(ranked)
    ensures LineRange(w.start, w.end) in out <==> w in Picked(ranked, maxRanges, maxTotal)
  {
    hide Picked;
    var picked := Picked(ranked, maxRanges, maxTotal);
    PickKeeps(ranked, maxRanges, maxTotal);
    SubEmpty(picked, ranked);
    SameMembers(kept, picked);
    if LineRange(w.start, w.end) in out {
      var i :| 0 <= i < |out| && out[i] == LineRange(w.start, w.end);
      assert kept[i] in kept && kept[i].start == w.start;
    }
    if w in kept {
      var i :| 0 <= i < |kept| && kept[i] == w;
      assert out[i] == LineRange(w.start, w.end);
    }
  }

  /** Lower case leaves no capital letter and changes nothing else. */
  lemma LowerMeaning(s: string, i: nat)
    requires i < |s|
    ensures |Lower(s)| == |s|
    ensures Lower(s)[i] as int == if 65 <= s[i] as int <= 90 then s[i] as int + 32 else s[i] as int
  {
    assert Lower(s)[i] == LowerChar(s[i]);
  }
}
