/** Byte-pair merging of one piece of text. A byte is a character below 256. */
module BpeTokenizer {
  import opened Text

  type Ranks = map<string, int>

  /** Ranks are below this; the search starts from it. */
  const INT_MAX := 2147483647

  // ---- Greedy merging of a list of parts ---------------------------------------------------

  /** The rank of merging parts `i` and `i + 1`. */
  function RankAt(ranks: Ranks, parts: seq<string>, i: nat): (r: int)
    requires i + 1 < |parts|
  {
    var pair := parts[i] + parts[i + 1];
    if pair in ranks then ranks[pair] else INT_MAX
  }

  predicate Mergeable(ranks: Ranks, parts: seq<string>, i: nat)
    requires i + 1 < |parts|
  {
    RankAt(ranks, parts, i) < INT_MAX
  }

  /** Among the first `n` pairs, `b` has the lowest rank and is the leftmost such. */
  predicate BestOf(ranks: Ranks, parts: seq<string>, n: nat, b: nat)
    requires n < |parts|
  {
    && b < n && Mergeable(ranks, parts, b)
    && (forall i: nat | i < n :: RankAt(ranks, parts, b) <= RankAt(ranks, parts, i))
    && (forall i: nat | i < b :: RankAt(ranks, parts, b) < RankAt(ranks, parts, i))
  }

  /** The pair the scan picks among the first `n`, or -1. */
  function Pick(ranks: Ranks, parts: seq<string>, n: nat): (b: int)
    requires n < |parts|
    ensures b == -1 || (0 <= b < n && BestOf(ranks, parts, n, b))
    ensures b == -1 <==> forall i: nat | i < n :: RankAt(ranks, parts, i) >= INT_MAX
    decreases n
  {
    if n == 0 then -1
    else
      var b := Pick(ranks, parts, n - 1);
      var best := if b == -1 then INT_MAX else RankAt(ranks, parts, b);
      if RankAt(ranks, parts, n - 1) < best then n - 1 else b
  }

  function Merge(parts: seq<string>, b: nat): (r: seq<string>)
    requires b + 1 < |parts|
    ensures |r| == |parts| - 1
  {
    parts[..b] + [parts[b] + parts[b + 1]] + parts[b + 2..]
  }

  function Greedy(ranks: Ranks, parts: seq<string>): (r: seq<string>)
    decreases |parts|
  {
    if |parts| < 2 then parts
    else
      var b := Pick(ranks, parts, |parts| - 1);
      if b == -1 then parts else Greedy(ranks, Merge(parts, b))
  }

  function Singles(piece: string): (parts: seq<string>)
    ensures |parts| == |piece| && forall i | 0 <= i < |piece| :: parts[i] == piece[i..i + 1]
  {
    seq(|piece|, i requires 0 <= i < |piece| => piece[i..i + 1])
  }

  // ---- The merge loop over part boundaries ---------------------------------------------------

  predicate Boundaries(starts: seq<nat>, n: nat)
  {
    && |starts| >= 2 && starts[0] == 0 && starts[|starts| - 1] == n
    && forall i, j | 0 <= i < j < |starts| :: starts[i] < starts[j]
  }

  function Slice(piece: string, a: nat, b: nat): (s: string)
  {
    if a <= b <= |piece| then piece[a..b] else ""
  }

  function Parts(piece: string, starts: seq<nat>): (parts: seq<string>)
    requires |starts| >= 2
    ensures |parts| == |starts| - 1
    ensures forall i {:trigger parts[i]} | 0 <= i < |parts| :: parts[i] == Slice(piece, starts[i], starts[i + 1])
  {
    seq(|starts| - 1, i requires 0 <= i < |starts| - 1 => Slice(piece, starts[i], starts[i + 1]))
  }

  function Erased(starts: seq<nat>, k: nat): (r: seq<nat>)
    requires k < |starts|
  {
    starts[..k] + starts[k + 1..]
  }

  lemma ErasedIs(starts: seq<nat>, k: nat, n: nat)
    requires Boundaries(starts, n) && 0 < k < |starts| - 1
    ensures |Erased(starts, k)| == |starts| - 1 && Boundaries(Erased(starts, k), n)
  {
  }

  lemma ErasedAt(starts: seq<nat>, k: nat, i: nat)
    requires k < |starts| && i < |starts| - 1
    ensures |Erased(starts, k)| == |starts| - 1
    ensures Erased(starts, k)[i] == if i < k then starts[i] else starts[i + 1]
  {
  }

  /** Erasing the boundary between two parts merges them. */
  lemma EraseMerges(piece: string, starts: seq<nat>, b: nat)
    requires Boundaries(starts, |piece|) && b + 2 < |starts|
    ensures Boundaries(Erased(starts, b + 1), |piece|)
    ensures Parts(piece, Erased(starts, b + 1)) == Merge(Parts(piece, starts), b)
  {
    hide *;
    ErasedIs(starts, b + 1, |piece|);
    PairText(piece, starts, b);
    var e, p := Erased(starts, b + 1), Parts(piece, starts);
    var q, m := Parts(piece, e), Merge(p, b);
    forall i | 0 <= i < |q| ensures q[i] == m[i] {
      MergeAt(p, b, i);
      ErasedAt(starts, b + 1, i);
      ErasedAt(starts, b + 1, i + 1);
      assert q[i] == Slice(piece, e[i], e[i + 1]);
      if i != b {
        var k := if i < b then i else i + 1;
        assert p[k] == Slice(piece, starts[k], starts[k + 1]);
      }
    }
  }

  lemma MergeAt(parts: seq<string>, b: nat, i: nat)
    requires b + 1 < |parts| && i < |parts| - 1
    ensures Merge(parts, b)[i] == if i < b then parts[i] else if i > b then parts[i + 1] else parts[b] + parts[b + 1]
  {
  }

  /** The text of a pair is the two parts' text. */
  lemma PairText(piece: string, starts: seq<nat>, i: nat)
    requires Boundaries(starts, |piece|) && i + 2 < |starts|
    ensures starts[i] < starts[i + 1] < starts[i + 2] <= |piece|
    ensures piece[starts[i]..starts[i + 2]] == Parts(piece, starts)[i] + Parts(piece, starts)[i + 1]
    ensures Slice(piece, starts[i], starts[i + 2]) == Parts(piece, starts)[i] + Parts(piece, starts)[i + 1]
  {
    assert starts[i] < starts[i + 1] < starts[i + 2] <= starts[|starts| - 1];
    var x, y := Parts(piece, starts)[i], Parts(piece, starts)[i + 1];
    hide *;
    Adjoin(piece, starts[i], starts[i + 1], starts[i + 2]);
    SliceIs(piece, starts[i], starts[i + 1]);
    SliceIs(piece, starts[i + 1], starts[i + 2]);
    SliceIs(piece, starts[i], starts[i + 2]);
  }

  lemma SliceIs(piece: string, a: nat, b: nat)
    requires a <= b <= |piece|
    ensures Slice(piece, a, b) == piece[a..b]
  {
  }

  lemma Adjoin(piece: string, a: nat, b: nat, c: nat)
    requires a <= b <= c <= |piece|
    ensures piece[a..c] == piece[a..b] + piece[b..c]
  {
  }

  /** One turn of the scan. */
  lemma PickTurn(ranks: Ranks, parts: seq<string>, i: nat, best: nat, bestRank: int, none: nat)
    requires i + 1 < |parts| < none
    requires var b := Pick(ranks, parts, i);
             && best == (if b == -1 then none else b)
             && bestRank == (if b == -1 then INT_MAX else RankAt(ranks, parts, b))
    ensures var pair := parts[i] + parts[i + 1];
            var better := pair in ranks && ranks[pair] < bestRank;
            var b := Pick(ranks, parts, i + 1);
            && (if better then i else best) == (if b == -1 then none else b)
            && (if better then ranks[pair] else bestRank) == (if b == -1 then INT_MAX else RankAt(ranks, parts, b))
  {
    hide BestOf;
    assert bestRank <= INT_MAX by {
      PickBelow(ranks, parts, i);
    }
  }

  lemma PickNone(ranks: Ranks, parts: seq<string>)
    requires parts != []
    ensures Pick(ranks, parts, 0) == -1
  {
  }

  lemma BoundariesLong(starts: seq<nat>, n: nat)
    requires Boundaries(starts, n)
    ensures |starts| >= 2
  {
  }

  lemma PickBelow(ranks: Ranks, parts: seq<string>, n: nat)
    requires n < |parts|
    ensures Pick(ranks, parts, n) != -1 ==> RankAt(ranks, parts, Pick(ranks, parts, n)) < INT_MAX
  {
  }

  /** One scan over the adjacent pairs: the index of the best, or `|starts|` for none. */
  method ScanPairs(ranks: Ranks, piece: string, starts: seq<nat>) returns (best: nat)
    requires Boundaries(starts, |piece|)
    ensures var b := Pick(ranks, Parts(piece, starts), |starts| - 2);
            best == if b == -1 then |starts| else b
  {
    hide *;
    BoundariesLong(starts, |piece|);
    var bestRank := INT_MAX;
    best := |starts|;
    var i := 0;
    ghost var parts := Parts(piece, starts);
    PickNone(ranks, parts);
    while i + 2 < |starts|
      invariant i <= |starts| - 2
      invariant var b := Pick(ranks, parts, i);
                && best == (if b == -1 then |starts| else b)
                && bestRank == (if b == -1 then INT_MAX else RankAt(ranks, parts, b))
    {
      PairText(piece, starts, i);
      PickTurn(ranks, parts, i, best, bestRank, |starts|);
      var pair := piece[starts[i]..starts[i + 2]];
      if pair in ranks && ranks[pair] < bestRank {
        bestRank := ranks[pair];
        best := i;
      }
      i := i + 1;
    }
  }

  method MergeCount(ranks: Ranks, piece: string) returns (count: nat)
    ensures count == |Greedy(ranks, Singles(piece))|
  {
    var n := |piece|;
    if n == 0 { return 0; }
    if n == 1 { return 1; }
    var starts: seq<nat> := seq(n + 1, (i: nat) => i);
    assert Parts(piece, starts) == Singles(piece);
    while |starts| > 2
      invariant Boundaries(starts, n)
      invariant Greedy(ranks, Parts(piece, starts)) == Greedy(ranks, Singles(piece))
      decreases |starts|
    {
      var best := ScanPairs(ranks, piece, starts);
      if best == |starts| { break; }
      EraseMerges(piece, starts, best);
      starts := Erased(starts, best + 1);
    }
    count := |starts| - 1;
  }

  // ---- What the merge loop leaves ---------------------------------------------------------------

  lemma MergeKeepsText(parts: seq<string>, b: nat)
    requires b + 1 < |parts|
    ensures Concat(Merge(parts, b)) == Concat(parts)
  {
    hide *;
    var x, y, pre, post := parts[b], parts[b + 1], parts[..b], parts[b + 2..];
    MergeIs(parts, b);
    ConcatTwo(x, y, post);
    ConcatAppend(pre, [x, y] + post);
    ConcatAppend(pre, [x + y] + post);
  }

  lemma MergeIs(parts: seq<string>, b: nat)
    requires b + 1 < |parts|
    ensures parts == parts[..b] + ([parts[b], parts[b + 1]] + parts[b + 2..])
    ensures Merge(parts, b) == parts[..b] + ([parts[b] + parts[b + 1]] + parts[b + 2..])
  {
  }

  lemma ConcatTwo(x: string, y: string, post: seq<string>)
    ensures Concat([x, y] + post) == Concat([x + y] + post)
  {
    assert ([x, y] + post)[1..] == [y] + post && ([y] + post)[1..] == post;
    assert ([x + y] + post)[1..] == post;
    assert Concat([x, y] + post) == x + (y + Concat(post));
  }

  /** The lowest-rank, leftmost pair is unique, so this step defines the greedy merge
      without the scan. */
  lemma GreedyStep(ranks: Ranks, parts: seq<string>, b: nat)
    requires |parts| >= 2 && BestOf(ranks, parts, |parts| - 1, b)
    ensures Greedy(ranks, parts) == Greedy(ranks, Merge(parts, b))
  {
    var p := Pick(ranks, parts, |parts| - 1);
    assert Mergeable(ranks, parts, b);
    assert p == b;
  }

  /** The greedy merge keeps the text; every part it leaves was there before or is in the rank
      table below the limit; no adjacent pair is mergeable any more. */
  lemma {:induction false} GreedyResult(ranks: Ranks, parts: seq<string>)
    ensures var r := Greedy(ranks, parts);
            && Concat(r) == Concat(parts)
            && |r| <= |parts| && (parts != [] ==> r != [])
            && (forall p | p in r :: p in parts || p in ranks)
            && (forall i: nat | i + 1 < |r| :: !Mergeable(ranks, r, i))
    decreases |parts|
  {
    hide *;
    if |parts| < 2 {
      GreedyStops(ranks, parts);
    } else {
      var b := Pick(ranks, parts, |parts| - 1);
      if b == -1 {
        GreedyStops(ranks, parts);
      } else {
        var m := Merge(parts, b);
        BestMergeable(ranks, parts, b);
        GreedyStep(ranks, parts, b);
        MergeKeepsText(parts, b);
        GreedyResult(ranks, m);
        forall p | p in Greedy(ranks, m) ensures p in parts || p in ranks {
          MergeMembers(parts, b, p);
        }
      }
    }
  }

  lemma GreedyStops(ranks: Ranks, parts: seq<string>)
    requires |parts| < 2 || Pick(ranks, parts, |parts| - 1) == -1
    ensures Greedy(ranks, parts) == parts
    ensures forall i: nat | i + 1 < |parts| :: !Mergeable(ranks, parts, i)
  {
  }

  lemma BestMergeable(ranks: Ranks, parts: seq<string>, b: nat)
    requires |parts| >= 2 && BestOf(ranks, parts, |parts| - 1, b)
    ensures b + 1 < |parts| && parts[b] + parts[b + 1] in ranks
  {
    assert Mergeable(ranks, parts, b);
  }

  lemma MergeMembers(parts: seq<string>, b: nat, p: string)
    requires b + 1 < |parts|
    ensures p in Merge(parts, b) ==> p in parts || p == parts[b] + parts[b + 1]
  {
  }

  lemma {:induction false} SinglesText(piece: string)
    ensures Concat(Singles(piece)) == piece
  {
    if piece != "" {
      SinglesText(piece[1..]);
      var a, b := Singles(piece)[1..], Singles(piece[1..]);
      forall i | 0 <= i < |a| ensures a[i] == b[i] {
        assert piece[1..][i..i + 1] == piece[i + 1..i + 2];
      }
      assert a == b;
    }
  }

  /** For one piece: the parts concatenate to it, each longer than one byte is a rank-table key,
      none can be merged, and there are between 1 and the piece's length of them. */
  lemma MergeOfPiece(ranks: Ranks, piece: string)
    ensures var r := Greedy(ranks, Singles(piece));
            && Concat(r) == piece
            && (forall p | p in r :: |p| == 1 || p in ranks)
            && (forall i: nat | i + 1 < |r| :: !Mergeable(ranks, r, i))
            && |r| <= |piece| && (piece != "" ==> |r| >= 1)
  {
    SinglesText(piece);
    GreedyResult(ranks, Singles(piece));
  }

  // ---- Which pair merges first --------------------------------------------------------------------

  /** The pair with the lowest rank, the leftmost of several, merges next; with no ranked pair the parts
      stay. */
  lemma MergesBest(ranks: Ranks, parts: seq<string>, b: nat)
    ensures (forall i | 0 <= i < |parts| - 1 && parts[i] + parts[i + 1] in ranks ::
               ranks[parts[i] + parts[i + 1]] >= 2147483647) ==> Greedy(ranks, parts) == parts
    ensures b + 1 < |parts| && parts[b] + parts[b + 1] in ranks && ranks[parts[b] + parts[b + 1]] < 2147483647
            && (forall i | 0 <= i < |parts| - 1 && parts[i] + parts[i + 1] in ranks ::
                  && ranks[parts[b] + parts[b + 1]] <= ranks[parts[i] + parts[i + 1]]
                  && (i < b ==> ranks[parts[b] + parts[b + 1]] < ranks[parts[i] + parts[i + 1]])) ==>
              Greedy(ranks, parts) == Greedy(ranks, parts[..b] + [parts[b] + parts[b + 1]] + parts[b + 2..])
  {
    var n := |parts| - 1;
    if n >= 1 && forall i | 0 <= i < n && parts[i] + parts[i + 1] in ranks ::
         ranks[parts[i] + parts[i + 1]] >= 2147483647
    {
      assert forall i: nat | i < n :: RankAt(ranks, parts, i) >= INT_MAX;
      assert Pick(ranks, parts, n) == -1;
    }
    if && b + 1 < |parts| && parts[b] + parts[b + 1] in ranks && ranks[parts[b] + parts[b + 1]] < 2147483647
       && (forall i | 0 <= i < n && parts[i] + parts[i + 1] in ranks ::
             && ranks[parts[b] + parts[b + 1]] <= ranks[parts[i] + parts[i + 1]]
             && (i < b ==> ranks[parts[b] + parts[b + 1]] < ranks[parts[i] + parts[i + 1]]))
    {
      forall i: nat | i < n
        ensures RankAt(ranks, parts, b) <= RankAt(ranks, parts, i)
        ensures i < b ==> RankAt(ranks, parts, b) < RankAt(ranks, parts, i)
      {
      }
      assert BestOf(ranks, parts, n, b);
      GreedyStep(ranks, parts, b);
    }
  }
}
