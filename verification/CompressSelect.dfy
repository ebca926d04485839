/** Keeping the highest-scored spans of a text within a character budget. */
module CompressSelect {

  // ---- Ranking ------------------------------------------------------------------------------

  function ScoreAt(scores: seq<real>, i: nat): real
  {
    if i < |scores| then scores[i] else 0.0
  }

  /** `a` ranks before `b`: a higher score, or the same score and an earlier place. */
  predicate Ahead(scores: seq<real>, a: nat, b: nat)
  {
    ScoreAt(scores, a) > ScoreAt(scores, b) || (ScoreAt(scores, a) == ScoreAt(scores, b) && a < b)
  }

  /** Put `i` after everything that scores at least as much. */
  function Insert(scores: seq<real>, order: seq<nat>, i: nat): (r: seq<nat>)
    ensures |r| == |order| + 1
  {
    if order == [] then [i]
    else if ScoreAt(scores, order[0]) >= ScoreAt(scores, i) then [order[0]] + Insert(scores, order[1..], i)
    else [i] + order
  }

  /** The stable descending sort of the indices below `n`. */
  function Rank(scores: seq<real>, n: nat): (order: seq<nat>)
    ensures |order| == n
  {
    if n == 0 then [] else Insert(scores, Rank(scores, n - 1), n - 1)
  }

  ghost predicate IsRank(scores: seq<real>, order: seq<nat>, n: nat)
  {
    && |order| == n
    && (forall p | 0 <= p < n :: order[p] < n)
    && (forall p, q | 0 <= p < q < n :: Ahead(scores, order[p], order[q]))
    && (forall i: nat | i < n :: i in order)
  }

  lemma {:induction false} InsertPlace(scores: seq<real>, order: seq<nat>, i: nat) returns (k: nat)
    requires forall p | 0 <= p < |order| :: order[p] < i
    requires forall p, q | 0 <= p < q < |order| :: Ahead(scores, order[p], order[q])
    ensures k <= |order| && Insert(scores, order, i) == order[..k] + [i] + order[k..]
    ensures forall p | 0 <= p < k :: Ahead(scores, order[p], i)
    ensures forall p | k <= p < |order| :: Ahead(scores, i, order[p])
  {
    if order == [] || ScoreAt(scores, order[0]) < ScoreAt(scores, i) {
      k := 0;
      assert forall p | 0 < p < |order| :: Ahead(scores, order[0], order[p]);
    } else {
      var rest := order[1..];
      k := InsertPlace(scores, rest, i);
      assert forall p | 0 < p < |order| :: order[p] == rest[p - 1];
      assert [order[0]] + (rest[..k] + [i] + rest[k..]) == order[..k + 1] + [i] + order[k + 1..];
      k := k + 1;
    }
  }

  lemma {:induction false} RankMeaning(scores: seq<real>, n: nat)
    ensures IsRank(scores, Rank(scores, n), n)
  {
    if n > 0 {
      RankMeaning(scores, n - 1);
      var before := Rank(scores, n - 1);
      var k := InsertPlace(scores, before, n - 1);
      Inserted(scores, before, n - 1, k);
    }
  }

  lemma Inserted(scores: seq<real>, before: seq<nat>, i: nat, k: nat)
    requires IsRank(scores, before, i) && k <= i
    requires forall p | 0 <= p < k :: Ahead(scores, before[p], i)
    requires forall p | k <= p < i :: Ahead(scores, i, before[p])
    ensures IsRank(scores, before[..k] + [i] + before[k..], i + 1)
  {
    hide Ahead;
    var r := before[..k] + [i] + before[k..];
    assert forall p | 0 <= p < |r| :: r[p] == if p < k then before[p] else if p == k then i else before[p - 1];
    forall j: nat | j < i + 1 ensures j in r {
      if j == i {
        assert r[k] == i;
      } else {
        assert j in before;
        var p :| 0 <= p < i && before[p] == j;
        assert r[if p < k then p else p + 1] == j;
      }
    }
  }

  method StableSort(scores: seq<real>, n: nat) returns (order: seq<nat>)
    ensures order == Rank(scores, n)
  {
    order := [];
    for i := 0 to n
      invariant order == Rank(scores, i)
    {
      order := Insert(scores, order, i);
    }
  }

  // ---- Selecting -----------------------------------------------------------------------------

  datatype Selection = Selection(keep: seq<bool>, used: nat)

  function None(n: nat): (keep: seq<bool>)
    ensures |keep| == n && forall i | 0 <= i < n :: !keep[i]
  {
    seq(n, i => false)
  }

  /** The selection after the first `rank` spans in rank order. */
  function Select(spans: seq<string>, order: seq<nat>, sep: nat, budget: nat, rank: nat): (s: Selection)
    requires |order| == |spans| && rank <= |spans| && forall p | 0 <= p < |order| :: order[p] < |spans|
    ensures |s.keep| == |spans|
  {
    if rank == 0 then Selection(None(|spans|), 0)
    else
      var s, i := Select(spans, order, sep, budget, rank - 1), order[rank - 1];
      var add := |spans[i]| + if s.used > 0 then sep else 0;
      if rank == 1 || s.used + add <= budget then Selection(s.keep[i := true], s.used + add) else s
  }

  method SelectMaskByBudget(spans: seq<string>, scores: seq<real>, budget: nat, sep: string) returns (keep: seq<bool>)
    ensures |keep| == |spans|
    ensures IsRank(scores, Rank(scores, |spans|), |spans|)
    ensures keep == Select(spans, Rank(scores, |spans|), |sep|, budget, |spans|).keep
  {
    var n := |spans|;
    RankMeaning(scores, n);
    keep := None(n);
    if n == 0 { return; }
    var order := StableSort(scores, n);
    var used: nat := 0;
    for rank := 0 to n
      invariant Selection(keep, used) == Select(spans, order, |sep|, budget, rank)
    {
      var i := order[rank];
      var add := |spans[i]| + if used > 0 then |sep| else 0;
      if rank == 0 {
        keep := keep[i := true];
        used := used + |spans[i]|;
      } else if used + add <= budget {
        keep := keep[i := true];
        used := used + add;
      }
    }
  }

  /** The first `n` spans that are kept, joined; the separator goes before a span when something
      has been written. */
  function Join(spans: seq<string>, keep: seq<bool>, sep: string, n: nat): (out: string)
    requires n <= |spans| && n <= |keep|
  {
    if n == 0 then ""
    else
      var out := Join(spans, keep, sep, n - 1);
      if !keep[n - 1] then out
      else if out == "" then spans[n - 1]
      else out + sep + spans[n - 1]
  }

  method JoinKept(spans: seq<string>, keep: seq<bool>, sep: string) returns (out: string)
    ensures out == Join(spans, keep, sep, if |spans| < |keep| then |spans| else |keep|)
  {
    out := "";
    var i := 0;
    while i < |spans| && i < |keep|
      invariant i <= |spans| && i <= |keep| && out == Join(spans, keep, sep, i)
    {
      if keep[i] {
        if out != "" { out := out + sep; }
        out := out + spans[i];
      }
      i := i + 1;
    }
  }

  method SelectByBudget(spans: seq<string>, scores: seq<real>, budget: nat, sep: string) returns (out: string)
    ensures IsRank(scores, Rank(scores, |spans|), |spans|)
    ensures out == Selected(spans, scores, budget, sep)
  {
    var keep := SelectMaskByBudget(spans, scores, budget, sep);
    out := JoinKept(spans, keep, sep);
  }

  function Selected(spans: seq<string>, scores: seq<real>, budget: nat, sep: string): (out: string)
  {
    RankMeaning(scores, |spans|);
    Join(spans, Select(spans, Rank(scores, |spans|), |sep|, budget, |spans|).keep, sep, |spans|)
  }

  // ---- The budget --------------------------------------------------------------------------------

  function Max(a: nat, b: nat): nat { if a < b then b else a }

  lemma {:induction false} UsedBound(spans: seq<string>, order: seq<nat>, sep: nat, budget: nat, rank: nat)
    requires |order| == |spans| && 0 < rank <= |spans| && forall p | 0 <= p < |order| :: order[p] < |spans|
    ensures Select(spans, order, sep, budget, rank).used <= Max(budget, |spans[order[0]]|)
    ensures Select(spans, order, sep, budget, rank).keep[order[0]]
  {
    if rank > 1 {
      UsedBound(spans, order, sep, budget, rank - 1);
    } else {
      assert Select(spans, order, sep, budget, 0) == Selection(None(|spans|), 0);
    }
  }

  /** No empty span comes after a span that is not empty, or the separator is empty. */
  predicate EmptiesFirst(spans: seq<string>, sep: string)
  {
    sep == "" || forall i, j | 0 <= i < j < |spans| && spans[j] == "" :: spans[i] == ""
  }

  lemma {:induction false} NothingWritten(spans: seq<string>, keep: seq<bool>, sep: string, n: nat)
    requires n <= |spans| && n <= |keep| && forall i | 0 <= i < n :: spans[i] == ""
    ensures Join(spans, keep, sep, n) == ""
  {
    if n > 0 {
      NothingWritten(spans, keep, sep, n - 1);
    }
  }

  function JoinLength(spans: seq<string>, keep: seq<bool>, sep: string, n: nat): (l: nat)
    requires n <= |spans| && n <= |keep|
  {
    |Join(spans, keep, sep, n)|
  }

  lemma JoinLengthStep(spans: seq<string>, keep: seq<bool>, sep: string, n: nat)
    requires 0 < n <= |spans| && n <= |keep|
    ensures var l := JoinLength(spans, keep, sep, n - 1);
            JoinLength(spans, keep, sep, n) ==
            if !keep[n - 1] then l else l + |spans[n - 1]| + if l > 0 then |sep| else 0
  {
  }

  lemma {:induction false} JoinSame(spans: seq<string>, keep: seq<bool>, keep': seq<bool>, sep: string, n: nat)
    requires n <= |spans| && n <= |keep| && n <= |keep'| && keep[..n] == keep'[..n]
    ensures Join(spans, keep, sep, n) == Join(spans, keep', sep, n)
  {
    if n > 0 {
      assert keep[n - 1] == keep[..n][n - 1] && keep'[n - 1] == keep'[..n][n - 1];
      assert keep[..n - 1] == keep[..n][..n - 1] && keep'[..n - 1] == keep'[..n][..n - 1];
      JoinSame(spans, keep, keep', sep, n - 1);
    }
  }

  /** Keeping one more span makes the joined text longer by the span and, if there is other text, a
      separator; an empty span adds nothing. */
  lemma {:induction false} JoinOneMore(spans: seq<string>, keep: seq<bool>, sep: string, n: nat, i: nat)
    requires i < n <= |spans| && n <= |keep| && !keep[i] && EmptiesFirst(spans, sep)
    ensures var l := JoinLength(spans, keep, sep, n);
            JoinLength(spans, keep[i := true], sep, n) ==
            if spans[i] == "" then l else l + |spans[i]| + if l > 0 then |sep| else 0
  {
    var keep' := keep[i := true];
    JoinLengthStep(spans, keep, sep, n);
    JoinLengthStep(spans, keep', sep, n);
    hide JoinLength;
    if i == n - 1 {
      JoinSame(spans, keep, keep', sep, n - 1);
      JoinLengthSame(spans, keep, keep', sep, n - 1);
      if spans[i] == "" && sep != "" {
        NothingWritten(spans, keep, sep, n - 1);
        NoLength(spans, keep, sep, n - 1);
      }
    } else {
      JoinOneMore(spans, keep, sep, n - 1, i);
    }
  }

  lemma JoinLengthSame(spans: seq<string>, keep: seq<bool>, keep': seq<bool>, sep: string, n: nat)
    requires n <= |spans| && n <= |keep| && n <= |keep'|
    requires Join(spans, keep, sep, n) == Join(spans, keep', sep, n)
    ensures JoinLength(spans, keep, sep, n) == JoinLength(spans, keep', sep, n)
  {
  }

  lemma NoLength(spans: seq<string>, keep: seq<bool>, sep: string, n: nat)
    requires n <= |spans| && n <= |keep| && Join(spans, keep, sep, n) == ""
    ensures JoinLength(spans, keep, sep, n) == 0
  {
  }

  lemma {:induction false} NoneJoined(spans: seq<string>, sep: string, n: nat)
    requires n <= |spans|
    ensures JoinLength(spans, None(|spans|), sep, n) == 0
  {
    if n > 0 {
      NoneJoined(spans, sep, n - 1);
    }
  }

  /** Spans later in rank order are not kept yet. */
  lemma {:induction false} NotYet(spans: seq<string>, order: seq<nat>, sep: nat, budget: nat, rank: nat, p: nat)
    requires |order| == |spans| && rank <= p < |spans| && forall p | 0 <= p < |order| :: order[p] < |spans|
    requires forall p, q | 0 <= p < q < |order| :: order[p] != order[q]
    ensures !Select(spans, order, sep, budget, rank).keep[order[p]]
  {
    if rank > 0 {
      NotYet(spans, order, sep, budget, rank - 1, p);
    }
  }

  predicate AllWritten(spans: seq<string>)
  {
    forall i | 0 <= i < |spans| :: spans[i] != ""
  }

  predicate Distinct(order: seq<nat>, n: nat)
  {
    && |order| == n && (forall p | 0 <= p < n :: order[p] < n)
    && forall p, q | 0 <= p < q < n :: order[p] != order[q]
  }

  /** The characters counted while selecting cover the joined text, and are exactly its length when
      no span is empty. */
  lemma {:induction false} UsedCovers(spans: seq<string>, order: seq<nat>, sep: string, budget: nat, rank: nat)
    requires Distinct(order, |spans|) && rank <= |spans| && EmptiesFirst(spans, sep)
    ensures var s := Select(spans, order, |sep|, budget, rank);
            var l := JoinLength(spans, s.keep, sep, |spans|);
            && l <= s.used && (l > 0 <==> s.used > 0)
            && (AllWritten(spans) ==> l == s.used)
  {
    hide JoinLength, EmptiesFirst;
    if rank == 0 {
      NoneJoined(spans, sep, |spans|);
    } else {
      UsedCovers(spans, order, sep, budget, rank - 1);
      NotYet(spans, order, |sep|, budget, rank - 1, rank - 1);
      var s := Select(spans, order, |sep|, budget, rank - 1);
      JoinOneMore(spans, s.keep, sep, |spans|, order[rank - 1]);
    }
  }

  lemma RankDistinct(scores: seq<real>, n: nat)
    ensures Distinct(Rank(scores, n), n)
  {
    RankMeaning(scores, n);
  }

  /** The length of the span that ranks first. */
  function TopLength(spans: seq<string>, scores: seq<real>): (l: nat)
  {
    RankMeaning(scores, |spans|);
    if spans == [] then 0 else |spans[Rank(scores, |spans|)[0]]|
  }

  ghost predicate WithinBudget(spans: seq<string>, scores: seq<real>, budget: nat, sep: string)
  {
    |Selected(spans, scores, budget, sep)| <= Max(budget, TopLength(spans, scores))
  }

  lemma BudgetKept(spans: seq<string>, scores: seq<real>, budget: nat, sep: string)
    requires EmptiesFirst(spans, sep)
    ensures WithinBudget(spans, scores, budget, sep)
  {
    hide Rank, Select, EmptiesFirst;
    var order := Rank(scores, |spans|);
    RankDistinct(scores, |spans|);
    if spans != [] {
      UsedCovers(spans, order, sep, budget, |spans|);
      UsedBound(spans, order, |sep|, budget, |spans|);
    }
  }

  /** Two kept spans of which the first is not empty put a separator into the joined text. */
  lemma {:induction false} TwoJoined(spans: seq<string>, keep: seq<bool>, sep: string, n: nat, i: nat, j: nat)
    requires i < n <= |spans| && n <= |keep| && keep[i] && spans[i] != ""
    ensures JoinLength(spans, keep, sep, n) >= |spans[i]|
    ensures i < j < n && keep[j] ==> JoinLength(spans, keep, sep, n) >= |spans[i]| + |sep|
  {
    hide JoinLength;
    JoinLengthStep(spans, keep, sep, n);
    if i < n - 1 {
      TwoJoined(spans, keep, sep, n - 1, i, j);
    }
  }

  /** Scores that rank `j` first and `i` second. */
  function TwoFirst(i: nat, j: nat, n: nat): (scores: seq<real>)
    requires i < j < n
    ensures |scores| == n
    ensures forall k: nat | k < n :: ScoreAt(scores, k) == if k == j then 2.0 else if k == i then 1.0 else 0.0
  {
    seq(n, k requires 0 <= k < n => if k == j then 2.0 else if k == i then 1.0 else 0.0)
  }

  lemma FirstTwo(i: nat, j: nat, n: nat)
    requires i < j < n
    ensures var order := Rank(TwoFirst(i, j, n), n);
            IsRank(TwoFirst(i, j, n), order, n) && order[0] == j && order[1] == i
  {
    var scores := TwoFirst(i, j, n);
    RankMeaning(scores, n);
    hide Rank, TwoFirst;
    var order := Rank(scores, n);
    assert j in order && i in order;
    var p :| 0 <= p < n && order[p] == j;
    var q :| 0 <= q < n && order[q] == i;
    assert p == 0 by {
      assert forall a: nat | a < n :: !Ahead(scores, a, j);
      assert forall r | 0 < r < n :: Ahead(scores, order[0], order[r]);
    }
    assert q == 1 by {
      assert forall a: nat | a < n && a != j :: !Ahead(scores, a, i);
      assert Ahead(scores, order[0], order[1]);
      assert forall r | 1 < r < n :: Ahead(scores, order[1], order[r]);
    }
  }

  lemma {:induction false} StaysKept(spans: seq<string>, order: seq<nat>, sep: nat, budget: nat,
                                  rank: nat, more: nat, i: nat)
    requires Distinct(order, |spans|) && rank <= more <= |spans| && i < |spans|
    requires Select(spans, order, sep, budget, rank).keep[i]
    ensures Select(spans, order, sep, budget, more).keep[i]
  {
    if rank < more {
      StaysKept(spans, order, sep, budget, rank, more - 1, i);
    }
  }

  /** An empty span after one that is not, ranked before it, costs a separator nobody counted. */
  lemma BudgetBroken(spans: seq<string>, sep: string, i: nat, j: nat)
    requires i < j < |spans| && spans[i] != "" && spans[j] == "" && sep != ""
    ensures !WithinBudget(spans, TwoFirst(i, j, |spans|), |spans[i]|, sep)
  {
    var n, scores, budget := |spans|, TwoFirst(i, j, |spans|), |spans[i]|;
    FirstTwo(i, j, n);
    var order := Rank(scores, n);
    hide Rank, TwoFirst, Join;
    BothKept(spans, order, |sep|, budget, i, j);
    StaysKept(spans, order, |sep|, budget, 2, n, i);
    StaysKept(spans, order, |sep|, budget, 2, n, j);
    hide Select;
    TwoJoined(spans, Select(spans, order, |sep|, budget, n).keep, sep, n, i, j);
  }

  lemma BothKept(spans: seq<string>, order: seq<nat>, sep: nat, budget: nat, i: nat, j: nat)
    requires Distinct(order, |spans|) && i < j < |spans| && order[0] == j && order[1] == i
    requires spans[j] == "" && budget == |spans[i]|
    ensures Select(spans, order, sep, budget, 2).keep[i] && Select(spans, order, sep, budget, 2).keep[j]
  {
    assert Select(spans, order, sep, budget, 0) == Selection(None(|spans|), 0);
    assert Select(spans, order, sep, budget, 1) == Selection(None(|spans|)[j := true], 0);
  }

  /** Whatever the scores and the budget, the joined text is no longer than the budget or the
      top-scored span, exactly when no empty span comes after a non-empty one or the separator is
      empty. */
  lemma BudgetIff(spans: seq<string>, sep: string)
    ensures EmptiesFirst(spans, sep) <==> forall scores, budget :: WithinBudget(spans, scores, budget, sep)
  {
    hide WithinBudget;
    if EmptiesFirst(spans, sep) {
      forall scores, budget ensures WithinBudget(spans, scores, budget, sep) {
        BudgetKept(spans, scores, budget, sep);
      }
    } else {
      var i, j :| 0 <= i < j < |spans| && spans[j] == "" && spans[i] != "";
      BudgetBroken(spans, sep, i, j);
    }
  }

  // ---- Non-empty spans -----------------------------------------------------------------------------

  lemma {:induction false} UsedGrows(spans: seq<string>, order: seq<nat>, sep: nat, budget: nat, rank: nat, more: nat)
    requires Distinct(order, |spans|) && rank <= more <= |spans|
    ensures Select(spans, order, sep, budget, rank).used <= Select(spans, order, sep, budget, more).used
  {
    if rank < more {
      UsedGrows(spans, order, sep, budget, rank, more - 1);
    }
  }

  /** For spans that are not empty, the selection cannot be made larger: any dropped span with a
      separator would exceed the budget. */
  lemma SelectionMaximal(spans: seq<string>, scores: seq<real>, budget: nat, sep: string, i: nat)
    requires AllWritten(spans) && i < |spans|
    requires IsRank(scores, Rank(scores, |spans|), |spans|)
    requires !Select(spans, Rank(scores, |spans|), |sep|, budget, |spans|).keep[i]
    ensures |Selected(spans, scores, budget, sep)| + |sep| + |spans[i]| > budget
  {
    hide *;
    var n, order := |spans|, Rank(scores, |spans|);
    RankDistinct(scores, n);
    Places(spans, order);
    var p := PlaceOf(scores, n, i);
    WrittenFirst(spans, sep);
    if Select(spans, order, |sep|, budget, p + 1).keep[i] {
      StaysKept(spans, order, |sep|, budget, p + 1, n, i);
    }
    InOrder(spans, order, |sep|, budget, p);
    SelectStep(spans, order, |sep|, budget, p + 1);
    UsedGrows(spans, order, |sep|, budget, p, n);
    UsedCovers(spans, order, sep, budget, n);
    SelectedLength(spans, scores, budget, sep);
  }

  lemma PlaceOf(scores: seq<real>, n: nat, i: nat) returns (p: nat)
    requires IsRank(scores, Rank(scores, n), n) && i < n
    ensures |Rank(scores, n)| == n && p < n && Rank(scores, n)[p] == i
  {
    hide Rank, Ahead;
    assert i in Rank(scores, n);
    p :| p < n && Rank(scores, n)[p] == i;
  }

  lemma WrittenFirst(spans: seq<string>, sep: string)
    requires AllWritten(spans)
    ensures EmptiesFirst(spans, sep)
  {
  }

  lemma SelectedLength(spans: seq<string>, scores: seq<real>, budget: nat, sep: string)
    requires |Rank(scores, |spans|)| == |spans| && forall p | 0 <= p < |spans| :: Rank(scores, |spans|)[p] < |spans|
    ensures |Selected(spans, scores, budget, sep)| ==
            JoinLength(spans, Select(spans, Rank(scores, |spans|), |sep|, budget, |spans|).keep, sep, |spans|)
  {
    hide Rank, Select, Join;
  }

  function Kept(spans: seq<string>, keep: seq<bool>, n: nat): (ss: seq<string>)
    requires n <= |spans| && n <= |keep|
  {
    if n == 0 then [] else Kept(spans, keep, n - 1) + if keep[n - 1] then [spans[n - 1]] else []
  }

  function Between(ss: seq<string>, sep: string): (out: string)
  {
    if ss == [] then "" else if |ss| == 1 then ss[0]
    else Between(ss[..|ss| - 1], sep) + sep + ss[|ss| - 1]
  }

  /** For spans that are not empty, the joined text is the kept spans in their original order with
      the separator between them. */
  lemma {:induction false} JoinIsBetween(spans: seq<string>, keep: seq<bool>, sep: string, n: nat)
    requires n <= |spans| && n <= |keep| && AllWritten(spans)
    ensures Join(spans, keep, sep, n) == Between(Kept(spans, keep, n), sep)
    ensures Kept(spans, keep, n) == [] <==> Join(spans, keep, sep, n) == ""
  {
    if n > 0 {
      JoinIsBetween(spans, keep, sep, n - 1);
      hide Between;
      if keep[n - 1] {
        BetweenMore(Kept(spans, keep, n - 1), spans[n - 1], sep);
      } else {
        assert Kept(spans, keep, n) == Kept(spans, keep, n - 1);
      }
    } else {
      BetweenNone(sep);
    }
  }

  lemma BetweenMore(ss: seq<string>, x: string, sep: string)
    ensures Between(ss + [x], sep) == if ss == [] then x else Between(ss, sep) + sep + x
  {
    assert (ss + [x])[..|ss|] == ss;
  }

  lemma BetweenNone(sep: string)
    ensures Between([], sep) == ""
  {
  }

  /** The top-scored span is always kept. */
  lemma TopKept(spans: seq<string>, scores: seq<real>, budget: nat, sep: nat)
    requires spans != [] && IsRank(scores, Rank(scores, |spans|), |spans|)
    ensures var top := Rank(scores, |spans|)[0];
            && Select(spans, Rank(scores, |spans|), sep, budget, |spans|).keep[top]
            && forall i: nat | i < |spans| && i != top :: Ahead(scores, top, i)
  {
    hide Rank, Ahead, Select;
    var order := Rank(scores, |spans|);
    UsedBound(spans, order, sep, budget, |spans|);
    forall i: nat | i < |spans| && i != order[0] ensures Ahead(scores, order[0], i) {
      assert i in order;
      var p :| 0 <= p < |spans| && order[p] == i;
    }
  }

  // ---- Which spans are preferred -----------------------------------------------------------------

  /** The kept ones of the `n` best spans, best first. */
  function BestKept(spans: seq<string>, order: seq<nat>, keep: seq<bool>, n: nat): (ss: seq<string>)
    requires Distinct(order, |spans|) && |keep| == |spans| && n <= |spans|
  {
    if n == 0 then []
    else BestKept(spans, order, keep, n - 1) + if keep[order[n - 1]] then [spans[order[n - 1]]] else []
  }

  /** The characters of some spans, with a separator before each that follows written text. */
  function Cost(ss: seq<string>, sep: nat): (c: nat)
  {
    if ss == [] then 0
    else
      var c := Cost(ss[..|ss| - 1], sep);
      c + |ss[|ss| - 1]| + if c > 0 then sep else 0
  }

  lemma CostMore(ss: seq<string>, x: string, sep: nat)
    ensures Cost(ss + [x], sep) == Cost(ss, sep) + |x| + if Cost(ss, sep) > 0 then sep else 0
  {
    assert (ss + [x])[..|ss|] == ss;
  }

  /** Spans that are not empty cost the length of their text with separators between. */
  lemma {:induction false} CostIsLength(ss: seq<string>, sep: string)
    requires AllWritten(ss)
    ensures Cost(ss, |sep|) == |Between(ss, sep)|
  {
    if ss != [] {
      var front, x := ss[..|ss| - 1], ss[|ss| - 1];
      assert ss == front + [x];
      CostIsLength(front, sep);
      CostMore(front, x, |sep|);
      BetweenMore(front, x, sep);
      SomeCost(front, |sep|);
    }
  }

  lemma SomeCost(ss: seq<string>, sep: nat)
    requires AllWritten(ss)
    ensures Cost(ss, sep) > 0 <==> ss != []
  {
    assert ss != [] ==> ss[|ss| - 1] != "";
  }

  /** What was decided about a span stands. */
  lemma {:induction false} KeepFixed(spans: seq<string>, order: seq<nat>, sep: nat, budget: nat, rank: nat, more: nat,
                                     q: nat)
    requires Distinct(order, |spans|) && q < rank <= more <= |spans|
    ensures Select(spans, order, sep, budget, more).keep[order[q]] ==
            Select(spans, order, sep, budget, rank).keep[order[q]]
  {
    if rank < more {
      KeepFixed(spans, order, sep, budget, rank, more - 1, q);
    }
  }

  lemma {:induction false} SameBest(spans: seq<string>, order: seq<nat>, k: seq<bool>, l: seq<bool>, n: nat)
    requires Distinct(order, |spans|) && |k| == |l| == |spans| && n <= |spans|
    requires forall q | 0 <= q < n :: k[order[q]] == l[order[q]]
    ensures BestKept(spans, order, k, n) == BestKept(spans, order, l, n)
  {
    if n > 0 {
      SameBest(spans, order, k, l, n - 1);
    }
  }

  lemma {:induction false} UsedIsCost(spans: seq<string>, order: seq<nat>, sep: nat, budget: nat, rank: nat)
    requires Distinct(order, |spans|) && rank <= |spans|
    ensures var s := Select(spans, order, sep, budget, rank);
            s.used == Cost(BestKept(spans, order, s.keep, rank), sep)
  {
    hide *;
    if rank == 0 {
      NothingSelected(spans, order, sep, budget);
    } else {
      Places(spans, order);
      var s, t := Select(spans, order, sep, budget, rank - 1), Select(spans, order, sep, budget, rank);
      UsedIsCost(spans, order, sep, budget, rank - 1);
      InOrder(spans, order, sep, budget, rank - 1);
      SelectStep(spans, order, sep, budget, rank);
      forall q | 0 <= q < rank - 1 ensures t.keep[order[q]] == s.keep[order[q]] {
        KeepFixed(spans, order, sep, budget, rank - 1, rank, q);
      }
      SameBest(spans, order, s.keep, t.keep, rank - 1);
      BestStep(spans, order, t.keep, rank);
      CostMore(BestKept(spans, order, s.keep, rank - 1), spans[order[rank - 1]], sep);
    }
  }

  lemma NothingSelected(spans: seq<string>, order: seq<nat>, sep: nat, budget: nat)
    requires Distinct(order, |spans|)
    ensures var s := Select(spans, order, sep, budget, 0); s.used == Cost(BestKept(spans, order, s.keep, 0), sep)
  {
  }

  lemma Places(spans: seq<string>, order: seq<nat>)
    requires Distinct(order, |spans|)
    ensures |order| == |spans| && forall q | 0 <= q < |order| :: order[q] < |spans|
  {
  }

  lemma InOrder(spans: seq<string>, order: seq<nat>, sep: nat, budget: nat, rank: nat)
    requires Distinct(order, |spans|) && rank < |spans|
    ensures order[rank] < |spans| && !Select(spans, order, sep, budget, rank).keep[order[rank]]
  {
    NotYet(spans, order, sep, budget, rank, rank);
  }

  lemma SelectStep(spans: seq<string>, order: seq<nat>, sep: nat, budget: nat, rank: nat)
    requires Distinct(order, |spans|) && 0 < rank <= |spans|
    ensures var s, t, i := Select(spans, order, sep, budget, rank - 1), Select(spans, order, sep, budget, rank),
                           order[rank - 1];
            var add := |spans[i]| + if s.used > 0 then sep else 0;
            if rank == 1 || s.used + add <= budget then t == Selection(s.keep[i := true], s.used + add) else t == s
  {
  }

  lemma BestStep(spans: seq<string>, order: seq<nat>, keep: seq<bool>, n: nat)
    requires Distinct(order, |spans|) && |keep| == |spans| && 0 < n <= |spans|
    ensures BestKept(spans, order, keep, n) ==
            if keep[order[n - 1]] then BestKept(spans, order, keep, n - 1) + [spans[order[n - 1]]]
            else BestKept(spans, order, keep, n - 1)
  {
  }

  /** Spans are kept greedily in rank order: one is kept exactly when it is the best or fits the budget
      beside the better ones that are kept. */
  lemma SelectionPrefers(spans: seq<string>, scores: seq<real>, budget: nat, sep: nat, p: nat)
    requires p < |spans| && Distinct(Rank(scores, |spans|), |spans|)
    ensures var order := Rank(scores, |spans|);
            var keep := Select(spans, order, sep, budget, |spans|).keep;
            var better := Cost(BestKept(spans, order, keep, p), sep);
            keep[order[p]] <==>
            p == 0 || better + |spans[order[p]]| + (if better > 0 then sep else 0) <= budget
  {
    hide *;
    var n, order := |spans|, Rank(scores, |spans|);
    Places(spans, order);
    var s, last := Select(spans, order, sep, budget, p), Select(spans, order, sep, budget, n);
    UsedIsCost(spans, order, sep, budget, p);
    InOrder(spans, order, sep, budget, p);
    SelectStep(spans, order, sep, budget, p + 1);
    KeepFixed(spans, order, sep, budget, p + 1, n, p);
    forall q | 0 <= q < p ensures s.keep[order[q]] == last.keep[order[q]] {
      KeepFixed(spans, order, sep, budget, p, n, q);
    }
    SameBest(spans, order, s.keep, last.keep, p);
  }

  /** The ranking goes down in score, where a missing score is 0, and equal scores keep their places. */
  lemma RankByScore(scores: seq<real>, n: nat, p: nat, q: nat)
    requires p < q < n
    ensures var a, b := Rank(scores, n)[p], Rank(scores, n)[q];
            var x, y := if a < |scores| then scores[a] else 0.0, if b < |scores| then scores[b] else 0.0;
            a < n && b < n && (x > y || (x == y && a < b))
  {
    RankMeaning(scores, n);
    hide Rank;
    assert Ahead(scores, Rank(scores, n)[p], Rank(scores, n)[q]);
  }
}
