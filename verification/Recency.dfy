/** Recency order: the distinct texts of a history of lookups, the latest looked up first. */
module Recency {

  /** The first place of `x`, or the length. */
  function Place(s: seq<string>, x: string): (k: nat)
    ensures k <= |s| && (k < |s| ==> s[k] == x)
    ensures forall i | 0 <= i < k :: s[i] != x
  {
    if s == [] || s[0] == x then 0 else 1 + Place(s[1..], x)
  }

  function Removed(s: seq<string>, k: nat): (r: seq<string>)
    ensures |r| == if k < |s| then |s| - 1 else |s|
    ensures forall i | 0 <= i < |r| :: r[i] == if i < k then s[i] else s[i + 1]
  {
    if k < |s| then s[..k] + s[k + 1..] else s
  }

  function Without(s: seq<string>, x: string): (r: seq<string>)
  {
    Removed(s, Place(s, x))
  }

  predicate Distinct(s: seq<string>)
  {
    forall i, j | 0 <= i < j < |s| :: s[i] != s[j]
  }

  function Recent(history: seq<string>): (r: seq<string>)
  {
    if history == [] then []
    else [history[|history| - 1]] + Without(Recent(history[..|history| - 1]), history[|history| - 1])
  }

  function Take(s: seq<string>, n: nat): (r: seq<string>)
  {
    if |s| < n then s else s[..n]
  }

  lemma PlaceUnique(s: seq<string>, x: string, k: nat)
    requires Distinct(s)
    ensures k < |s| && s[k] == x ==> Place(s, x) == k
    ensures Place(s, x) == |s| <==> x !in s
  {
    hide Place;
  }

  lemma RemovedAt(s: seq<string>, x: string, i: nat)
    requires Distinct(s) && i < |Without(s, x)|
    ensures var r, k := Without(s, x), Place(s, x);
            && |r| == (if k < |s| then |s| - 1 else |s|)
            && r[i] == (if i < k then s[i] else s[i + 1]) && r[i] != x
  {
    hide Place;
    var k := Place(s, x);
    PlaceUnique(s, x, if i < k then i else i + 1);
  }

  lemma WithoutDistinct(s: seq<string>, x: string)
    requires Distinct(s)
    ensures Distinct(Without(s, x)) && x !in Without(s, x)
    ensures forall y | y != x :: y in Without(s, x) <==> y in s
  {
    hide Place, Without;
    var k, r := Place(s, x), Without(s, x);
    forall i, j | 0 <= i < j < |r| ensures r[i] != r[j] && r[i] != x {
      RemovedAt(s, x, i);
      RemovedAt(s, x, j);
    }
    if x in r {
      var i :| 0 <= i < |r| && r[i] == x;
      RemovedAt(s, x, i);
    }
    forall y | y != x ensures y in r <==> y in s {
      WithoutKeeps(s, x, y);
    }
  }

  lemma WithoutKeeps(s: seq<string>, x: string, y: string)
    requires Distinct(s) && x != y
    ensures y in Without(s, x) <==> y in s
  {
    hide Place;
    var k, r := Place(s, x), Without(s, x);
    if y in s {
      var i :| 0 <= i < |s| && s[i] == y;
      assert r[if i < k then i else i - 1] == y;
    }
  }

  lemma RecentStep(history: seq<string>, x: string)
    ensures Recent(history + [x]) == [x] + Without(Recent(history), x)
  {
    assert (history + [x])[..|history|] == history;
  }

  lemma {:induction false} RecentDistinct(history: seq<string>)
    ensures Distinct(Recent(history))
    ensures forall x :: x in Recent(history) <==> x in history
  {
    if history != [] {
      hide Without;
      var n, x := |history| - 1, history[|history| - 1];
      RecentDistinct(history[..n]);
      WithoutDistinct(Recent(history[..n]), x);
      assert history == history[..n] + [x];
    }
  }

  /** What looking up `x` does to the first `n` texts in recency order: nothing beyond them is
      needed. */
  lemma TakeStep(history: seq<string>, x: string, n: nat)
    requires n > 0
    ensures var t := Take(Recent(history), n);
            Take(Recent(history + [x]), n) == if x in t then [x] + Without(t, x) else Take([x] + t, n)
  {
    hide Recent, Place;
    var r := Recent(history);
    RecentDistinct(history);
    RecentStep(history, x);
    var t := Take(r, n);
    assert Distinct(t);
    PlaceUnique(t, x, Place(r, x));
    PlaceUnique(r, x, Place(t, x));
  }

  // ---- What recency order is -------------------------------------------------------------------

  /** The last position of `x` in the history. */
  function LastUse(history: seq<string>, x: string): (k: nat)
    requires x in history
    ensures k < |history| && history[k] == x && x !in history[k + 1..]
  {
    var n := |history| - 1;
    if history[n] == x then n
    else
      assert history == history[..n] + [history[n]];
      LastUse(history[..n], x)
  }

  lemma RecentUnfold(history: seq<string>)
    requires history != []
    ensures var n := |history| - 1;
            Recent(history) == [history[n]] + Without(Recent(history[..n]), history[n])
  {
  }

  /** Where an entry after the first was before the last lookup. */
  lemma EarlierPlace(history: seq<string>, i: nat) returns (a: nat)
    requires history != [] && 0 < i < |Recent(history)|
    ensures var n, before := |history| - 1, Recent(history[..|history| - 1]);
            && a == (if i - 1 < Place(before, history[n]) then i - 1 else i) && a < |before|
            && before[a] == Recent(history)[i] && Recent(history)[i] != history[n]
  {
    hide *;
    var n := |history| - 1;
    RecentUnfold(history);
    RecentDistinct(history[..n]);
    RemovedAt(Recent(history[..n]), history[n], i - 1);
    a := if i - 1 < Place(Recent(history[..n]), history[n]) then i - 1 else i;
  }

  /** The recency list orders the distinct texts by their last use. */
  lemma {:induction false} RecentOrder(history: seq<string>, i: nat, j: nat)
    requires i < j < |Recent(history)|
    ensures Recent(history)[i] in history && Recent(history)[j] in history
    ensures LastUse(history, Recent(history)[i]) > LastUse(history, Recent(history)[j])
  {
    var r := Recent(history);
    assert history != [];
    var b := EarlierPlace(history, j);
    hide Recent, Place, LastUse;
    RecentDistinct(history);
    assert r[i] in r && r[j] in r;
    EarlierUse(history, r[j]);
    if i > 0 {
      var a := EarlierPlace(history, i);
      EarlierUse(history, r[i]);
      RecentOrder(history[..|history| - 1], a, b);
    } else {
      RecentUnfold(history);
      LatestUse(history);
    }
  }

  lemma LatestUse(history: seq<string>)
    requires history != []
    ensures LastUse(history, history[|history| - 1]) == |history| - 1
  {
  }

  lemma EarlierUse(history: seq<string>, y: string)
    requires y in history && y != history[|history| - 1]
    ensures y in history[..|history| - 1]
    ensures LastUse(history, y) == LastUse(history[..|history| - 1], y) < |history| - 1
  {
    assert history == history[..|history| - 1] + [history[|history| - 1]];
  }

  /** A text stays among the `n` most recent exactly as long as fewer than `n` other texts have been
      looked up since. */
  lemma StaysRecent(history: seq<string>, x: string, later: seq<string>, n: nat)
    requires x !in later
    ensures x in Take(Recent(history + [x] + later), n) <==> |Recent(later)| < n
  {
    hide Recent;
    PlaceOf(history, x, later);
    var r, k := Recent(history + [x] + later), |Recent(later)|;
    assert r[k] == x;
    RecentDistinct(history + [x] + later);
    if k < n {
      assert k < |Take(r, n)| && Take(r, n)[k] == x;
    } else {
      assert forall i | 0 <= i < n :: r[i] != x;
    }
  }

  lemma {:induction false} PlaceOf(history: seq<string>, x: string, later: seq<string>)
    requires x !in later
    ensures Recent(later) + [x] <= Recent(history + [x] + later)
    decreases |later|
  {
    hide Recent, Without;
    if later == [] {
      assert history + [x] + later == history + [x];
      RecentStep(history, x);
      RecentNone();
    } else {
      var n, y := |later| - 1, later[|later| - 1];
      assert later == later[..n] + [y];
      assert history + [x] + later == (history + [x] + later[..n]) + [y];
      PlaceOf(history, x, later[..n]);
      RecentStep(history + [x] + later[..n], y);
      RecentStep(later[..n], y);
      RecentDistinct(later[..n]);
      RecentDistinct(history + [x] + later[..n]);
      WithoutPrefix(Recent(later[..n]), x, Recent(history + [x] + later[..n]), y);
    }
  }

  lemma RecentNone()
    ensures Recent([]) == []
  {
  }

  lemma WithoutPrefix(a: seq<string>, x: string, r: seq<string>, y: string)
    requires a + [x] <= r && x != y && Distinct(r) && Distinct(a)
    ensures Without(a, y) + [x] <= Without(r, y)
  {
    hide Place;
    var p, q := Place(a, y), Place(r, y);
    assert r[|a|] == x && forall i | 0 <= i < |a| :: r[i] == a[i];
    PlaceUnique(r, y, p);
    PlaceUnique(a, y, q);
  }
}
