/** What every interleaving of migrating processes keeps. */
module MigratorProofs {
  import opened Wrappers
  import opened Migrator

  // ---- Which migrations are due ---------------------------------------------------------------

  /** The first of the migrations with its version. */
  predicate First(migs: seq<int>, k: nat)
    requires k < |migs|
  {
    k == 0 || migs[k - 1] < migs[k]
  }

  /** Among the first `n` migrations, the first of each version above `low` and up to `high`. */
  function Due(migs: seq<int>, low: int, high: int, n: nat): (ks: seq<nat>)
    requires n <= |migs|
  {
    if n == 0 then []
    else Due(migs, low, high, n - 1)
         + Step(migs, low, high, n - 1)
  }

  function Step(migs: seq<int>, low: int, high: int, k: nat): (ks: seq<nat>)
    requires k < |migs|
  {
    if First(migs, k) && low < migs[k] <= high then [k] else []
  }

  lemma DueStep(migs: seq<int>, low: int, high: int, n: nat)
    requires 0 < n <= |migs|
    ensures Due(migs, low, high, n) == Due(migs, low, high, n - 1) + Step(migs, low, high, n - 1)
  {
  }

  lemma {:induction false} DueInRange(migs: seq<int>, low: int, high: int, n: nat)
    requires Ascending(migs) && n <= |migs|
    ensures forall i {:trigger Due(migs, low, high, n)[i]} | 0 <= i < |Due(migs, low, high, n)| ::
              var k := Due(migs, low, high, n)[i]; k < n && First(migs, k) && low < migs[k] <= high
  {
    if n > 0 {
      hide Due;
      DueInRange(migs, low, high, n - 1);
      DueStep(migs, low, high, n);
    }
  }

  lemma {:induction false} DueAscends(migs: seq<int>, low: int, high: int, n: nat)
    requires Ascending(migs) && n <= |migs|
    ensures var ks := Due(migs, low, high, n); forall i, j | 0 <= i < j < |ks| :: ks[i] < ks[j]
  {
    if n > 0 {
      hide Due;
      DueAscends(migs, low, high, n - 1);
      DueInRange(migs, low, high, n - 1);
      DueStep(migs, low, high, n);
    }
  }

  lemma {:induction false} DueCovers(migs: seq<int>, low: int, high: int, n: nat, k: nat) returns (i: nat)
    requires Ascending(migs) && k < n <= |migs| && low < migs[k] <= high
    ensures i < |Due(migs, low, high, n)|
    ensures Due(migs, low, high, n)[i] <= k && migs[Due(migs, low, high, n)[i]] == migs[k]
  {
    DueStep(migs, low, high, n);
    if k == n - 1 && First(migs, k) {
      i := |Due(migs, low, high, n)| - 1;
    } else {
      i := DueCovers(migs, low, high, n - 1, if k == n - 1 then k - 1 else k);
    }
  }

  lemma FirstAbove(migs: seq<int>, j: nat, k: nat)
    requires Ascending(migs) && j < k < |migs| && First(migs, k)
    ensures migs[j] < migs[k]
  {
  }

  /** The due migrations are in strictly ascending order of version, lie in the range, and between
      them have every version of the range, so each exactly once. */
  lemma DueMeaning(migs: seq<int>, low: int, high: int)
    requires Ascending(migs)
    ensures var ks := Due(migs, low, high, |migs|);
            && (forall i | 0 <= i < |ks| :: ks[i] < |migs| && low < migs[ks[i]] <= high)
            && (forall i, j | 0 <= i < j < |ks| :: migs[ks[i]] < migs[ks[j]])
            && (forall k | 0 <= k < |migs| && low < migs[k] <= high ::
                  exists i | 0 <= i < |ks| :: migs[ks[i]] == migs[k])
  {
    hide Due, First, Ascending;
    var ks := Due(migs, low, high, |migs|);
    DueInRange(migs, low, high, |migs|);
    DueAscends(migs, low, high, |migs|);
    assert forall i | 0 <= i < |ks| :: ks[i] == Due(migs, low, high, |migs|)[i];
    forall i, j | 0 <= i < j < |ks| ensures migs[ks[i]] < migs[ks[j]] {
      assert ks[i] < ks[j];
      FirstAbove(migs, ks[i], ks[j]);
    }
    forall k | 0 <= k < |migs| && low < migs[k] <= high ensures exists i | 0 <= i < |ks| :: migs[ks[i]] == migs[k] {
      var i := DueCovers(migs, low, high, |migs|, k);
    }
  }

  /** With everything before migration `k` at or below `version`, applying it next makes the due
      list one longer. */
  lemma {:induction false} DueNext(migs: seq<int>, low: int, version: int, k: nat, n: nat)
    requires Ascending(migs) && k < |migs| && n <= |migs| && low <= version < migs[k]
    requires forall j | 0 <= j < k :: migs[j] <= version
    ensures Due(migs, low, migs[k], n) == Due(migs, low, version, n) + if n > k then [k] else []
  {
    if n > 0 {
      DueNext(migs, low, version, k, n - 1);
    }
  }

  // ---- The invariant --------------------------------------------------------------------------------

  ghost predicate Begun(s: State)
  {
    && Ascending(s.migs) && s.tx == None && s.store.applied == []
    && forall p | 0 <= p < |s.procs| :: s.procs[p] == Start
  }

  predicate Behind(s: State, k: nat)
  {
    k <= |s.migs| && forall j | 0 <= j < k :: s.migs[j] <= s.store.version
  }

  /** What the transaction has written by the time its owner is at `pc`. */
  predicate WorkRight(s: State, pc: Pc)
  {
    s.tx.Some? && (InTransaction(pc) ==> pc.k < |s.migs|) &&
    var work := s.tx.value.work;
    match pc
    case Locked(_, _) => work == s.store
    case Pending(k, _) => work == s.store && s.store.version < s.migs[k]
    case Altered(k, _) => work == Ran(s.store, k) && s.store.version < s.migs[k]
    case Versioned(k, _) => work == Stamped(Ran(s.store, k), s.migs[k]) && s.store.version < s.migs[k]
    case _ => false
  }

  predicate ProcessRight(s: State, p: nat)
    requires p < |s.procs|
  {
    var pc := s.procs[p];
    && (InTransaction(pc) <==> Owns(s, p))
    && (InTransaction(pc) ==> WorkRight(s, pc) && Behind(s, pc.k))
    && (pc.At? ==> Behind(s, pc.k))
    && (pc.At? || InTransaction(pc) ==> pc.current <= s.store.version)
    && (pc == Returned ==> Behind(s, |s.migs|))
  }

  predicate StoreRight(s: State, v0: int)
  {
    && s.store.version >= v0
    && (s.store.version == v0 || s.store.version in s.migs)
    && s.store.applied == Due(s.migs, v0, s.store.version, |s.migs|)
  }

  ghost predicate Inv(s: State, v0: int)
  {
    && Ascending(s.migs)
    && StoreRight(s, v0)
    && (s.tx.Some? ==> s.tx.value.owner < |s.procs|)
    && forall p | 0 <= p < |s.procs| :: ProcessRight(s, p)
  }

  lemma {:induction false} NothingDue(migs: seq<int>, v: int, n: nat)
    requires n <= |migs|
    ensures Due(migs, v, v, n) == []
  {
    if n > 0 {
      NothingDue(migs, v, n - 1);
    }
  }

  lemma BegunInv(s: State)
    requires Begun(s)
    ensures Inv(s, s.store.version)
  {
    NothingDue(s.migs, s.store.version, |s.migs|);
  }

  /** A committed store only moves forward. */
  predicate Forward(a: Store, b: Store)
  {
    a.version <= b.version && a.applied <= b.applied
  }

  lemma CommitRight(s: State, v0: int, p: nat)
    requires Inv(s, v0) && Can(s, Commit(p))
    ensures var s' := Do(s, Commit(p)); StoreRight(s', v0) && Forward(s.store, s'.store)
  {
    hide Due;
    assert ProcessRight(s, p);
    var k := s.procs[p].k;
    DueNext(s.migs, v0, s.store.version, k, |s.migs|);
  }

  lemma StepStore(s: State, v0: int, a: Action)
    requires Inv(s, v0) && Can(s, a)
    ensures var s' := Do(s, a); s'.migs == s.migs && StoreRight(s', v0) && Forward(s.store, s'.store)
  {
    hide Due, ProcessRight;
    if a.Commit? {
      CommitRight(s, v0, a.p);
    }
  }

  lemma BehindKept(s: State, s': State, k: nat)
    requires Behind(s, k) && s'.migs == s.migs && Forward(s.store, s'.store)
    ensures Behind(s', k)
  {
  }

  /** A process that does not take the step is still right after it. */
  lemma OthersRight(s: State, v0: int, a: Action, q: nat)
    requires Inv(s, v0) && Can(s, a) && q < |s.procs| && q != a.p
    ensures ProcessRight(Do(s, a), q)
  {
    hide StoreRight, Due, Forward;
    StepStore(s, v0, a);
    assert ProcessRight(s, q) && ProcessRight(s, a.p);
    var s', pc := Do(s, a), s.procs[q];
    ForwardMeans(s.store, s'.store);
    if pc.At? || InTransaction(pc) {
      BehindKept(s, s', pc.k);
    } else if pc == Returned {
      BehindKept(s, s', |s.migs|);
    }
  }

  lemma ForwardMeans(a: Store, b: Store)
    requires Forward(a, b)
    ensures a.version <= b.version
  {
  }

  lemma ActorRight(s: State, v0: int, a: Action)
    requires Inv(s, v0) && Can(s, a)
    ensures ProcessRight(Do(s, a), a.p)
  {
    hide StoreRight, Due, Forward;
    StepStore(s, v0, a);
    assert ProcessRight(s, a.p);
    var s', pc := Do(s, a), s.procs[a.p];
    ForwardMeans(s.store, s'.store);
    if pc.At? || InTransaction(pc) {
      BehindKept(s, s', pc.k);
    }
  }

  lemma StepInv(s: State, v0: int, a: Action)
    requires Inv(s, v0) && Can(s, a)
    ensures Inv(Do(s, a), v0) && Forward(s.store, Do(s, a).store)
  {
    hide StoreRight, Due, ProcessRight, Forward;
    StepStore(s, v0, a);
    ActorRight(s, v0, a);
    forall q | 0 <= q < |s.procs| ensures ProcessRight(Do(s, a), q) {
      if q != a.p {
        OthersRight(s, v0, a, q);
      }
    }
  }

  lemma {:induction false} RunInv(s: State, v0: int, run: seq<Action>)
    requires Inv(s, v0) && Possible(s, run)
    ensures Inv(After(s, run), v0) && Forward(s.store, After(s, run).store)
    ensures After(s, run).migs == s.migs && |After(s, run).procs| == |s.procs|
    decreases |run|
  {
    hide Inv;
    if run != [] {
      StepInv(s, v0, run[0]);
      RunInv(Do(s, run[0]), v0, run[1..]);
    }
  }

  // ---- Every run --------------------------------------------------------------------------------------

  /** In every interleaving, with failures anywhere, the migrations whose statements have taken
      effect are, in order, the due ones above the starting version up to the user version. */
  lemma AppliedIsDue(s: State, run: seq<Action>)
    requires Begun(s) && Possible(s, run)
    ensures var e := After(s, run).store;
            && e.applied == Due(s.migs, s.store.version, e.version, |s.migs|)
            && s.store.version <= e.version
  {
    BegunInv(s);
    RunInv(s, s.store.version, run);
  }

  /** The user version never goes down and no migration is ever undone. */
  lemma NeverBack(s: State, run: seq<Action>, more: seq<Action>)
    requires Begun(s) && Possible(s, run) && Possible(After(s, run), more)
    ensures Forward(After(s, run).store, After(After(s, run), more).store)
  {
    BegunInv(s);
    RunInv(s, s.store.version, run);
    RunInv(After(s, run), s.store.version, more);
  }

  /** Two processes are never in a write transaction at once. */
  lemma OneWriter(s: State, run: seq<Action>, p: nat, q: nat)
    requires Begun(s) && Possible(s, run)
    requires var e := After(s, run);
             p < |e.procs| && q < |e.procs| && InTransaction(e.procs[p]) && InTransaction(e.procs[q])
    ensures p == q
  {
    BegunInv(s);
    RunInv(s, s.store.version, run);
    var e := After(s, run);
    assert ProcessRight(e, p) && ProcessRight(e, q);
  }

  /** A process that returns normally leaves the user version at or above every migration. */
  lemma ReturnedIsCurrent(s: State, run: seq<Action>, p: nat)
    requires Begun(s) && Possible(s, run)
    requires p < |s.procs| == |After(s, run).procs| && After(s, run).procs[p] == Returned
    ensures forall k | 0 <= k < |s.migs| :: s.migs[k] <= After(s, run).store.version
  {
    BegunInv(s);
    RunInv(s, s.store.version, run);
    assert ProcessRight(After(s, run), p);
  }

  function Latest(migs: seq<int>, v0: int): (v: int)
    requires Ascending(migs)
    ensures v >= v0 && (v == v0 || v in migs) && forall k | 0 <= k < |migs| :: migs[k] <= v
  {
    if |migs| > 0 && migs[|migs| - 1] > v0 then migs[|migs| - 1] else v0
  }

  /** However the processes interleave and whichever of them fail, once one has returned the
      database is the one a single process would have left. */
  lemma SameResult(s: State, run: seq<Action>, p: nat)
    requires Begun(s) && Possible(s, run)
    requires p < |s.procs| == |After(s, run).procs| && After(s, run).procs[p] == Returned
    ensures var v0, latest := s.store.version, Latest(s.migs, s.store.version);
            After(s, run).store == Store(latest, Due(s.migs, v0, latest, |s.migs|))
  {
    ReturnedIsCurrent(s, run, p);
    BegunInv(s);
    RunInv(s, s.store.version, run);
  }

  // ---- Progress -----------------------------------------------------------------------------------------

  predicate Ended(pc: Pc)
  {
    pc == Returned || pc == Stopped
  }

  function Next(s: State, p: nat): (a: Action)
    requires p < |s.procs|
  {
    match s.procs[p]
    case Start => ReadVersion(p)
    case At(k, current) =>
      if k >= |s.migs| then Return(p) else if s.migs[k] <= current then Skip(p) else Begin(p)
    case Locked(_, _) => Recheck(p)
    case Pending(_, _) => RunSql(p)
    case Altered(_, _) => SetVersion(p)
    case Versioned(_, _) => Commit(p)
    case _ => Fail(p)
  }

  /** No interleaving gets stuck: until every process has ended, one can go on without failing. */
  lemma NeverStuck(s: State, run: seq<Action>, p: nat)
    requires Begun(s) && Possible(s, run) && p < |After(s, run).procs| && !Ended(After(s, run).procs[p])
    ensures exists a :: Can(After(s, run), a) && !a.Fail?
  {
    BegunInv(s);
    RunInv(s, s.store.version, run);
    var e := After(s, run);
    var q := if e.tx.Some? then e.tx.value.owner else p;
    assert ProcessRight(e, q);
    assert Can(e, Next(e, q)) && !Next(e, q).Fail?;
  }

  function Left(migs: nat, pc: Pc): (n: nat)
  {
    match pc
    case Start => 5 * migs + 2
    case At(k, _) => if k > migs then 0 else 5 * (migs - k) + 1
    case Locked(k, _) => if k >= migs then 0 else 5 * (migs - k)
    case Pending(k, _) => if k >= migs then 0 else 5 * (migs - k) - 1
    case Altered(k, _) => if k >= migs then 0 else 5 * (migs - k) - 2
    case Versioned(k, _) => if k >= migs then 0 else 5 * (migs - k) - 3
    case _ => 0
  }

  function StepsLeft(migs: nat, procs: seq<Pc>): (n: nat)
  {
    if procs == [] then 0 else Left(migs, procs[0]) + StepsLeft(migs, procs[1..])
  }

  lemma {:induction false} StepsMove(migs: nat, procs: seq<Pc>, p: nat, pc: Pc)
    requires p < |procs| && Left(migs, pc) < Left(migs, procs[p])
    ensures StepsLeft(migs, procs[p := pc]) < StepsLeft(migs, procs)
  {
    if p > 0 {
      assert procs[p := pc][1..] == procs[1..][p - 1 := pc];
      StepsMove(migs, procs[1..], p - 1, pc);
    } else {
      assert procs[p := pc][1..] == procs[1..];
    }
  }

  /** Every interleaving stops. */
  lemma {:induction false} RunsStop(s: State, v0: int, run: seq<Action>)
    requires Inv(s, v0) && Possible(s, run)
    ensures |run| <= StepsLeft(|s.migs|, s.procs)
    decreases |run|
  {
    if run != [] {
      var s', p := Do(s, run[0]), run[0].p;
      assert ProcessRight(s, p);
      hide Inv;
      StepInv(s, v0, run[0]);
      assert s'.procs == s.procs[p := s'.procs[p]];
      StepsMove(|s.migs|, s.procs, p, s'.procs[p]);
      RunsStop(s', v0, run[1..]);
    }
  }

  lemma {:induction false} NoneStops(s: State, run: seq<Action>)
    requires Possible(s, run) && Stopped !in s.procs && forall a | a in run :: !a.Fail?
    ensures Stopped !in After(s, run).procs
    decreases |run|
  {
    if run != [] {
      assert run[0] in run && forall a | a in run[1..] :: a in run;
      NoneStops(Do(s, run[0]), run[1..]);
    }
  }

  /** When nothing fails and no process can go on, every process has returned. */
  lemma AllReturn(s: State, run: seq<Action>, p: nat)
    requires Begun(s) && Possible(s, run) && (forall a | a in run :: !a.Fail?)
    requires forall a | Can(After(s, run), a) :: a.Fail?
    requires p < |After(s, run).procs|
    ensures After(s, run).procs[p] == Returned
  {
    NoneStops(s, run);
    if !Ended(After(s, run).procs[p]) {
      NeverStuck(s, run, p);
    }
  }
}
