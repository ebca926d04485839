/** What every interleaving of the workers keeps. */
module ParallelProofs {
  import opened Parallel

  // ---- The invariant ---------------------------------------------------------------------------

  predicate Holds(p: Phase)
  {
    p == Acquired || p == Running || p.Ran? || p == Leaving
  }

  function Holders(s: State): (h: set<nat>)
    ensures forall i | i in h :: i < |s.phases|
  {
    set i: nat | i < |s.phases| && Holds(s.phases[i])
  }

  /** The task ran to a non-zero exit code. */
  predicate Failed(s: State, i: nat)
  {
    i < |s.results| && s.results[i].Exit? && s.results[i].code != 0
  }

  /** Tasks that failed, or are running and may still fail. */
  function MayFail(s: State): (f: set<nat>)
  {
    set i: nat | i < |s.phases| && (Failed(s, i) || s.phases[i] == Running)
  }

  /** What each worker has written when it is where it is. */
  predicate Written(c: Config, p: Phase, r: Outcome)
  {
    match p
    case NotStarted => r == Unset
    case Waiting => r == Unset
    case Acquired => r == Unset
    case Running => r == Unset
    case Ran(code) => r == Exit(code)
    case Leaving => r.Exit? || (r == Skipped && c.failFast)
    case Done => r.Exit? || (r == Skipped && c.failFast)
  }

  predicate FlagRight(c: Config, s: State)
    requires Shape(c, s)
  {
    && (s.aborted ==> c.failFast && exists i | 0 <= i < c.tasks :: Failed(s, i))
    && (forall i | 0 <= i < c.tasks && s.results[i] == Skipped :: s.aborted)
    // The flag is stored before the slot is released.
    && (c.failFast && !s.aborted ==> forall i | 0 <= i < c.tasks && Failed(s, i) :: s.phases[i].Ran?)
  }

  ghost predicate Inv(c: Config, s: State)
  {
    && Shape(c, s)
    && s.free >= 0
    && s.free + |Holders(s)| == c.slots
    && (forall i | 0 <= i < c.tasks :: Written(c, s.phases[i], s.results[i]))
    && FlagRight(c, s)
    && (c.failFast ==> |MayFail(s)| <= c.slots)
  }

  lemma InitInv(c: Config)
    ensures Inv(c, Init(c))
  {
    assert Holders(Init(c)) == {} && MayFail(Init(c)) == {};
  }

  lemma HoldersMove(c: Config, s: State, a: Action)
    requires Can(c, s, a)
    ensures var h, h' := Holders(s), Holders(Do(c, s, a));
            h' == match a
                  case Acquire(i) => h + {i}
                  case Release(i) => h - {i}
                  case _ => h
    ensures a.Acquire? ==> a.worker !in Holders(s)
    ensures a.Release? ==> a.worker in Holders(s)
  {
  }

  lemma SlotsKept(c: Config, s: State, a: Action)
    requires Inv(c, s) && Can(c, s, a)
    ensures Do(c, s, a).free >= 0 && Do(c, s, a).free + |Holders(Do(c, s, a))| == c.slots
  {
    hide MayFail, Written, FlagRight;
    HoldersMove(c, s, a);
  }

  lemma WrittenKept(c: Config, s: State, a: Action)
    requires Inv(c, s) && Can(c, s, a)
    ensures var s' := Do(c, s, a); forall i | 0 <= i < c.tasks :: Written(c, s'.phases[i], s'.results[i])
  {
    hide MayFail, Holders;
  }

  lemma FlagKept(c: Config, s: State, a: Action)
    requires Inv(c, s) && Can(c, s, a)
    ensures FlagRight(c, Do(c, s, a))
  {
    hide MayFail, Holders;
    var s' := Do(c, s, a);
    if s.aborted {
      var i :| 0 <= i < c.tasks && Failed(s, i);
      assert Failed(s', i);
    } else if s'.aborted {
      assert Failed(s', a.worker);
    }
  }

  lemma SubsetSize(a: set<nat>, b: set<nat>)
    requires a <= b
    ensures |a| <= |b|
  {
    var rest := b - a;
    assert b == a + rest;
  }

  /** No step lets more tasks fail than there are slots: before the flag is stored they all hold a
      slot, and after it no task starts to run. */
  lemma FailuresKept(c: Config, s: State, a: Action)
    requires Inv(c, s) && Can(c, s, a) && c.failFast
    ensures |MayFail(Do(c, s, a))| <= c.slots
  {
    var s' := Do(c, s, a);
    SlotsKept(c, s, a);
    if s.aborted || !a.ReadFlag? {
      assert MayFail(s') <= MayFail(s);
      SubsetSize(MayFail(s'), MayFail(s));
    } else {
      assert MayFail(s') <= Holders(s');
      SubsetSize(MayFail(s'), Holders(s'));
    }
  }

  lemma StepInv(c: Config, s: State, a: Action)
    requires Inv(c, s) && Can(c, s, a)
    ensures Inv(c, Do(c, s, a))
  {
    hide FlagRight, Written, MayFail, Holders, Do;
    SlotsKept(c, s, a);
    WrittenKept(c, s, a);
    FlagKept(c, s, a);
    if c.failFast {
      FailuresKept(c, s, a);
    }
  }

  lemma {:induction false} RunInv(c: Config, s: State, run: seq<Action>)
    requires Inv(c, s) && Possible(c, s, run)
    ensures Inv(c, After(c, s, run))
    decreases |run|
  {
    if run != [] {
      StepInv(c, s, run[0]);
      RunInv(c, Do(c, s, run[0]), run[1..]);
    }
  }

  // ---- Every run -----------------------------------------------------------------------------------

  /** In every interleaving the free slots and the slot holders are the slots there are. */
  lemma SlotsConserved(c: Config, run: seq<Action>)
    requires Possible(c, Init(c), run)
    ensures var s := After(c, Init(c), run); 0 <= s.free && s.free + |Holders(s)| == c.slots
  {
    InitInv(c);
    RunInv(c, Init(c), run);
  }

  /** With fail-fast, in every interleaving no more tasks execute and finish non-zero than there
      are slots. */
  lemma FailFastBound(c: Config, run: seq<Action>)
    requires Possible(c, Init(c), run) && c.failFast
    ensures var s := After(c, Init(c), run); |set i: nat | i < c.tasks && Failed(s, i)| <= c.slots
  {
    InitInv(c);
    RunInv(c, Init(c), run);
    var s := After(c, Init(c), run);
    var failed := set i: nat | i < c.tasks && Failed(s, i);
    assert failed <= MayFail(s);
    SubsetSize(failed, MayFail(s));
  }

  /** When all workers are done every task has a result; one is skipped only under fail-fast and
      when another has failed, and without fail-fast every task was executed. */
  lemma ResultsComplete(c: Config, run: seq<Action>)
    requires Possible(c, Init(c), run) && AllDone(After(c, Init(c), run))
    ensures var s := After(c, Init(c), run);
            && s.free == c.slots
            && (forall i | 0 <= i < c.tasks :: s.results[i].Exit? || s.results[i] == Skipped)
            && (forall i | 0 <= i < c.tasks && s.results[i] == Skipped ::
                  c.failFast && exists k | 0 <= k < c.tasks :: Failed(s, k))
  {
    InitInv(c);
    RunInv(c, Init(c), run);
    var s := After(c, Init(c), run);
    assert Holders(s) == {};
    forall i | 0 <= i < c.tasks ensures s.results[i].Exit? || s.results[i] == Skipped {
      assert Written(c, s.phases[i], s.results[i]);
    }
  }

  // ---- Progress --------------------------------------------------------------------------------------

  function Left(p: Phase): (n: nat)
  {
    match p
    case NotStarted => 6
    case Waiting => 5
    case Acquired => 4
    case Running => 3
    case Ran(_) => 2
    case Leaving => 1
    case Done => 0
  }

  function StepsLeft(phases: seq<Phase>): (n: nat)
    ensures n <= 6 * |phases|
  {
    if phases == [] then 0 else Left(phases[0]) + StepsLeft(phases[1..])
  }

  lemma {:induction false} StepsMove(phases: seq<Phase>, i: nat, p: Phase)
    requires i < |phases| && Left(p) < Left(phases[i])
    ensures StepsLeft(phases[i := p]) < StepsLeft(phases)
  {
    if i > 0 {
      assert phases[i := p][1..] == phases[1..][i - 1 := p];
      StepsMove(phases[1..], i - 1, p);
    } else {
      assert phases[i := p][1..] == phases[1..];
    }
  }

  /** Every interleaving stops: none has more than six steps a task. */
  lemma {:induction false} RunsStop(c: Config, s: State, run: seq<Action>)
    requires Shape(c, s) && Possible(c, s, run)
    ensures |run| <= StepsLeft(s.phases) <= 6 * c.tasks
    decreases |run|
  {
    if run != [] {
      var s' := Do(c, s, run[0]);
      var i := run[0].worker;
      assert s'.phases == s.phases[i := s'.phases[i]];
      StepsMove(s.phases, i, s'.phases[i]);
      RunsStop(c, s', run[1..]);
    }
  }

  /** No interleaving gets stuck: until all workers are done, one of them can take a step. */
  lemma NeverStuck(c: Config, run: seq<Action>)
    requires Possible(c, Init(c), run) && c.slots > 0
    requires !AllDone(After(c, Init(c), run))
    ensures exists a :: Can(c, After(c, Init(c), run), a)
  {
    InitInv(c);
    RunInv(c, Init(c), run);
    var s := After(c, Init(c), run);
    if h :| h in Holders(s) {
      var p := s.phases[h];
      var a := if p == Acquired then ReadFlag(h) else if p == Running then Finish(h, 0)
               else if p == Leaving then Release(h) else StoreFlag(h);
      assert Can(c, s, a);
    } else {
      assert Holders(s) == {};
      assert s.free == c.slots;
      if w: nat :| w < c.tasks && s.phases[w] == Waiting {
        assert Can(c, s, Acquire(w));
      } else {
        var i: nat :| i < c.tasks && s.phases[i] != Done;
        assert i !in Holders(s);
        var first := FirstUnstarted(s.phases, i);
        assert Can(c, s, Spawn(first));
      }
    }
  }

  lemma FirstUnstarted(phases: seq<Phase>, i: nat) returns (first: nat)
    requires i < |phases| && phases[i] == NotStarted
    ensures first <= i && phases[first] == NotStarted
    ensures forall k | 0 <= k < first :: phases[k] != NotStarted
  {
    if k: nat :| k < i && phases[k] == NotStarted {
      first := FirstUnstarted(phases, k);
    } else {
      first := i;
    }
  }

  // ---- The bound is reached -----------------------------------------------------------------------------

  function Prefix(k: nat): (run: seq<Action>)
  {
    if k == 0 then []
    else Prefix(k - 1) + [Spawn(k - 1), Acquire(k - 1), ReadFlag(k - 1), Finish(k - 1, 1)]
  }

  lemma {:induction false} Then(c: Config, s: State, run: seq<Action>, more: seq<Action>)
    requires Shape(c, s) && Possible(c, s, run) && Possible(c, After(c, s, run), more)
    ensures Possible(c, s, run + more)
    ensures After(c, s, run + more) == After(c, After(c, s, run), more)
    decreases |run|
  {
    if run == [] {
      assert run + more == more;
    } else {
      assert (run + more)[1..] == run[1..] + more;
      Then(c, Do(c, s, run[0]), run[1..], more);
    }
  }

  lemma First(c: Config, s: State, a: Action, rest: seq<Action>)
    requires Can(c, s, a) && Possible(c, Do(c, s, a), rest)
    ensures Possible(c, s, [a] + rest) && After(c, s, [a] + rest) == After(c, Do(c, s, a), rest)
  {
    assert ([a] + rest)[1..] == rest;
  }

  /** As many tasks as there are slots can all fail, so the bound cannot be lowered. */
  lemma {:induction false} BoundReached(c: Config, k: nat)
    requires k <= c.slots <= c.tasks
    ensures Possible(c, Init(c), Prefix(k))
    ensures var s := After(c, Init(c), Prefix(k));
            && s.free == c.slots - k && !s.aborted
            && (forall i | 0 <= i < c.tasks :: s.phases[i] == if i < k then Ran(1) else NotStarted)
            && (forall i | 0 <= i < k :: Failed(s, i))
  {
    if k > 0 {
      BoundReached(c, k - 1);
      var s := After(c, Init(c), Prefix(k - 1));
      var w := k - 1;
      var s1 := Do(c, s, Spawn(w));
      var s2 := Do(c, s1, Acquire(w));
      var s3 := Do(c, s2, ReadFlag(w));
      hide Possible, After;
      FirstLast(c, s3, Finish(w, 1));
      First(c, s2, ReadFlag(w), [Finish(w, 1)]);
      First(c, s1, Acquire(w), [ReadFlag(w), Finish(w, 1)]);
      First(c, s, Spawn(w), [Acquire(w), ReadFlag(w), Finish(w, 1)]);
      Then(c, Init(c), Prefix(k - 1), [Spawn(w), Acquire(w), ReadFlag(w), Finish(w, 1)]);
      var end := After(c, Init(c), Prefix(k));
      forall i | 0 <= i < k ensures Failed(end, i) {
        assert i < w ==> Failed(s, i) && end.results[i] == s.results[i];
      }
    }
  }

  lemma FirstLast(c: Config, s: State, a: Action)
    requires Can(c, s, a)
    ensures Possible(c, s, [a]) && After(c, s, [a]) == Do(c, s, a)
  {
    assert [a][1..] == [];
  }
}
