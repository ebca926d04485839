/** The worker threads and the thread that starts and joins them, with other threads' steps in
    between: whatever they do is a run of the step system. */
module ParallelPool {
  import opened Parallel
  import opened ParallelProofs

  /** The number of slots. */
  method EffectiveConcurrency(requested: int, hardware: nat, tasks: nat) returns (slots: int)
    requires tasks > 0
    ensures 1 <= slots <= 32 && slots <= tasks
    ensures 1 <= requested && requested <= 32 && requested <= tasks ==> slots == requested
    ensures requested > 0 && slots < requested ==> slots == 32 || slots == tasks
    ensures requested <= 0 && slots < (if hardware > 0 then hardware else 4) ==> slots == 32 || slots == tasks
    ensures requested <= 0 ==> slots <= (if hardware > 0 then hardware else 4)
  {
    slots := requested;
    if slots <= 0 {
      slots := if hardware > 0 then hardware else 4;
    }
    if slots > 32 { slots := 32; }
    if tasks < slots { slots := tasks; }
  }

  // ---- What a step leaves as it was -------------------------------------------------------------

  /** Who has started stays started, and who is done stays done. */
  predicate Later(s: State, s': State)
  {
    && |s'.phases| == |s.phases|
    && forall k | 0 <= k < |s.phases| ::
         && (s.phases[k] != NotStarted ==> s'.phases[k] != NotStarted)
         && (s.phases[k] == Done ==> s'.phases[k] == Done)
  }

  lemma StepLater(c: Config, s: State, a: Action)
    requires Can(c, s, a)
    ensures Later(s, Do(c, s, a)) && StepsLeft(Do(c, s, a).phases) < StepsLeft(s.phases)
    ensures forall k | 0 <= k < c.tasks && k != a.worker ::
              Do(c, s, a).phases[k] == s.phases[k] && Do(c, s, a).results[k] == s.results[k]
  {
    var s', i := Do(c, s, a), a.worker;
    assert s'.phases == s.phases[i := s'.phases[i]];
    StepsMove(s.phases, i, s'.phases[i]);
  }

  lemma LaterStill(s: State, t: State, u: State)
    requires Later(s, t) && Later(t, u)
    ensures Later(s, u)
  {
  }

  /** A command ends with the exit code it has. */
  predicate Honest(a: Action, codes: seq<int>)
  {
    a.Finish? ==> a.worker < |codes| && a.code == codes[a.worker]
  }

  /** The same step, with the command's own exit code. */
  function WithCode(a: Action, codes: seq<int>): (b: Action)
    requires a.worker < |codes|
    ensures Honest(b, codes) && b.worker == a.worker && b.Spawn? == a.Spawn?
  {
    if a.Finish? then Finish(a.worker, codes[a.worker]) else a
  }

  lemma CanWithCode(c: Config, s: State, a: Action, codes: seq<int>)
    requires Can(c, s, a) && |codes| == c.tasks
    ensures Can(c, s, WithCode(a, codes))
  {
  }

  /** While no slot is free and worker `i` waits, another worker can step. */
  lemma OtherCanStep(c: Config, run: seq<Action>, i: nat) returns (a: Action)
    requires Possible(c, Init(c), run) && c.slots > 0
    requires var s := After(c, Init(c), run); i < c.tasks && s.phases[i] == Waiting && s.free <= 0
    ensures Can(c, After(c, Init(c), run), a) && a.worker != i && !a.Spawn?
  {
    InitInv(c);
    RunInv(c, Init(c), run);
    var s := After(c, Init(c), run);
    assert Holders(s) != {};
    var h :| h in Holders(s);
    var p := s.phases[h];
    a := if p == Acquired then ReadFlag(h) else if p == Running then Finish(h, 0)
         else if p == Leaving then Release(h) else StoreFlag(h);
  }

  /** When every worker has started, one that is not done leaves some worker a step. */
  lemma WorkerCanStep(c: Config, run: seq<Action>, i: nat) returns (a: Action)
    requires Possible(c, Init(c), run) && c.slots > 0
    requires var s := After(c, Init(c), run);
             i < c.tasks && s.phases[i] != Done && forall k | 0 <= k < c.tasks :: s.phases[k] != NotStarted
    ensures Can(c, After(c, Init(c), run), a) && !a.Spawn?
  {
    NeverStuck(c, run);
    a :| Can(c, After(c, Init(c), run), a);
  }

  /** A run with one more step. */
  lemma {:induction false} OneMore(c: Config, s: State, run: seq<Action>, a: Action)
    requires Shape(c, s) && Possible(c, s, run) && Can(c, After(c, s, run), a)
    ensures Possible(c, s, run + [a]) && After(c, s, run + [a]) == Do(c, After(c, s, run), a)
  {
    FirstLast(c, After(c, s, run), a);
    Then(c, s, run, [a]);
  }

  // ---- The pool ---------------------------------------------------------------------------------------

  /** The variables the threads share. `run` records every step of every thread. */
  class Pool {
    const config: Config
    /** The exit codes of the commands. */
    const codes: seq<int>
    var count: int
    var abortFlag: bool
    var results: seq<Outcome>
    var phases: seq<Phase>
    ghost var run: seq<Action>

    function View(): State
      reads this
    {
      State(phases, count, abortFlag, results)
    }

    /** The steps recorded so far are a possible run, and lead to the present state. */
    ghost predicate Reached()
      reads this
    {
      && Shape(config, Init(config)) && Possible(config, Init(config), run)
      && After(config, Init(config), run) == View()
      && (config.tasks > 0 ==> config.slots > 0)
      && |codes| == config.tasks
      && forall k | 0 <= k < |results| && results[k].Exit? :: k < |codes| && results[k].code == codes[k]
    }

    /** Worker `i` is at `p`. */
    ghost predicate At(i: nat, p: Phase)
      reads this
    {
      Reached() && i < |phases| && phases[i] == p
    }

    constructor (codes: seq<int>, requested: int, hardware: nat, failFast: bool)
      ensures this.codes == codes && config.tasks == |codes| && config.failFast == failFast
      ensures var tasks := |codes|;
              tasks > 0 ==> 1 <= config.slots <= 32 && config.slots <= tasks
      ensures View() == Init(config) && run == [] && Reached()
    {
      var tasks := |codes|;
      this.codes := codes;
      var slots := 0;
      if tasks > 0 {
        slots := EffectiveConcurrency(requested, hardware, tasks);
      }
      config := Config(tasks, slots, failFast);
      count := slots;
      abortFlag := false;
      results := seq(tasks, i => Unset);
      phases := seq(tasks, i => NotStarted);
      run := [];
    }

    ghost method Record(a: Action)
      requires Reached() && Can(config, View(), a)
      modifies `run
      ensures run == old(run) + [a]
      ensures Possible(config, Init(config), run)
      ensures After(config, Init(config), run) == Do(config, View(), a)
    {
      OneMore(config, Init(config), run, a);
      run := run + [a];
    }

    // ---- One atomic step of one thread -----------------------------------------------------------------

    method SpawnNext(i: nat)
      requires Reached() && Can(config, View(), Spawn(i))
      modifies `phases, `run
      ensures At(i, Waiting) && View() == Do(config, old(View()), Spawn(i))
    {
      Record(Spawn(i));
      phases := phases[i := Waiting];
    }

    method AcquireSlot(i: nat)
      requires At(i, Waiting) && count > 0
      modifies `phases, `count, `run
      ensures At(i, Acquired) && View() == Do(config, old(View()), Acquire(i))
    {
      Record(Acquire(i));
      count := count - 1;
      phases := phases[i := Acquired];
    }

    method LoadFlag(i: nat) returns (skip: bool)
      requires At(i, Acquired)
      modifies `phases, `results, `run
      ensures At(i, if skip then Leaving else Running) && View() == Do(config, old(View()), ReadFlag(i))
      ensures skip <==> config.failFast && old(abortFlag)
      ensures skip ==> results[i] == Skipped
    {
      Record(ReadFlag(i));
      skip := config.failFast && abortFlag;
      if skip {
        results := results[i := Skipped];
        phases := phases[i := Leaving];
      } else {
        phases := phases[i := Running];
      }
    }

    method RecordExit(i: nat, code: int)
      requires At(i, Running) && i < |codes| && code == codes[i]
      modifies `phases, `results, `run
      ensures At(i, Ran(code)) && View() == Do(config, old(View()), Finish(i, code))
      ensures results[i] == Exit(code)
    {
      Record(Finish(i, code));
      results := results[i := Exit(code)];
      phases := phases[i := Ran(code)];
    }

    method RaiseFlag(i: nat, code: int)
      requires At(i, Ran(code))
      modifies `phases, `abortFlag, `run
      ensures At(i, Leaving) && View() == Do(config, old(View()), StoreFlag(i))
    {
      Record(StoreFlag(i));
      if config.failFast && code != 0 {
        abortFlag := true;
      }
      phases := phases[i := Leaving];
    }

    method ReleaseSlot(i: nat)
      requires At(i, Leaving)
      modifies `phases, `count, `run
      ensures At(i, Done) && View() == Do(config, old(View()), Release(i))
    {
      Record(Release(i));
      count := count + 1;
      phases := phases[i := Done];
    }

    method Perform(a: Action)
      requires Reached() && Can(config, View(), a) && Honest(a, codes)
      modifies this
      ensures Reached() && View() == Do(config, old(View()), a)
    {
      match a {
        case Spawn(i) => SpawnNext(i);
        case Acquire(i) => AcquireSlot(i);
        case ReadFlag(i) => var _ := LoadFlag(i);
        case Finish(i, code) => RecordExit(i, code);
        case StoreFlag(i) => RaiseFlag(i, phases[i].code);
        case Release(i) => ReleaseSlot(i);
      }
    }

    // ---- What the other threads do in between --------------------------------------------------------------

    /** One step of any thread but worker `i`, which waits while no slot is free. */
    method OtherStep(i: nat)
      requires At(i, Waiting) && count <= 0
      modifies this
      ensures At(i, Waiting) && StepsLeft(phases) < StepsLeft(old(phases)) && results[i] == old(results[i])
    {
      ghost var b := OtherCanStep(config, run, i);
      CanWithCode(config, View(), b, codes);
      assert Can(config, View(), WithCode(b, codes)) && WithCode(b, codes).worker != i;
      var a :| Can(config, View(), a) && a.worker != i && Honest(a, codes);
      StepLater(config, View(), a);
      Perform(a);
    }

    /** One step of any worker, while worker `i` is not done. */
    method AnyStep(i: nat)
      requires Reached() && i < |phases| && phases[i] != Done
      requires forall k | 0 <= k < |phases| :: phases[k] != NotStarted
      modifies this
      ensures Reached() && Later(old(View()), View()) && StepsLeft(phases) < StepsLeft(old(phases))
    {
      ghost var b := WorkerCanStep(config, run, i);
      CanWithCode(config, View(), b, codes);
      assert Can(config, View(), WithCode(b, codes)) && !WithCode(b, codes).Spawn?;
      var a :| Can(config, View(), a) && !a.Spawn? && Honest(a, codes);
      StepLater(config, View(), a);
      Perform(a);
    }

    /** Any number of steps of any threads but worker `i`. */
    method Others(i: nat)
      requires Reached() && i < |phases|
      modifies this
      ensures At(i, old(phases[i])) && results[i] == old(results[i])
      ensures StepsLeft(phases) <= StepsLeft(old(phases))
    {
      ghost var s := View();
      while *
        invariant At(i, s.phases[i]) && results[i] == s.results[i] && |s.phases| == |s.results| == config.tasks
        invariant StepsLeft(phases) <= StepsLeft(s.phases)
        decreases StepsLeft(phases)
      {
        var a: Action := *;
        if !Can(config, View(), a) || a.worker == i || !Honest(a, codes) { break; }
        StepLater(config, View(), a);
        Perform(a);
      }
    }

    /** Any number of steps of workers, but not of the thread that starts them. */
    method Workers()
      requires Reached()
      modifies this
      ensures Reached() && Later(old(View()), View())
      ensures forall k | 0 <= k < |phases| && old(phases)[k] == NotStarted :: phases[k] == NotStarted
    {
      ghost var s := View();
      while *
        invariant Reached() && Later(s, View())
        invariant forall k | 0 <= k < |phases| && s.phases[k] == NotStarted :: phases[k] == NotStarted
        decreases StepsLeft(phases)
      {
        var a: Action := *;
        if !Can(config, View(), a) || a.Spawn? || !Honest(a, codes) { break; }
        StepLater(config, View(), a);
        LaterStill(s, View(), Do(config, View(), a));
        Perform(a);
      }
    }

    // ---- The threads ------------------------------------------------------------------------------------------

    /** Take a slot, waiting until one is free. */
    method Wait(i: nat)
      requires At(i, Waiting)
      modifies this
      ensures At(i, Acquired)
    {
      hide *;
      InRange(i, Waiting);
      Others(i);
      while count <= 0
        invariant At(i, Waiting)
        decreases StepsLeft(phases)
      {
        OtherStep(i);
        InRange(i, Waiting);
        Others(i);
      }
      AcquireSlot(i);
    }

    lemma InRange(i: nat, p: Phase)
      requires At(i, p)
      ensures Reached() && i < |phases| && phases[i] == p && |results| == |phases| == config.tasks == |codes|
    {
    }

    /** The body of worker `i`: take a slot; skip the task if one has failed, or run it, record its
        exit code and raise the flag if it failed; give the slot back. */
    method Work(i: nat)
      requires At(i, Waiting)
      modifies this
      ensures At(i, Done)
      ensures results[i] == Exit(codes[i]) || (results[i] == Skipped && config.failFast)
    {
      hide *;
      InRange(i, Waiting);
      Wait(i);
      InRange(i, Acquired);
      Others(i);
      var skip := LoadFlag(i);
      if skip {
        InRange(i, Leaving);
        Others(i);
        ReleaseSlot(i);
        return;
      }
      InRange(i, Running);
      Others(i);
      var code := codes[i];
      RecordExit(i, code);
      InRange(i, Ran(code));
      Others(i);
      RaiseFlag(i, code);
      InRange(i, Leaving);
      Others(i);
      ReleaseSlot(i);
    }

    /** Start all workers and join them in order. */
    method RunAll() returns (r: seq<Outcome>)
      requires Reached() && View() == Init(config)
      modifies this
      ensures Reached() && AllDone(View()) && count == config.slots && r == results && |r| == config.tasks
      ensures forall k | 0 <= k < |r| :: r[k] == Exit(codes[k]) || (r[k] == Skipped && config.failFast)
      ensures (exists k | 0 <= k < |r| :: r[k] == Skipped) ==>
                exists k | 0 <= k < |r| :: r[k] == Exit(codes[k]) && codes[k] != 0
      ensures config.failFast ==> |set k: nat | k < |r| && r[k].Exit? && r[k].code != 0| <= config.slots
    {
      StartAll();
      JoinAll();
      Finished();
      r := results;
    }

    method StartAll()
      requires Reached() && View() == Init(config)
      modifies this
      ensures Reached() && |phases| == config.tasks && forall k | 0 <= k < |phases| :: phases[k] != NotStarted
    {
      for i := 0 to config.tasks
        invariant Reached() && |phases| == config.tasks
        invariant forall k | 0 <= k < |phases| :: phases[k] == NotStarted <==> i <= k
      {
        SpawnNext(i);
        Workers();
      }
    }

    method JoinAll()
      requires Reached() && |phases| == config.tasks && forall k | 0 <= k < |phases| :: phases[k] != NotStarted
      modifies this
      ensures Reached() && AllDone(View())
    {
      for i := 0 to config.tasks
        invariant Reached() && |phases| == config.tasks
        invariant forall k | 0 <= k < |phases| :: phases[k] != NotStarted && (k < i ==> phases[k] == Done)
      {
        Join(i);
      }
    }

    /** Wait until worker `i` is done. */
    method Join(i: nat)
      requires Reached() && i < |phases| && forall k | 0 <= k < |phases| :: phases[k] != NotStarted
      modifies this
      ensures At(i, Done) && Later(old(View()), View())
    {
      hide Reached;
      ghost var s := View();
      while phases[i] != Done
        invariant Reached() && Later(s, View())
        decreases StepsLeft(phases)
      {
        ghost var t := View();
        AnyStep(i);
        LaterStill(s, t, View());
      }
    }

    /** What the results say once all workers are done. */
    lemma Finished()
      requires Reached() && AllDone(View())
      ensures count == config.slots && |results| == config.tasks == |codes|
      ensures forall k | 0 <= k < |results| ::
                results[k] == Exit(codes[k]) || (results[k] == Skipped && config.failFast)
      ensures (exists k | 0 <= k < |results| :: results[k] == Skipped) ==>
                exists k | 0 <= k < |results| :: results[k] == Exit(codes[k]) && codes[k] != 0
      ensures config.failFast ==>
                |set k: nat | k < |results| && results[k].Exit? && results[k].code != 0| <= config.slots
    {
      ResultsComplete(config, run);
      if j :| 0 <= j < |results| && results[j] == Skipped {
        var k :| 0 <= k < config.tasks && Failed(View(), k);
        assert results[k] == Exit(codes[k]) && codes[k] != 0;
      }
      if config.failFast {
        FailFastBound(config, run);
        var failed := set k: nat | k < |results| && results[k].Exit? && results[k].code != 0;
        assert failed == set i: nat | i < config.tasks && Failed(View(), i);
      }
    }
  }
}
