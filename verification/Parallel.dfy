/** Running tasks on worker threads behind a counting semaphore, with fail-fast, as a system of
    atomic steps: every interleaving of the workers is a list of actions. */
module Parallel {

  // ---- State and steps ----------------------------------------------------------------------

  /** Where a worker is. From `Acquired` up to the release it holds a slot. */
  datatype Phase =
    | NotStarted
    | Waiting
    | Acquired
    | Running
    | Ran(code: int)
    | Leaving
    | Done

  datatype Outcome = Unset | Skipped | Exit(code: int)

  datatype Config = Config(tasks: nat, slots: nat, failFast: bool)

  datatype State = State(phases: seq<Phase>, free: int, aborted: bool, results: seq<Outcome>)

  datatype Action =
    | Spawn(worker: nat)
    | Acquire(worker: nat)
    | ReadFlag(worker: nat)
    | Finish(worker: nat, code: int)
    | StoreFlag(worker: nat)
    | Release(worker: nat)

  function Init(c: Config): (s: State)
  {
    State(seq(c.tasks, i => NotStarted), c.slots, false, seq(c.tasks, i => Unset))
  }

  predicate Shape(c: Config, s: State)
  {
    |s.phases| == c.tasks && |s.results| == c.tasks
  }

  predicate Can(c: Config, s: State, a: Action)
  {
    && Shape(c, s) && a.worker < c.tasks
    && var p := s.phases[a.worker];
       match a
       case Spawn(i) => p == NotStarted && forall k | 0 <= k < i :: s.phases[k] != NotStarted
       case Acquire(_) => p == Waiting && s.free > 0
       case ReadFlag(_) => p == Acquired
       case Finish(_, _) => p == Running
       case StoreFlag(_) => p.Ran?
       case Release(_) => p == Leaving
  }

  function Move(s: State, i: nat, p: Phase): State
    requires i < |s.phases|
  {
    s.(phases := s.phases[i := p])
  }

  function Do(c: Config, s: State, a: Action): (s': State)
    requires Can(c, s, a)
    ensures Shape(c, s')
  {
    match a
    case Spawn(i) => Move(s, i, Waiting)
    case Acquire(i) => Move(s, i, Acquired).(free := s.free - 1)
    case ReadFlag(i) =>
      if c.failFast && s.aborted then Move(s, i, Leaving).(results := s.results[i := Skipped])
      else Move(s, i, Running)
    case Finish(i, code) => Move(s, i, Ran(code)).(results := s.results[i := Exit(code)])
    case StoreFlag(i) => Move(s, i, Leaving).(aborted := s.aborted || (c.failFast && s.phases[i].code != 0))
    case Release(i) => Move(s, i, Done).(free := s.free + 1)
  }

  predicate Possible(c: Config, s: State, run: seq<Action>)
    requires Shape(c, s)
    decreases |run|
  {
    run == [] || (Can(c, s, run[0]) && Possible(c, Do(c, s, run[0]), run[1..]))
  }

  function After(c: Config, s: State, run: seq<Action>): (s': State)
    requires Shape(c, s) && Possible(c, s, run)
    ensures Shape(c, s')
    decreases |run|
  {
    if run == [] then s else After(c, Do(c, s, run[0]), run[1..])
  }

  predicate AllDone(s: State)
  {
    forall i | 0 <= i < |s.phases| :: s.phases[i] == Done
  }
}
