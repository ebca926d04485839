/** Schema migrations by any number of processes on one database. A process is a list of atomic
    steps; every interleaving of the processes is a list of actions. */
module Migrator {
  import opened Wrappers

  // ---- State and steps -----------------------------------------------------------------------

  /** What the database holds: its user version, and which migrations' statements have run on it,
      as positions in the migration list. */
  datatype Store = Store(version: int, applied: seq<nat>)

  /** Where a process is in its loop: `k` is the migration it looks at, `current` the version it
      read when it started. From `Locked` to `Versioned` it holds the write lock. */
  datatype Pc =
    | Start
    | At(k: nat, current: int)
    | Locked(k: nat, current: int)
    | Pending(k: nat, current: int)
    | Altered(k: nat, current: int)
    | Versioned(k: nat, current: int)
    | Returned
    | Stopped

  datatype Action =
    | ReadVersion(p: nat)
    | Skip(p: nat)
    | Begin(p: nat)
    | Recheck(p: nat)
    | RunSql(p: nat)
    | SetVersion(p: nat)
    | Commit(p: nat)
    | Return(p: nat)
    | Fail(p: nat)

  /** The open write transaction: who holds the lock, and what it sees and has written. */
  datatype Transaction = Transaction(owner: nat, work: Store)

  /** `migs` lists the migrations' versions. */
  datatype State = State(migs: seq<int>, store: Store, tx: Option<Transaction>, procs: seq<Pc>)

  predicate Ascending(migs: seq<int>)
  {
    forall i, j | 0 <= i < j < |migs| :: migs[i] <= migs[j]
  }

  predicate InTransaction(pc: Pc)
  {
    pc.Locked? || pc.Pending? || pc.Altered? || pc.Versioned?
  }

  predicate Owns(s: State, p: nat)
  {
    s.tx.Some? && s.tx.value.owner == p
  }

  predicate Can(s: State, a: Action)
  {
    && a.p < |s.procs|
    && var pc := s.procs[a.p];
       match a
       case ReadVersion(_) => pc == Start
       case Skip(_) => pc.At? && pc.k < |s.migs| && s.migs[pc.k] <= pc.current
       case Begin(_) => pc.At? && pc.k < |s.migs| && s.migs[pc.k] > pc.current && s.tx == None
       case Recheck(p) => pc.Locked? && pc.k < |s.migs| && Owns(s, p)
       case RunSql(p) => pc.Pending? && Owns(s, p)
       case SetVersion(p) => pc.Altered? && pc.k < |s.migs| && Owns(s, p)
       case Commit(p) => pc.Versioned? && Owns(s, p)
       case Return(_) => pc.At? && pc.k == |s.migs|
       case Fail(_) => pc != Returned && pc != Stopped
  }

  function Ran(work: Store, k: nat): Store { work.(applied := work.applied + [k]) }

  function Stamped(work: Store, version: int): Store { work.(version := version) }

  function To(s: State, p: nat, pc: Pc): State
    requires p < |s.procs|
  {
    s.(procs := s.procs[p := pc])
  }

  /** One step. `Begin` takes the lock and the store's present content; a process that fails, or
      dies, in a transaction rolls it back. */
  function Do(s: State, a: Action): (s': State)
    requires Can(s, a)
  {
    var p, pc := a.p, s.procs[a.p];
    match a
    case ReadVersion(_) => To(s, p, At(0, s.store.version))
    case Skip(_) => To(s, p, At(pc.k + 1, pc.current))
    case Begin(_) => To(s, p, Locked(pc.k, pc.current)).(tx := Some(Transaction(p, s.store)))
    case Recheck(_) =>
      if s.tx.value.work.version >= s.migs[pc.k] then To(s, p, At(pc.k + 1, pc.current)).(tx := None)
      else To(s, p, Pending(pc.k, pc.current))
    case RunSql(_) => To(s, p, Altered(pc.k, pc.current)).(tx := Some(Transaction(p, Ran(s.tx.value.work, pc.k))))
    case SetVersion(_) =>
      To(s, p, Versioned(pc.k, pc.current)).(tx := Some(Transaction(p, Stamped(s.tx.value.work, s.migs[pc.k]))))
    case Commit(_) => To(s, p, At(pc.k + 1, pc.current)).(tx := None, store := s.tx.value.work)
    case Return(_) => To(s, p, Returned)
    case Fail(_) => To(s, p, Stopped).(tx := if InTransaction(pc) then None else s.tx)
  }

  predicate Possible(s: State, run: seq<Action>)
    decreases |run|
  {
    run == [] || (Can(s, run[0]) && Possible(Do(s, run[0]), run[1..]))
  }

  function After(s: State, run: seq<Action>): (s': State)
    requires Possible(s, run)
    decreases |run|
  {
    if run == [] then s else After(Do(s, run[0]), run[1..])
  }

  lemma {:induction false} OneMore(s: State, run: seq<Action>, a: Action)
    requires Possible(s, run) && Can(After(s, run), a)
    ensures Possible(s, run + [a]) && After(s, run + [a]) == Do(After(s, run), a)
    decreases |run|
  {
    if run == [] {
      assert run + [a] == [a] && [a][1..] == [];
    } else {
      assert (run + [a])[1..] == run[1..] + [a];
      OneMore(Do(s, run[0]), run[1..], a);
    }
  }

  // ---- The migrating process ---------------------------------------------------------------------

  /** A process's connection. Statements may fail at any time; `failed` records that one has. `run`
      records the process's steps since it started to migrate. */
  class Connection {
    ghost const me: nat
    var migs: seq<int>
    var store: Store
    var work: Option<Store>
    ghost var procs: seq<Pc>
    ghost var begun: State
    ghost var run: seq<Action>
    ghost var failed: bool

    ghost function View(): State
      reads this
    {
      State(migs, store, if work.Some? then Some(Transaction(me, work.value)) else None, procs)
    }

    /** The steps recorded so far lead from where the process began to where it is. */
    ghost predicate Traced()
      reads this
    {
      me < |procs| && Possible(begun, run) && After(begun, run) == View()
    }

    ghost predicate Is(pc: Pc)
      reads this
    {
      Traced() && procs[me] == pc && (work.Some? <==> InTransaction(pc))
    }

    ghost method Take(a: Action)
      requires Traced() && a.p == me && Can(View(), a)
      modifies `run, `procs
      ensures run == old(run) + [a] && Possible(begun, run)
      ensures After(begun, run) == Do(old(View()), a)
      ensures procs == Do(old(View()), a).procs
    {
      OneMore(begun, run, a);
      run := run + [a];
      procs := Do(View(), a).procs;
    }

    /** Whether the next statement succeeds is up to the database. */
    method Attempt(ghost pc: Pc) returns (ok: bool)
      requires Is(pc)
      modifies `failed
      ensures Is(pc) && begun == old(begun) && migs == old(migs)
      ensures failed <==> old(failed) || !ok
    {
      ok := *;
      failed := failed || !ok;
    }

    /** A statement fails: the transaction, if one is open, is rolled back. */
    method Throw(ghost pc: Pc)
      requires Is(pc) && pc != Returned && pc != Stopped
      modifies this
      ensures Is(Stopped) && begun == old(begun) && migs == old(migs) && failed == old(failed)
    {
      Take(Fail(me));
      work := None;
    }

    method BeginImmediate(k: nat, ghost current: int)
      requires k < |migs| && migs[k] > current && Is(At(k, current))
      modifies this
      ensures Is(Locked(k, current)) && begun == old(begun) && migs == old(migs) && failed == old(failed)
      ensures work == Some(store)
    {
      Take(Begin(me));
      work := Some(store);
    }

    /** Read the version again under the lock, and commit when there is nothing to do. */
    method AlreadyApplied(k: nat, ghost current: int) returns (yes: bool)
      requires k < |migs| && Is(Locked(k, current))
      modifies this
      ensures Is(if yes then At(k + 1, current) else Pending(k, current))
      ensures begun == old(begun) && migs == old(migs) && failed == old(failed)
      ensures yes == (old(work).value.version >= migs[k])
    {
      Take(Recheck(me));
      yes := work.value.version >= migs[k];
      if yes { work := None; }
    }

    method RunStatements(k: nat, ghost current: int)
      requires Is(Pending(k, current))
      modifies this
      ensures Is(Altered(k, current)) && begun == old(begun) && migs == old(migs) && failed == old(failed)
    {
      Take(RunSql(me));
      work := Some(work.value.(applied := work.value.applied + [k]));
    }

    method SetUserVersion(k: nat, ghost current: int)
      requires k < |migs| && Is(Altered(k, current))
      modifies this
      ensures Is(Versioned(k, current)) && begun == old(begun) && migs == old(migs) && failed == old(failed)
    {
      Take(SetVersion(me));
      work := Some(work.value.(version := migs[k]));
    }

    method CommitWork(k: nat, ghost current: int)
      requires Is(Versioned(k, current))
      modifies this
      ensures Is(At(k + 1, current)) && begun == old(begun) && migs == old(migs) && failed == old(failed)
      ensures store == old(work).value && work == None
    {
      Take(Commit(me));
      store := work.value;
      work := None;
    }

    /** Apply migration `k` under the write lock, unless the version read again there is not
        below it. It stops exactly when a statement fails. */
    method Apply(k: nat, ghost current: int) returns (ok: bool)
      requires k < |migs| && migs[k] > current && Is(At(k, current)) && !failed
      modifies this
      ensures begun == old(begun) && migs == old(migs)
      ensures Is(if ok then At(k + 1, current) else Stopped) && (ok <==> !failed)
    {
      hide *;
      ok := Attempt(At(k, current));
      if !ok { Throw(At(k, current)); return; }
      BeginImmediate(k, current);
      ok := Attempt(Locked(k, current));
      if !ok { Throw(Locked(k, current)); return; }
      var done := AlreadyApplied(k, current);
      if done { return; }
      ok := Attempt(Pending(k, current));
      if !ok { Throw(Pending(k, current)); return; }
      RunStatements(k, current);
      ok := Attempt(Altered(k, current));
      if !ok { Throw(Altered(k, current)); return; }
      SetUserVersion(k, current);
      ok := Attempt(Versioned(k, current));
      if !ok { Throw(Versioned(k, current)); return; }
      CommitWork(k, current);
    }

    /** Migrate: every step is one the step system allows this process, and the process ends
        having returned, or having stopped if and only if a statement failed. */
    method RunAll() returns (ok: bool)
      requires Is(Start) && run == [] && begun == View() && !failed
      modifies this
      ensures begun == old(begun) && migs == old(migs)
      ensures Is(if ok then Returned else Stopped) && (ok <==> !failed)
    {
      hide *;
      var current := ReadStored();
      var k := 0;
      while k < |migs|
        invariant k <= |migs|
        invariant Is(At(k, current)) && begun == old(begun) && migs == old(migs) && !failed
      {
        if migs[k] <= current {
          SkipOne(k, current);
        } else {
          ok := Apply(k, current);
          if !ok { return; }
        }
        k := k + 1;
      }
      Finish(current);
      ok := true;
    }

    method ReadStored() returns (current: int)
      requires Is(Start)
      modifies `run, `procs
      ensures Is(At(0, current)) && current == store.version
    {
      Take(ReadVersion(me));
      current := store.version;
    }

    ghost method SkipOne(k: nat, current: int)
      requires k < |migs| && migs[k] <= current && Is(At(k, current))
      modifies `run, `procs
      ensures Is(At(k + 1, current))
    {
      Take(Skip(me));
    }

    ghost method Finish(current: int)
      requires Is(At(|migs|, current))
      modifies `run, `procs
      ensures Is(Returned)
    {
      Take(Return(me));
    }
  }
}
