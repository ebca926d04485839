/** The lock command over the shared log, and which runs of claims, refreshes and releases keep a
    scope to one owner. */
module LeaseLog {
  import T = Text
  import opened Wrappers
  import opened AgentLease

  /** A claim is live if beaten within five minutes. */
  const TTL := 300

  // ---- The command -------------------------------------------------------------------------------

  class LockFile {
    var lines: seq<string>

    function Log(): (log: seq<Lease>)
      reads this
    {
      Read(lines)
    }

    constructor ()
      ensures lines == []
    {
      lines := [];
    }

    method Append(l: Lease)
      modifies this
      ensures lines == old(lines) + [LeaseToLine(l)]
      ensures '\t' !in l.owner.host && l.scope != "" && T.Fits(l.owner.pid, 64) && T.Fits(l.beat, 64) ==>
                Log() == old(Log()) + [l]
    {
      lines := lines + [LeaseToLine(l)];
      LineRoundTrip(l);
      assert lines[..|lines| - 1] == old(lines);
    }

    /** A granted claim is appended to the log; a denied one leaves it alone. */
    method Claim(scope: string, me: string, now: int) returns (r: Option<ClaimResult>)
      modifies this
      ensures r.None? <==> scope == ""
      ensures r.Some? ==> r.value == ClaimOn(old(Log()), scope, Owner(0, me), now, TTL)
      ensures lines == old(lines) + if r == Some(Granted) then [LeaseToLine(Lease(scope, Owner(0, me), now))] else []
      ensures '\t' !in me && scope != "" && T.Fits(now, 64) ==>
                Log() == Apply(old(Log()), Op.Claim(scope, Owner(0, me), now), TTL)
    {
      if scope == "" { return None; }
      var all := ReadAll();
      var held := LastPerScope(all);
      var result := ResolveClaim(held, scope, Owner(0, me), now, TTL);
      ClaimAgainstLog(held, all, scope, Owner(0, me), now, TTL);
      if result == Granted {
        Append(Lease(scope, Owner(0, me), now));
      }
      r := Some(result);
    }

    /** A release appends a tombstone, whoever holds the scope. */
    method Release(scope: string, me: string, now: int) returns (ok: bool)
      modifies this
      ensures ok == (scope != "")
      ensures !ok ==> lines == old(lines)
      ensures '\t' !in me && ok ==> Log() == Apply(old(Log()), Op.Release(scope, Owner(0, me), now), TTL)
    {
      if scope == "" { return false; }
      Append(Lease(scope, Owner(0, me), 0));
      ok := true;
    }

    method ReadAll() returns (v: seq<Lease>)
      ensures v == Log()
    {
      v := [];
      assert lines[..0] == [];
      for i := 0 to |lines|
        invariant v == Read(lines[..i])
      {
        assert lines[..i + 1][..i] == lines[..i];
        var l := LeaseFromLine(lines[i]);
        if l.Some? { v := v + [l.value]; }
      }
      assert lines[..|lines|] == lines;
    }
  }

  // ---- Runs over the log -------------------------------------------------------------------------------

  datatype Op =
    | Claim(scope: string, who: Owner, now: int)
    | Release(scope: string, who: Owner, now: int)

  function ClaimOn(log: seq<Lease>, scope: string, me: Owner, now: int, stale: int): (r: ClaimResult)
  {
    match LastOf(log, scope)
    case None => Granted
    case Some(l) => if l.owner == me || now - l.beat > stale then Granted else Denied(l.owner)
  }

  /** Each claim reads and appends as one step. */
  function Apply(log: seq<Lease>, op: Op, stale: int): (log': seq<Lease>)
  {
    match op
    case Claim(scope, who, now) =>
      if ClaimOn(log, scope, who, now, stale) == Granted then log + [Lease(scope, who, now)] else log
    case Release(scope, who, _) => log + [Lease(scope, who, 0)]
  }

  /** An owner's last entry on a scope. */
  function OwnLast(log: seq<Lease>, scope: string, who: Owner): (l: Option<Lease>)
  {
    if log == [] then None
    else
      var l := log[|log| - 1];
      if l.scope == scope && l.owner == who then Some(l) else OwnLast(log[..|log| - 1], scope, who)
  }

  predicate Live(log: seq<Lease>, scope: string, who: Owner, now: int, stale: int)
  {
    var l := OwnLast(log, scope, who);
    l.Some? && now - l.value.beat <= stale
  }

  /** The guard a release would need: no other owner is live on the scope. */
  ghost predicate Orderly(log: seq<Lease>, op: Op, stale: int)
  {
    op.Release? ==> forall o | o != op.who :: !Live(log, op.scope, o, op.now, stale)
  }

  /** Whoever is live on the scope wrote its last entry. */
  ghost predicate Single(log: seq<Lease>, scope: string, now: int, stale: int)
  {
    forall o | Live(log, scope, o, now, stale) :: LastOf(log, scope).Some? && LastOf(log, scope).value.owner == o
  }

  ghost predicate AllSingle(log: seq<Lease>, now: int, stale: int)
  {
    forall scope :: Single(log, scope, now, stale)
  }

  /** From `now` on, no claim is granted while another owner is live on the scope. */
  ghost predicate Exclusive(log: seq<Lease>, scope: string, now: int, stale: int)
  {
    forall who, o, t | now <= t && who != o && ClaimOn(log, scope, who, t, stale) == Granted ::
      !Live(log, scope, o, t, stale)
  }

  lemma OwnLastMore(log: seq<Lease>, l: Lease, scope: string, who: Owner)
    ensures OwnLast(log + [l], scope, who) ==
            if l.scope == scope && l.owner == who then Some(l) else OwnLast(log, scope, who)
  {
    assert (log + [l])[..|log|] == log;
  }

  lemma {:induction false} LastIsOwn(log: seq<Lease>, scope: string)
    requires LastOf(log, scope).Some?
    ensures OwnLast(log, scope, LastOf(log, scope).value.owner) == LastOf(log, scope)
  {
    if log[|log| - 1].scope != scope {
      LastIsOwn(log[..|log| - 1], scope);
    }
  }

  /** One live owner at most, who wrote the last entry, is the same as exclusion from now on. */
  lemma SingleIsExclusive(log: seq<Lease>, scope: string, now: int, stale: int)
    ensures Single(log, scope, now, stale) <==> Exclusive(log, scope, now, stale)
  {
    if Single(log, scope, now, stale) {
      forall who, o, t | now <= t && who != o && ClaimOn(log, scope, who, t, stale) == Granted
        ensures !Live(log, scope, o, t, stale)
      {
        if Live(log, scope, o, t, stale) {
          assert Live(log, scope, o, now, stale);
          LastIsOwn(log, scope);
        }
      }
    }
    if Exclusive(log, scope, now, stale) {
      forall o | Live(log, scope, o, now, stale)
        ensures LastOf(log, scope).Some? && LastOf(log, scope).value.owner == o
      {
        OwnHasLast(log, scope, o);
        var who := LastOf(log, scope).value.owner;
        assert ClaimOn(log, scope, who, now, stale) == Granted;
      }
    }
  }

  lemma {:induction false} OwnHasLast(log: seq<Lease>, scope: string, o: Owner)
    requires OwnLast(log, scope, o).Some?
    ensures LastOf(log, scope).Some?
  {
    var l := log[|log| - 1];
    if l.scope != scope {
      OwnHasLast(log[..|log| - 1], scope, o);
    }
  }

  // ---- One step ---------------------------------------------------------------------------------------

  lemma SingleAppend(log: seq<Lease>, l: Lease, scope: string, now: int, stale: int)
    ensures Single(log + [l], scope, now, stale) <==>
            if l.scope == scope then forall o | o != l.owner :: !Live(log, scope, o, now, stale)
            else Single(log, scope, now, stale)
  {
    hide LastOf, OwnLast;
    LastOfMore(log, l, scope);
    forall o ensures Live(log + [l], scope, o, now, stale) <==>
                     if l.scope == scope && l.owner == o then now - l.beat <= stale
                     else Live(log, scope, o, now, stale)
    {
      OwnLastMore(log, l, scope, o);
    }
  }

  ghost predicate NoOther(log: seq<Lease>, scope: string, who: Owner, now: int, stale: int)
  {
    forall o | o != who :: !Live(log, scope, o, now, stale)
  }

  lemma AppendExclusive(log: seq<Lease>, l: Lease, now: int, stale: int)
    requires AllSingle(log, now, stale)
    ensures AllSingle(log + [l], now, stale) <==> NoOther(log, l.scope, l.owner, now, stale)
  {
    hide LastOf, Live, Single;
    SingleAppend(log, l, l.scope, now, stale);
    forall scope | scope != l.scope ensures Single(log + [l], scope, now, stale) {
      SingleAppend(log, l, scope, now, stale);
    }
    if NoOther(log, l.scope, l.owner, now, stale) {
      forall scope ensures Single(log + [l], scope, now, stale) {
      }
    }
  }

  lemma GrantedNoOther(log: seq<Lease>, scope: string, who: Owner, now: int, stale: int)
    requires Single(log, scope, now, stale) && ClaimOn(log, scope, who, now, stale) == Granted
    ensures NoOther(log, scope, who, now, stale)
  {
    hide Live, Single, ClaimOn;
    SingleIsExclusive(log, scope, now, stale);
  }

  /** A step keeps every scope to one owner exactly when, if it is a release, no other owner is live
      on the scope. */
  lemma StepExclusive(log: seq<Lease>, op: Op, stale: int)
    requires AllSingle(log, op.now, stale)
    ensures AllSingle(Apply(log, op, stale), op.now, stale) <==> Orderly(log, op, stale)
  {
    hide LastOf, Live, Single, ClaimOn;
    assert Single(log, op.scope, op.now, stale);
    if op.Release? {
      AppendExclusive(log, Lease(op.scope, op.who, 0), op.now, stale);
    } else if ClaimOn(log, op.scope, op.who, op.now, stale) == Granted {
      GrantedNoOther(log, op.scope, op.who, op.now, stale);
      AppendExclusive(log, Lease(op.scope, op.who, op.now), op.now, stale);
    }
  }

  lemma Later(log: seq<Lease>, now: int, t: int, stale: int)
    requires AllSingle(log, now, stale) && now <= t
    ensures AllSingle(log, t, stale)
  {
    forall scope, o | Live(log, scope, o, t, stale)
      ensures LastOf(log, scope).Some? && LastOf(log, scope).value.owner == o
    {
      assert Single(log, scope, now, stale) && Live(log, scope, o, now, stale);
    }
  }

  // ---- Whole runs ---------------------------------------------------------------------------------------

  predicate Timed(now: int, ops: seq<Op>)
    decreases |ops|
  {
    ops == [] || (now <= ops[0].now && Timed(ops[0].now, ops[1..]))
  }

  ghost predicate AllOrderly(log: seq<Lease>, ops: seq<Op>, stale: int)
    decreases |ops|
  {
    ops == [] || (Orderly(log, ops[0], stale) && AllOrderly(Apply(log, ops[0], stale), ops[1..], stale))
  }

  ghost predicate StaysSingle(log: seq<Lease>, ops: seq<Op>, stale: int)
    decreases |ops|
  {
    ops == [] || (AllSingle(Apply(log, ops[0], stale), ops[0].now, stale)
                  && StaysSingle(Apply(log, ops[0], stale), ops[1..], stale))
  }

  /** Over a run with time not going back, scopes stay with one owner after every step exactly when
      every release is by an owner no other live owner shares the scope with. */
  lemma {:induction false} RunExclusive(log: seq<Lease>, now: int, ops: seq<Op>, stale: int)
    requires AllSingle(log, now, stale) && Timed(now, ops)
    ensures StaysSingle(log, ops, stale) <==> AllOrderly(log, ops, stale)
    decreases |ops|
  {
    hide Orderly, AllSingle, Apply;
    if ops != [] {
      Later(log, now, ops[0].now, stale);
      StepExclusive(log, ops[0], stale);
      if Orderly(log, ops[0], stale) {
        RunExclusive(Apply(log, ops[0], stale), ops[0].now, ops[1..], stale);
      }
    }
  }

  function After(log: seq<Lease>, ops: seq<Op>, stale: int): (log': seq<Lease>)
    decreases |ops|
  {
    if ops == [] then log else After(Apply(log, ops[0], stale), ops[1..], stale)
  }

  function LastTime(now: int, ops: seq<Op>): int
    decreases |ops|
  {
    if ops == [] then now else LastTime(ops[0].now, ops[1..])
  }

  lemma {:induction false} RunSingle(log: seq<Lease>, now: int, ops: seq<Op>, stale: int)
    requires AllSingle(log, now, stale) && Timed(now, ops) && AllOrderly(log, ops, stale)
    ensures AllSingle(After(log, ops, stale), LastTime(now, ops), stale)
    decreases |ops|
  {
    hide Orderly, AllSingle, Apply;
    if ops != [] {
      Later(log, now, ops[0].now, stale);
      StepExclusive(log, ops[0], stale);
      RunSingle(Apply(log, ops[0], stale), ops[0].now, ops[1..], stale);
    }
  }

  /** After a run from the empty log in which every release is orderly, a claim is granted only if
      every other owner's last entry on the scope is stale. */
  lemma GrantExcludes(start: int, ops: seq<Op>, stale: int, scope: string, who: Owner, now: int, other: Owner)
    requires Timed(start, ops) && AllOrderly([], ops, stale) && LastTime(start, ops) <= now
    requires who != other && ClaimOn(After([], ops, stale), scope, who, now, stale) == Granted
    ensures !Live(After([], ops, stale), scope, other, now, stale)
  {
    assert AllSingle([], start, stale);
    RunSingle([], start, ops, stale);
    var log := After([], ops, stale);
    Later(log, LastTime(start, ops), now, stale);
    assert Single(log, scope, now, stale);
    SingleIsExclusive(log, scope, now, stale);
  }

  /** Runs without releases keep exclusion: claims and refreshes alone never break it. */
  lemma {:induction false} ClaimsAreOrderly(log: seq<Lease>, ops: seq<Op>, stale: int)
    requires forall op | op in ops :: op.Claim?
    ensures AllOrderly(log, ops, stale)
    decreases |ops|
  {
    if ops != [] {
      assert ops[0] in ops && forall op | op in ops[1..] :: op in ops;
      ClaimsAreOrderly(Apply(log, ops[0], stale), ops[1..], stale);
    }
  }

  /** A release frees the scope and no other: from the moment a full stale time has passed since the
      epoch, which every present time has, any owner is granted the scope. */
  lemma ReleaseFrees(log: seq<Lease>, scope: string, who: Owner, now: int, stale: int, me: Owner, t: int)
    ensures var after := Apply(log, Op.Release(scope, who, now), stale);
            && (ClaimOn(after, scope, me, t, stale) == Granted <==> me == who || t > stale)
            && (Live(after, scope, who, t, stale) <==> t <= stale)
            && forall other | other != scope :: ClaimOn(after, other, me, t, stale) == ClaimOn(log, other, me, t, stale)
  {
    var l := Lease(scope, who, 0);
    hide LastOf, OwnLast;
    LastOfMore(log, l, scope);
    OwnLastMore(log, l, scope, who);
    forall other | other != scope
      ensures ClaimOn(log + [l], other, me, t, stale) == ClaimOn(log, other, me, t, stale)
    {
      LastOfMore(log, l, other);
    }
  }

  /** A release by someone who does not hold the scope lets it be claimed from under a live owner. */
  lemma StolenScope()
    ensures var a, b := Owner(0, "a"), Owner(0, "b");
            var log := After([], [Op.Claim("s", a, 1000), Op.Release("s", b, 1001)], TTL);
            ClaimOn(log, "s", b, 1002, TTL) == Granted && Live(log, "s", a, 1002, TTL)
  {
    var a, b := Owner(0, "a"), Owner(0, "b");
    var l, r := Lease("s", a, 1000), Lease("s", b, 0);
    var ops := [Op.Claim("s", a, 1000), Op.Release("s", b, 1001)];
    assert ops[1..] == [Op.Release("s", b, 1001)] && ops[1..][1..] == [];
    assert Apply([], ops[0], TTL) == [l];
    assert Apply([l], ops[1], TTL) == [l] + [r];
    assert After([l], ops[1..], TTL) == After([l] + [r], [], TTL);
    LastOfMore([l], r, "s");
    OwnLastMore([l], r, "s", a);
    OwnLastMore([], l, "s", a);
    assert [] + [l] == [l];
  }

  /** An empty log grants every claim. After any log, the last lease decides claims on its scope: granted
      to its owner, and to others once its beat is more than the stale time ago; it decides no others. */
  lemma ClaimMeaning(log: seq<Lease>, l: Lease, scope: string, me: Owner, now: int, stale: int)
    ensures ClaimOn([], scope, me, now, stale) == Granted
    ensures ClaimOn(log + [l], scope, me, now, stale) ==
            if l.scope != scope then ClaimOn(log, scope, me, now, stale)
            else if l.owner == me || now > l.beat + stale then Granted
            else Denied(l.owner)
  {
    LastOfMore(log, l, scope);
  }
}
