/** Work leases over an append-only log: who may claim a scope, and the log's line format. */
module AgentLease {
  import opened Wrappers
  import T = Text

  datatype Owner = Owner(pid: int, host: string)

  datatype Lease = Lease(scope: string, owner: Owner, beat: int)

  datatype ClaimResult = Granted | Denied(holder: Owner)

  // ---- Claims ----------------------------------------------------------------------------------

  /** A lease stands in the way of a claim: same scope, another owner, and not stale. */
  predicate Blocks(l: Lease, scope: string, me: Owner, now: int, stale: int)
  {
    l.scope == scope && l.owner != me && now - l.beat <= stale
  }

  function ResolveClaim(existing: seq<Lease>, scope: string, me: Owner, now: int, stale: int): (r: ClaimResult)
    ensures r == Granted <==> forall l | l in existing :: !Blocks(l, scope, me, now, stale)
    ensures r.Denied? ==> exists i | 0 <= i < |existing| ::
                            && Blocks(existing[i], scope, me, now, stale) && r.holder == existing[i].owner
                            && forall j | 0 <= j < i :: !Blocks(existing[j], scope, me, now, stale)
  {
    if existing == [] then Granted
    else
      var l := existing[0];
      if l.scope != scope || l.owner == me || now - l.beat > stale then
        var r := ResolveClaim(existing[1..], scope, me, now, stale);
        assert forall i {:trigger existing[1..][i]} | 0 <= i < |existing| - 1 :: existing[1..][i] == existing[i + 1];
        r
      else
        assert l in existing && Blocks(l, scope, me, now, stale);
        Denied(l.owner)
  }

  /** The last entry on a scope. */
  function LastOf(all: seq<Lease>, scope: string): (l: Option<Lease>)
    ensures l.Some? ==> l.value in all && l.value.scope == scope
    ensures l.None? <==> forall x | x in all :: x.scope != scope
  {
    if all == [] then None
    else if all[|all| - 1].scope == scope then Some(all[|all| - 1])
    else
      assert all == all[..|all| - 1] + [all[|all| - 1]];
      LastOf(all[..|all| - 1], scope)
  }

  /** The scopes of a list, in the order they first occur. */
  function ScopesOf(all: seq<Lease>): (scopes: seq<string>)
  {
    if all == [] then []
    else
      var before, s := ScopesOf(all[..|all| - 1]), all[|all| - 1].scope;
      if s in before then before else before + [s]
  }

  /** One entry per scope, in the order the scopes first occur, each the last on its scope. */
  ghost predicate IsLastPerScope(out: seq<Lease>, all: seq<Lease>)
  {
    && |out| == |ScopesOf(all)|
    && forall i | 0 <= i < |out| :: out[i].scope == ScopesOf(all)[i] && LastOf(all, out[i].scope) == Some(out[i])
  }

  lemma {:induction false} ScopesDistinct(all: seq<Lease>)
    ensures forall i, j | 0 <= i < j < |ScopesOf(all)| :: ScopesOf(all)[i] != ScopesOf(all)[j]
    ensures forall s :: s in ScopesOf(all) <==> LastOf(all, s).Some?
  {
    if all != [] {
      ScopesDistinct(all[..|all| - 1]);
    }
  }

  lemma LastOfMore(all: seq<Lease>, l: Lease, scope: string)
    ensures LastOf(all + [l], scope) == if l.scope == scope then Some(l) else LastOf(all, scope)
  {
    assert (all + [l])[..|all|] == all;
  }

  lemma ScopesOfMore(all: seq<Lease>, l: Lease)
    ensures ScopesOf(all + [l]) == if l.scope in ScopesOf(all) then ScopesOf(all) else ScopesOf(all) + [l.scope]
  {
    assert (all + [l])[..|all|] == all;
  }

  method LastPerScope(all: seq<Lease>) returns (out: seq<Lease>)
    ensures IsLastPerScope(out, all)
  {
    hide LastOf, ScopesOf, IsLastPerScope;
    out := [];
    var n := 0;
    assert all[..0] == [];
    NoEntries();
    while n < |all|
      invariant n <= |all| && IsLastPerScope(out, all[..n])
    {
      var l := all[n];
      var found, k := false, 0;
      while k < |out| && !found
        invariant k <= |out| && IsLastPerScope(out, all[..n])
        invariant forall j | 0 <= j < k :: out[j].scope != l.scope
        invariant found ==> k < |out| && out[k].scope == l.scope
        decreases |out| - k, !found
      {
        if out[k].scope == l.scope { found := true; } else { k := k + 1; }
      }
      assert all[..n + 1] == all[..n] + [l];
      AddEntry(out, all[..n], l, k);
      out := if found then out[k := l] else out + [l];
      n := n + 1;
    }
    assert all[..n] == all;
  }

  lemma NoEntries()
    ensures IsLastPerScope([], [])
  {
  }

  lemma AddEntry(out: seq<Lease>, all: seq<Lease>, l: Lease, k: nat)
    requires IsLastPerScope(out, all) && k <= |out|
    requires forall j | 0 <= j < k :: out[j].scope != l.scope
    requires k < |out| ==> out[k].scope == l.scope
    ensures IsLastPerScope(if k < |out| then out[k := l] else out + [l], all + [l])
  {
    hide LastOf, ScopesOf;
    var r := if k < |out| then out[k := l] else out + [l];
    ScopesDistinct(all);
    ScopesOfMore(all, l);
    assert k < |out| ==> ScopesOf(all)[k] == l.scope;
    assert k == |out| ==> l.scope !in ScopesOf(all);
    forall i | 0 <= i < |r|
      ensures r[i].scope == ScopesOf(all + [l])[i] && LastOf(all + [l], r[i].scope) == Some(r[i]) {
      LastOfMore(all, l, r[i].scope);
      assert k < |out| && i != k ==> r[i].scope == ScopesOf(all)[i];
    }
  }

  /** A claim against the log is granted exactly when the last entry on the scope is the claimer's
      own, or stale, or there is none; a denial names its owner. */
  lemma ClaimAgainstLog(held: seq<Lease>, all: seq<Lease>, scope: string, me: Owner, now: int, stale: int)
    requires IsLastPerScope(held, all)
    ensures ResolveClaim(held, scope, me, now, stale) ==
            match LastOf(all, scope)
            case None => Granted
            case Some(l) => if l.owner == me || now - l.beat > stale then Granted else Denied(l.owner)
  {
    hide ScopesOf, LastOf;
    ScopesDistinct(all);
    var r := ResolveClaim(held, scope, me, now, stale);
    var last := LastOf(all, scope);
    if last.Some? {
      assert scope in ScopesOf(all);
      var k :| 0 <= k < |held| && ScopesOf(all)[k] == scope;
      assert held[k] == last.value && last.value in held;
    }
    forall l | l in held && l.scope == scope ensures last == Some(l) {
      var i :| 0 <= i < |held| && held[i] == l;
    }
    if r.Denied? {
      var i :| 0 <= i < |held| && Blocks(held[i], scope, me, now, stale) && r.holder == held[i].owner;
      assert held[i] in held;
    } else if last.Some? {
      assert !Blocks(last.value, scope, me, now, stale);
    }
  }

  // ---- The line format -----------------------------------------------------------------------------

  function LeaseToLine(l: Lease): (line: string)
  {
    T.IntToString(l.owner.pid) + ("\t" + (l.owner.host + ("\t" + (T.IntToString(l.beat) + ("\t" + l.scope)))))
  }

  function LeaseFromLine(line: string): (l: Option<Lease>)
  {
    var t1 := T.Find(line, "\t", 0);
    if t1 == -1 then None
    else
      var t2 := T.Find(line, "\t", t1 + 1);
      if t2 == -1 then None
      else
        var t3 := T.Find(line, "\t", t2 + 1);
        if t3 == -1 then None
        else
          var pid, beat := T.Scan(line[..t1], 64), T.Scan(line[t2 + 1..t3], 64);
          if pid.NoNumber? || beat.NoNumber? || line[t3 + 1..] == "" then None
          else Some(Lease(line[t3 + 1..], Owner(pid.value, line[t1 + 1..t2]), beat.value))
  }

  function Read(lines: seq<string>): (log: seq<Lease>)
  {
    if lines == [] then []
    else
      var l := LeaseFromLine(lines[|lines| - 1]);
      Read(lines[..|lines| - 1]) + if l.Some? then [l.value] else []
  }

  // ---- Lines read back ---------------------------------------------------------------------------------

  lemma TabChars(pre: string, a: string, rest: string)
    requires '\t' !in a
    ensures var s := pre + (a + ("\t" + rest));
            |pre| + |a| < |s| && s[|pre| + |a|] == '\t' && forall q | |pre| <= q < |pre| + |a| :: s[q] != '\t'
  {
    var s := pre + (a + ("\t" + rest));
    assert forall q | |pre| <= q < |pre| + |a| :: s[q] == a[q - |pre|];
  }

  /** The next tab after a text without one. */
  lemma NextTab(pre: string, a: string, rest: string)
    requires '\t' !in a
    ensures T.Find(pre + (a + ("\t" + rest)), "\t", |pre|) == |pre| + |a|
  {
    hide T.Find, T.OccursAt;
    var s := pre + (a + ("\t" + rest));
    var p := |pre| + |a|;
    T.OccursChars(s, "\t", p);
    TabChars(pre, a, rest);
    forall q: nat | |pre| <= q < p ensures !T.OccursAt(s, "\t", q) {
      T.OccursChars(s, "\t", q);
      assert s[q] != '\t';
    }
    T.FindUnique(s, "\t", |pre|, p);
  }

  lemma PrintedNoTab(n: int)
    ensures '\t' !in T.IntToString(n)
    ensures T.Scan(T.IntToString(n), 64) == if T.Fits(n, 64) then T.Number(n) else T.NoNumber
  {
    T.ScanFits(n, 64);
  }

  lemma Slices(pre: string, a: string, rest: string)
    ensures var line := pre + (a + ("\t" + rest));
            line[|pre|..|pre| + |a|] == a && line[|pre| + |a| + 1..] == rest && |pre| + |a| < |line|
  {
  }

  /** A field after `pre`: where its tab is, its text, and what follows. */
  lemma Field(pre: string, a: string, rest: string)
    requires '\t' !in a
    ensures var line := pre + (a + ("\t" + rest));
            && T.Find(line, "\t", |pre|) == |pre| + |a| < |line|
            && line[|pre|..|pre| + |a|] == a && line[|pre| + |a| + 1..] == rest
  {
    hide *;
    Slices(pre, a, rest);
    NextTab(pre, a, rest);
  }

  lemma Regroup(pre: string, rest: string)
    ensures "" + (pre + ("\t" + rest)) == (pre + "\t") + rest == pre + ("\t" + rest)
  {
  }

  lemma LineParts(line: string, t1: nat, t2: nat, t3: nat)
    requires t1 < |line| && T.Find(line, "\t", 0) == t1 < t2 < |line| && T.Find(line, "\t", t1 + 1) == t2 < t3 < |line|
    requires T.Find(line, "\t", t2 + 1) == t3
    ensures LeaseFromLine(line) ==
            var pid, beat := T.Scan(line[..t1], 64), T.Scan(line[t2 + 1..t3], 64);
            if pid.NoNumber? || beat.NoNumber? || line[t3 + 1..] == "" then None
            else Some(Lease(line[t3 + 1..], Owner(pid.value, line[t1 + 1..t2]), beat.value))
  {
    hide T.Find, T.Scan;
  }

  lemma ThreeFields(p: string, h: string, b: string, rest: string)
    requires '\t' !in p && '\t' !in h && '\t' !in b
    ensures var line, t1 := p + ("\t" + (h + ("\t" + (b + ("\t" + rest))))), |p|;
            var t2 := t1 + 1 + |h|;
            var t3 := t2 + 1 + |b|;
            && t3 < |line| && T.Find(line, "\t", 0) == t1
            && T.Find(line, "\t", t1 + 1) == t2 && T.Find(line, "\t", t2 + 1) == t3
            && line[..t1] == p && line[t1 + 1..t2] == h && line[t2 + 1..t3] == b && line[t3 + 1..] == rest
  {
    hide *;
    var r1 := h + ("\t" + (b + ("\t" + rest)));
    var r2 := b + ("\t" + rest);
    Regroup(p, r1);
    Regroup((p + "\t") + h, r2);
    Regroup2(p + "\t", h, r2);
    Field("", p, r1);
    Field(p + "\t", h, r2);
    Field(((p + "\t") + h) + "\t", b, rest);
  }

  lemma Regroup2(a: string, b: string, c: string)
    ensures (a + b) + ("\t" + c) == a + (b + ("\t" + c))
  {
  }

  lemma ParsedLine(l: Lease)
    requires '\t' !in l.owner.host
    ensures LeaseFromLine(LeaseToLine(l)) ==
            if l.scope == "" || !T.Fits(l.owner.pid, 64) || !T.Fits(l.beat, 64) then None else Some(l)
  {
    hide T.Find, T.Scan, T.IntToString, LeaseFromLine;
    var p, h, b := T.IntToString(l.owner.pid), l.owner.host, T.IntToString(l.beat);
    PrintedNoTab(l.owner.pid);
    PrintedNoTab(l.beat);
    ThreeFields(p, h, b, l.scope);
    LineParts(LeaseToLine(l), |p|, |p| + 1 + |h|, |p| + 1 + |h| + 1 + |b|);
  }

  /** A host with a tab is cut at it. */
  lemma HostCut(p: string, h1: string, rest: string)
    requires '\t' !in p && '\t' !in h1
    ensures var l := LeaseFromLine(p + ("\t" + (h1 + ("\t" + rest)))); l.Some? ==> l.value.owner.host == h1
  {
    hide *;
    TwoFields(p, h1, rest);
    HostIs(p + ("\t" + (h1 + ("\t" + rest))), |p|, |p| + 1 + |h1|);
  }

  /** The host of a line is what stands between its first two tabs. */
  lemma HostIs(line: string, t1: nat, t2: nat)
    requires t1 < t2 < |line| && T.Find(line, "\t", 0) == t1 && T.Find(line, "\t", t1 + 1) == t2
    ensures var l := LeaseFromLine(line); l.Some? ==> l.value.owner.host == line[t1 + 1..t2]
  {
    hide T.Find, T.Scan, T.OccursAt;
  }

  lemma TwoFields(p: string, h: string, rest: string)
    requires '\t' !in p && '\t' !in h
    ensures var line, t1 := p + ("\t" + (h + ("\t" + rest))), |p|;
            var t2 := t1 + 1 + |h|;
            && t2 < |line| && T.Find(line, "\t", 0) == t1 && T.Find(line, "\t", t1 + 1) == t2
            && line[t1 + 1..t2] == h
  {
    hide *;
    Regroup(p, h + ("\t" + rest));
    Field("", p, h + ("\t" + rest));
    Field(p + "\t", h, rest);
  }

  lemma TabbedHost(l: Lease)
    requires '\t' in l.owner.host
    ensures LeaseFromLine(LeaseToLine(l)) != Some(l)
  {
    hide T.Find, T.Scan, T.IntToString, LeaseFromLine;
    var h := l.owner.host;
    var k := FirstTab(h);
    var rest := T.IntToString(l.beat) + ("\t" + l.scope);
    PrintedNoTab(l.owner.pid);
    HostCut(T.IntToString(l.owner.pid), h[..k], h[k + 1..] + ("\t" + rest));
    assert h + ("\t" + rest) == h[..k] + ("\t" + (h[k + 1..] + ("\t" + rest)));
  }

  lemma FirstTab(h: string) returns (k: nat)
    requires '\t' in h
    ensures k < |h| && h[k] == '\t' && '\t' !in h[..k]
  {
    if h[0] == '\t' {
      k := 0;
    } else {
      k := FirstTab(h[1..]);
      k := k + 1;
      assert forall i | 0 < i < k :: h[..k][i] == h[1..][..k - 1][i - 1];
    }
  }

  /** A printed lease reads back exactly when its host has no tab, its scope is not empty and its
      numbers fit 64 bits, as all that the program writes do. */
  lemma LineRoundTrip(l: Lease)
    ensures LeaseFromLine(LeaseToLine(l)) == Some(l) <==>
            '\t' !in l.owner.host && l.scope != "" && T.Fits(l.owner.pid, 64) && T.Fits(l.beat, 64)
  {
    hide *;
    if '\t' in l.owner.host {
      TabbedHost(l);
    } else {
      ParsedLine(l);
    }
  }

  /** Three fields without tabs and a rest, with tabs between, are a lease when the first and the third
      are numbers of 64 bits and the rest is not empty; a line with fewer tabs is none. */
  lemma LineFields(p: string, h: string, b: string, rest: string)
    requires '\t' !in p && '\t' !in h && '\t' !in b
    ensures var pid, beat := T.Scan(p, 64), T.Scan(b, 64);
            LeaseFromLine(p + ("\t" + (h + ("\t" + (b + ("\t" + rest)))))) ==
            if pid.NoNumber? || beat.NoNumber? || rest == "" then None
            else Some(Lease(rest, Owner(pid.value, h), beat.value))
    ensures LeaseFromLine(p) == LeaseFromLine(p + ("\t" + h)) == LeaseFromLine(p + ("\t" + (h + ("\t" + b)))) == None
  {
    hide *;
    ThreeFields(p, h, b, rest);
    LineParts(p + ("\t" + (h + ("\t" + (b + ("\t" + rest))))), |p|, |p| + 1 + |h|, |p| + 1 + |h| + 1 + |b|);
    FewTabs(p, h, b);
  }

  lemma NoTabAfter(line: string, from: nat)
    requires from <= |line| && '\t' !in line[from..]
    ensures T.Find(line, "\t", from) == -1
  {
    forall q: nat | from <= q ensures !T.OccursAt(line, "\t", q) {
      T.OccursChars(line, "\t", q);
      assert q < |line| ==> line[q] == line[from..][q - from];
    }
  }

  lemma FewTabs(p: string, h: string, b: string)
    requires '\t' !in p && '\t' !in h && '\t' !in b
    ensures LeaseFromLine(p) == LeaseFromLine(p + ("\t" + h)) == LeaseFromLine(p + ("\t" + (h + ("\t" + b)))) == None
  {
    hide *;
    var one, two := p + ("\t" + h), p + ("\t" + (h + ("\t" + b)));
    assert p[0..] == p;
    NoTabAfter(p, 0);
    NoFirst(p);
    Field("", p, h);
    assert "" + one == one && one[|p| + 1..] == h;
    NoTabAfter(one, |p| + 1);
    NoSecond(one, |p|);
    TwoFields(p, h, b);
    assert two == p + "\t" + h + "\t" + b;
    NoTabAfter(two, |p| + 1 + |h| + 1);
    NoThird(two, |p|, |p| + 1 + |h|);
  }

  lemma NoFirst(line: string)
    requires T.Find(line, "\t", 0) == -1
    ensures LeaseFromLine(line) == None
  {
    hide T.Find, T.Scan;
  }

  lemma NoSecond(line: string, t1: nat)
    requires t1 < |line| && T.Find(line, "\t", 0) == t1 && T.Find(line, "\t", t1 + 1) == -1
    ensures LeaseFromLine(line) == None
  {
    hide T.Find, T.Scan;
  }

  lemma NoThird(line: string, t1: nat, t2: nat)
    requires t1 < t2 < |line| && T.Find(line, "\t", 0) == t1 && T.Find(line, "\t", t1 + 1) == t2
    requires T.Find(line, "\t", t2 + 1) == -1
    ensures LeaseFromLine(line) == None
  {
    hide T.Find, T.Scan;
  }
}
