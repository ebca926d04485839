/** The cache of prepared statements: a list in recency order and a map into it, which own the
    statement handles. */
module StmtCache {
  import R = Recency

  const PREPARED_CAP := 50

  /** A list node; the map refers to nodes, as to list iterators. */
  class LruEntry {
    const sql: string
    const stmt: nat

    constructor (sql: string, stmt: nat)
      ensures this.sql == sql && this.stmt == stmt
    {
      this.sql := sql;
      this.stmt := stmt;
    }
  }

  function Sqls(list: seq<LruEntry>): (s: seq<string>)
    ensures |s| == |list| && forall i | 0 <= i < |list| :: s[i] == list[i].sql
  {
    if list == [] then [] else [list[0].sql] + Sqls(list[1..])
  }

  /** The handles the list holds; 0 is the null handle. */
  function Handles(list: seq<LruEntry>): (h: set<nat>)
  {
    set i | 0 <= i < |list| && list[i].stmt != 0 :: list[i].stmt
  }

  /** The list has no text twice, and the map leads from exactly its texts to their nodes. */
  predicate Linked(list: seq<LruEntry>, m: map<string, LruEntry>)
  {
    && (forall i, j | 0 <= i < j < |list| :: list[i].sql != list[j].sql)
    && (forall i | 0 <= i < |list| :: list[i].sql in m && m[list[i].sql] == list[i])
    && (forall k | k in m :: m[k] in list && m[k].sql == k)
  }

  /** Every handle ever made is in the list, once, or finalized, and not both. */
  predicate Owned(list: seq<LruEntry>, made: set<nat>, finalized: set<nat>)
  {
    && 0 !in made
    && (forall i, j | 0 <= i < j < |list| :: list[i].stmt == 0 || list[i].stmt != list[j].stmt)
    && Handles(list) !! finalized
    && Handles(list) + finalized == made
  }

  // ---- List surgery -------------------------------------------------------------------------------

  function Find(list: seq<LruEntry>, node: LruEntry): (k: nat)
    requires node in list
    ensures k < |list| && list[k] == node
  {
    if list[0] == node then 0 else 1 + Find(list[1..], node)
  }

  /** `splice`: the node at `k` goes to the front. */
  function ToFront(list: seq<LruEntry>, k: nat): (r: seq<LruEntry>)
    requires k < |list|
    ensures |r| == |list| && r[0] == list[k]
    ensures forall i | 0 < i < |r| :: r[i] == if i <= k then list[i - 1] else list[i]
  {
    [list[k]] + (list[..k] + list[k + 1..])
  }

  /** Where a node goes, and where it was. */
  function Moved(i: nat, k: nat): nat { if i == k then 0 else if i < k then i + 1 else i }

  function Origin(i: nat, k: nat): nat { if i == 0 then k else if i <= k then i - 1 else i }

  lemma FrontAt(list: seq<LruEntry>, k: nat, i: nat)
    requires k < |list| && i < |list|
    ensures |ToFront(list, k)| == |list|
    ensures Moved(i, k) < |list| && ToFront(list, k)[Moved(i, k)] == list[i]
    ensures Origin(i, k) < |list| && ToFront(list, k)[i] == list[Origin(i, k)]
  {
  }

  lemma FrontLinked(list: seq<LruEntry>, m: map<string, LruEntry>, k: nat)
    requires Linked(list, m) && k < |list|
    ensures Linked(ToFront(list, k), m)
  {
    var r := ToFront(list, k);
    hide ToFront;
    FrontAt(list, k, 0);
    forall i, j | 0 <= i < j < |r| ensures r[i].sql != r[j].sql {
      FrontAt(list, k, i);
      FrontAt(list, k, j);
    }
    forall i | 0 <= i < |r| ensures r[i].sql in m && m[r[i].sql] == r[i] {
      FrontAt(list, k, i);
    }
    forall x | x in m ensures m[x] in r {
      var i :| 0 <= i < |list| && list[i] == m[x];
      FrontAt(list, k, i);
    }
  }

  lemma FrontOwned(list: seq<LruEntry>, made: set<nat>, finalized: set<nat>, k: nat)
    requires Owned(list, made, finalized) && k < |list|
    ensures Owned(ToFront(list, k), made, finalized)
  {
    var r := ToFront(list, k);
    hide ToFront;
    FrontAt(list, k, 0);
    forall i, j | 0 <= i < j < |r| ensures r[i].stmt == 0 || r[i].stmt != r[j].stmt {
      FrontAt(list, k, i);
      FrontAt(list, k, j);
    }
    forall h ensures h in Handles(r) <==> h in Handles(list) {
      if h in Handles(list) {
        var i :| 0 <= i < |list| && list[i].stmt == h && h != 0;
        FrontAt(list, k, i);
        assert r[Moved(i, k)].stmt == h;
      }
      if h in Handles(r) {
        var i :| 0 <= i < |r| && r[i].stmt == h && h != 0;
        FrontAt(list, k, i);
      }
    }
    assert Handles(r) == Handles(list);
  }

  lemma MiddleSqls(a: seq<LruEntry>, e: LruEntry, b: seq<LruEntry>)
    requires R.Distinct(Sqls(a + ([e] + b)))
    ensures Sqls([e] + (a + b)) == [e.sql] + R.Without(Sqls(a + ([e] + b)), e.sql)
  {
    hide *;
    SqlsParts(a, [e] + b);
    SqlsParts([e], b);
    SqlsParts(a, b);
    SqlsParts([e], a + b);
    SqlsOne(e);
    WithoutMiddle(Sqls(a), e.sql, Sqls(b));
  }

  lemma FrontSqls(list: seq<LruEntry>, k: nat)
    requires k < |list| && R.Distinct(Sqls(list))
    ensures Sqls(ToFront(list, k)) == [list[k].sql] + R.Without(Sqls(list), list[k].sql)
  {
    hide *;
    FrontIs(list, k);
    MiddleSqls(list[..k], list[k], list[k + 1..]);
  }

  lemma FrontIs(list: seq<LruEntry>, k: nat)
    requires k < |list|
    ensures ToFront(list, k) == [list[k]] + (list[..k] + list[k + 1..])
    ensures list == list[..k] + ([list[k]] + list[k + 1..])
  {
  }

  lemma SqlsOne(e: LruEntry)
    ensures Sqls([e]) == [e.sql]
  {
  }

  lemma WithoutMiddle(a: seq<string>, x: string, b: seq<string>)
    requires R.Distinct(a + ([x] + b))
    ensures R.Without(a + ([x] + b), x) == a + b
  {
    var s := a + ([x] + b);
    R.PlaceUnique(s, x, |a|);
    assert s[..|a|] == a && s[|a| + 1..] == b;
  }

  lemma {:induction false} SqlsParts(a: seq<LruEntry>, b: seq<LruEntry>)
    ensures Sqls(a + b) == Sqls(a) + Sqls(b)
  {
    if a == [] {
      assert a + b == b;
    } else {
      assert (a + b)[1..] == a[1..] + b;
      SqlsParts(a[1..], b);
    }
  }

  lemma SqlsDistinct(list: seq<LruEntry>, m: map<string, LruEntry>)
    requires Linked(list, m)
    ensures R.Distinct(Sqls(list))
    ensures forall x :: x in m <==> x in Sqls(list)
  {
    var s := Sqls(list);
    forall x ensures x in m <==> x in s {
      if x in m {
        var i :| 0 <= i < |list| && list[i] == m[x];
        assert s[i] == x;
      }
    }
  }

  lemma LastLinked(list: seq<LruEntry>, m: map<string, LruEntry>)
    requires Linked(list, m) && list != []
    ensures Linked(list[..|list| - 1], m - {list[|list| - 1].sql})
  {
    var n := |list| - 1;
    var r, m' := list[..n], m - {list[n].sql};
    forall x | x in m' ensures m'[x] in r {
      var i :| 0 <= i < |list| && list[i] == m[x];
      assert r[i] == m[x];
    }
  }

  lemma LastOwned(list: seq<LruEntry>, made: set<nat>, finalized: set<nat>)
    requires Owned(list, made, finalized) && list != []
    ensures var n := |list| - 1;
            && (list[n].stmt != 0 ==> list[n].stmt in made && list[n].stmt !in finalized)
            && Owned(list[..n], made, finalized + if list[n].stmt != 0 then {list[n].stmt} else {})
  {
    var n := |list| - 1;
    var r, h := list[..n], list[n].stmt;
    forall x ensures x in Handles(list) <==> x in Handles(r) || (x == h && h != 0) {
      if x in Handles(list) {
        var i :| 0 <= i < |list| && list[i].stmt == x && x != 0;
        assert i < n ==> r[i].stmt == x;
      }
      assert list[n].stmt == h;
      if x in Handles(r) {
        var i :| 0 <= i < |r| && r[i].stmt == x;
        assert list[i].stmt == x;
      }
    }
  }

  lemma PushLinked(list: seq<LruEntry>, m: map<string, LruEntry>, e: LruEntry)
    requires Linked(list, m) && e.sql !in m
    ensures Linked([e] + list, m[e.sql := e])
  {
    var r, m' := [e] + list, m[e.sql := e];
    assert r[0] == e && forall i | 0 < i < |r| :: r[i] == list[i - 1];
    forall x | x in m' ensures m'[x] in r {
      if x != e.sql {
        var i :| 0 <= i < |list| && list[i] == m[x];
        assert r[i + 1] == m[x];
      }
    }
  }

  lemma PushOwned(list: seq<LruEntry>, made: set<nat>, finalized: set<nat>, e: LruEntry)
    requires Owned(list, made, finalized) && e.stmt !in made
    ensures Owned([e] + list, made + if e.stmt != 0 then {e.stmt} else {}, finalized)
  {
    var r := [e] + list;
    forall x ensures x in Handles(r) <==> x in Handles(list) || (x == e.stmt && x != 0) {
      if x in Handles(list) {
        var i :| 0 <= i < |list| && list[i].stmt == x && x != 0;
        assert r[i + 1].stmt == x;
      }
      assert r[0].stmt == e.stmt;
    }
  }

  // ---- The cache ---------------------------------------------------------------------------------------

  /** What came of preparing a text. */
  datatype Prepared = Prepared(sql: string, ok: bool, stmt: nat)

  ghost predicate Part(m: map<string, LruEntry>, n: map<string, LruEntry>)
  {
    forall x | x in m :: x in n && m[x] == n[x]
  }

  lemma FewerMapped(m: map<string, LruEntry>, x: string)
    ensures Part(m - {x}, m)
  {
  }

  /** Every cached handle came of a successful prepare of its text. */
  ghost predicate Source(m: map<string, LruEntry>, prepares: seq<Prepared>)
  {
    forall x | x in m :: Prepared(x, true, m[x].stmt) in prepares
  }

  /** The database's side: which statement handles it has made and which were given back. A handle
      stands for one prepared statement, not for its address. */
  class Sqlite {
    var next: nat
    ghost var made: set<nat>
    ghost var finalized: set<nat>
    /** Every prepare so far and what came of it. */
    ghost var prepares: seq<Prepared>

    ghost predicate Valid()
      reads this
    {
      next > 0 && forall h | h in made :: 0 < h < next
    }

    constructor ()
      ensures Valid() && made == {} && finalized == {} && prepares == []
    {
      next, made, finalized, prepares := 1, {}, {}, [];
    }

    /** The outcome depends on the text in ways not known here: success or not, with a new handle or
        the null handle. */
    method Prepare(sql: string) returns (ok: bool, stmt: nat)
      requires Valid()
      modifies this
      ensures Valid() && finalized == old(finalized)
      ensures stmt == 0 || stmt !in old(made)
      ensures made == old(made) + if stmt != 0 then {stmt} else {}
      ensures prepares == old(prepares) + [Prepared(sql, ok, stmt)]
    {
      ok, stmt := *, 0;
      if * {
        stmt := next;
        next := next + 1;
        made := made + {stmt};
      }
      prepares := prepares + [Prepared(sql, ok, stmt)];
    }

    /** A handle may be given back once. */
    method Finalize(stmt: nat)
      requires Valid() && stmt in made && stmt !in finalized
      modifies `finalized
      ensures Valid() && finalized == old(finalized) + {stmt}
    {
      finalized := finalized + {stmt};
    }
  }

  class Cache {
    const db: Sqlite
    var stmtList: seq<LruEntry>
    var stmtMap: map<string, LruEntry>
    /** The texts looked up with success since the cache was last empty, a lookup being a success when
        the text is cached or is prepared without an error. */
    ghost var history: seq<string>

    /** The cached texts are the most recently used distinct ones, in recency order; the map agrees
        with the list; and every handle made is either cached or finalized. */
    ghost predicate Valid()
      reads this, db
    {
      && db.Valid()
      && Linked(stmtList, stmtMap)
      && Owned(stmtList, db.made, db.finalized)
      && Sqls(stmtList) == R.Take(R.Recent(history), PREPARED_CAP)
      && Source(stmtMap, db.prepares)
    }

    constructor ()
      ensures Valid() && fresh(db) && history == [] && db.made == {} && db.prepares == []
    {
      db := new Sqlite();
      stmtList, stmtMap, history := [], map[], [];
    }

    /** Whether `sql` is cached; if it is, its node has been moved to the front. */
    method Lookup(sql: string) returns (hit: bool, stmt: nat)
      requires Valid()
      modifies this
      ensures Valid() && hit == (sql in old(stmtMap)) && stmtMap == old(stmtMap)
      ensures !hit ==> stmtList == old(stmtList) && history == old(history)
      ensures hit ==> history == old(history) + [sql] && stmt == stmtMap[sql].stmt
    {
      hide *;
      hit, stmt := sql in stmtMap, 0;
      if hit {
        stmt := MoveToFront(sql);
      }
    }

    method MoveToFront(sql: string) returns (stmt: nat)
      requires Valid() && sql in stmtMap
      modifies this
      ensures Valid() && stmtMap == old(stmtMap)
      ensures history == old(history) + [sql] && stmt == stmtMap[sql].stmt
    {
      hide Linked, Owned, Sqls, ToFront, Find, R.Take, R.Recent;
      Hit(stmtList, stmtMap, sql, history);
      var k := Find(stmtList, stmtMap[sql]);
      FrontLinked(stmtList, stmtMap, k);
      FrontOwned(stmtList, db.made, db.finalized, k);
      stmtList := ToFront(stmtList, k);
      stmt := stmtList[0].stmt;
      history := history + [sql];
    }

    /** Drop the entry at the back. */
    method EvictBack()
      requires db.Valid() && Linked(stmtList, stmtMap) && Owned(stmtList, db.made, db.finalized)
      requires stmtList != []
      modifies this, db`finalized
      ensures db.Valid() && Linked(stmtList, stmtMap) && Owned(stmtList, db.made, db.finalized)
      ensures stmtList == old(stmtList)[..|old(stmtList)| - 1] && history == old(history)
      ensures Part(stmtMap, old(stmtMap))
    {
      hide *;
      var back := stmtList[|stmtList| - 1];
      LastLinked(stmtList, stmtMap);
      LastOwned(stmtList, db.made, db.finalized);
      assert db.finalized + {} == db.finalized;
      if back.stmt != 0 { db.Finalize(back.stmt); }
      FewerMapped(stmtMap, back.sql);
      stmtMap := stmtMap - {back.sql};
      stmtList := stmtList[..|stmtList| - 1];
    }

    /** Drop entries from the back down to the cap. */
    method Evict()
      requires db.Valid() && Linked(stmtList, stmtMap) && Owned(stmtList, db.made, db.finalized)
      modifies this, db`finalized
      ensures db.Valid() && Linked(stmtList, stmtMap) && Owned(stmtList, db.made, db.finalized)
      ensures Sqls(stmtList) == R.Take(Sqls(old(stmtList)), PREPARED_CAP)
      ensures stmtList <= old(stmtList) && history == old(history) && Part(stmtMap, old(stmtMap))
    {
      ghost var all, m := stmtList, stmtMap;
      hide Linked, Owned, Sqls;
      while |stmtList| > PREPARED_CAP
        invariant db.Valid() && Linked(stmtList, stmtMap) && Owned(stmtList, db.made, db.finalized)
        invariant stmtList <= all && history == old(history)
        invariant |stmtList| >= PREPARED_CAP || stmtList == all
        invariant Part(stmtMap, m)
        decreases |stmtList|
      {
        EvictBack();
      }
      SqlsPrefix(all, |stmtList|);
    }

    /** Cache a newly prepared statement in front. */
    method Insert(sql: string, stmt: nat, ghost before: set<nat>)
      requires db.Valid() && Linked(stmtList, stmtMap) && sql !in stmtMap
      requires Owned(stmtList, before, db.finalized) && stmt !in before
      requires db.made == before + if stmt != 0 then {stmt} else {}
      requires Sqls(stmtList) == R.Take(R.Recent(history), PREPARED_CAP)
      requires Source(stmtMap, db.prepares) && Prepared(sql, true, stmt) in db.prepares
      modifies this, db`finalized
      ensures Valid() && history == old(history) + [sql]
      ensures sql in stmtMap && stmtMap[sql].stmt == stmt
    {
      var e := new LruEntry(sql, stmt);
      hide Linked, Owned, Sqls, R.Take, R.Recent;
      PushLinked(stmtList, stmtMap, e);
      PushOwned(stmtList, before, db.finalized, e);
      Miss(stmtList, stmtMap, e, history);
      stmtList := [e] + stmtList;
      stmtMap := stmtMap[sql := e];
      ghost var all := stmtList;
      Evict();
      history := history + [sql];
      FirstSql(stmtList, stmtMap, all);
    }

    /** Look up `sql`: a hit gives its handle; a miss prepares it, once, and if that succeeds caches it
        in front and gives its handle. A failed prepare gives no handle, gives back the one it may
        have made and leaves the cache as it was. */
    method GetCachedStmt(sql: string) returns (ok: bool, stmt: nat)
      requires Valid()
      modifies this, db
      ensures Valid()
      ensures sql in old(stmtMap) ==> ok && stmt == old(stmtMap[sql].stmt)
      ensures sql in old(stmtMap) ==>
                db.prepares == old(db.prepares) && db.made == old(db.made) && db.finalized == old(db.finalized)
      ensures sql !in old(stmtMap) ==>
                && |db.prepares| == |old(db.prepares)| + 1 && old(db.prepares) <= db.prepares
                && var p := db.prepares[|old(db.prepares)|];
                   && p.sql == sql && ok == p.ok && stmt == (if ok then p.stmt else 0)
                   && (!ok && p.stmt != 0 ==> p.stmt in db.finalized)
      ensures ok ==> history == old(history) + [sql] && sql in stmtMap && stmt == stmtMap[sql].stmt
      ensures ok && stmt != 0 ==> stmt in db.made && stmt !in db.finalized
      ensures !ok ==> stmtList == old(stmtList) && stmtMap == old(stmtMap) && history == old(history)
      ensures Sqls(stmtList) == R.Take(R.Recent(if ok then old(history) + [sql] else old(history)), PREPARED_CAP)
    {
      var hit;
      hit, stmt := Lookup(sql);
      if hit {
        ok := true;
        Live(stmtList, stmtMap, sql, db.made, db.finalized);
        return;
      }
      ghost var before := db.made;
      ok, stmt := db.Prepare(sql);
      if !ok {
        if stmt != 0 {
          GivenBack(stmtList, before, db.finalized, stmt);
          db.Finalize(stmt);
        }
        stmt := 0;
        return;
      }
      NullFree(stmtList, before, db.finalized);
      Insert(sql, stmt, before);
      Live(stmtList, stmtMap, sql, db.made, db.finalized);
    }

    /** Give every cached handle back. */
    method ClearStmtCache()
      requires Valid()
      modifies this, db`finalized
      ensures Valid() && stmtList == [] && stmtMap == map[] && history == []
      ensures db.finalized == db.made == old(db.made)
    {
      ghost var all := stmtList;
      ghost var was := db.finalized;
      for i := 0 to |stmtList|
        invariant db.Valid() && stmtList == all
        invariant db.finalized == was + Handles(all[..i])
      {
        NextHandle(all, i, db.made, was);
        if stmtList[i].stmt != 0 { db.Finalize(stmtList[i].stmt); }
      }
      assert all[..|all|] == all;
      stmtList, stmtMap, history := [], map[], [];
    }
  }

  /** The texts whose lookup succeeded. */
  function Succeeded(sqls: seq<string>, oks: seq<bool>): (s: seq<string>)
    requires |oks| == |sqls|
  {
    if sqls == [] then []
    else Succeeded(sqls[..|sqls| - 1], oks[..|sqls| - 1]) + if oks[|sqls| - 1] then [sqls[|sqls| - 1]] else []
  }

  ghost predicate Came(prepares: seq<Prepared>, sql: string, ok: bool)
  {
    exists p | p in prepares :: p.sql == sql && p.ok == ok
  }

  /** The lookups tell what came of preparing: each one's text was prepared, with success or not, and no
      other texts were. */
  ghost predicate Told(sqls: seq<string>, oks: seq<bool>, prepares: seq<Prepared>)
  {
    && |oks| == |sqls|
    && (forall p | p in prepares :: p.sql in sqls)
    && forall k | 0 <= k < |sqls| :: Came(prepares, sqls[k], oks[k])
  }

  lemma ToldMore(sqls: seq<string>, oks: seq<bool>, was: seq<Prepared>, now: seq<Prepared>, sql: string, ok: bool)
    requires Told(sqls, oks, was) && was <= now && Came(now, sql, ok)
    requires forall p | p in now :: p in was || p.sql == sql
    ensures Told(sqls + [sql], oks + [ok], now)
  {
    forall k | 0 <= k < |sqls| ensures Came(now, sqls[k], oks[k]) {
      var p :| p in was && p.sql == sqls[k] && p.ok == oks[k];
      assert p in now;
    }
  }

  lemma SucceededMore(sqls: seq<string>, oks: seq<bool>, sql: string, ok: bool)
    requires |oks| == |sqls|
    ensures Succeeded(sqls + [sql], oks + [ok]) == Succeeded(sqls, oks) + if ok then [sql] else []
  {
    assert (sqls + [sql])[..|sqls|] == sqls && (oks + [ok])[..|oks|] == oks;
  }

  /** What one lookup adds to the prepares. */
  lemma OneTold(was: seq<Prepared>, now: seq<Prepared>, sql: string, ok: bool, stmt: nat)
    requires was == now && ok ==> Prepared(sql, true, stmt) in now
    requires was == now ==> ok
    requires was != now ==>
               && now != [] && now == was + [now[|now| - 1]]
               && var p := now[|now| - 1]; p.sql == sql && p.ok == ok
    ensures Came(now, sql, ok) && was <= now && forall p | p in now :: p in was || p.sql == sql
  {
    if was != now {
      assert now[|now| - 1] in now;
    }
  }

  /** Any list of lookups on a new cache leaves in it the fifty texts most recently looked up with
      success. */
  method LookUpAll(sqls: seq<string>) returns (cache: Cache, oks: seq<bool>)
    ensures fresh(cache) && fresh(cache.db) && cache.Valid() && Told(sqls, oks, cache.db.prepares)
    ensures Sqls(cache.stmtList) == R.Take(R.Recent(Succeeded(sqls, oks)), 50)
  {
    hide *;
    cache := new Cache();
    oks := [];
    NothingTold();
    assert sqls[..0] == [];
    for i := 0 to |sqls|
      invariant fresh(cache) && fresh(cache.db) && cache.Valid() && |oks| == i
      invariant Told(sqls[..i], oks, cache.db.prepares) && cache.history == Succeeded(sqls[..i], oks)
    {
      var ok := LookUpOne(cache, sqls[i], sqls[..i], oks);
      assert sqls[..i + 1] == sqls[..i] + [sqls[i]];
      oks := oks + [ok];
    }
    assert sqls[..|sqls|] == sqls;
    CacheHolds(cache);
  }

  lemma NothingTold()
    ensures Told([], [], []) && Succeeded([], []) == []
  {
  }

  lemma CacheHolds(cache: Cache)
    requires cache.Valid()
    ensures Sqls(cache.stmtList) == R.Take(R.Recent(cache.history), 50)
  {
  }

  method LookUpOne(cache: Cache, sql: string, ghost sqls: seq<string>, ghost oks: seq<bool>) returns (ok: bool)
    requires cache.Valid() && Told(sqls, oks, cache.db.prepares)
    requires |oks| == |sqls| && cache.history == Succeeded(sqls, oks)
    modifies cache, cache.db
    ensures cache.Valid() && Told(sqls + [sql], oks + [ok], cache.db.prepares)
    ensures cache.history == Succeeded(sqls + [sql], oks + [ok])
  {
    hide Told, Succeeded, Came, R.Take, R.Recent, Sqls, Linked, Owned;
    ghost var was := cache.db.prepares;
    var stmt;
    ok, stmt := cache.GetCachedStmt(sql);
    OneTold(was, cache.db.prepares, sql, ok, stmt);
    ToldMore(sqls, oks, was, cache.db.prepares, sql, ok);
    SucceededMore(sqls, oks, sql, ok);
  }

  /** On a hit, moving the node to the front keeps the texts the most recent ones. */
  lemma Hit(list: seq<LruEntry>, m: map<string, LruEntry>, sql: string, history: seq<string>)
    requires Linked(list, m) && sql in m && Sqls(list) == R.Take(R.Recent(history), PREPARED_CAP)
    ensures m[sql] in list && m[sql].sql == sql
    ensures var r := ToFront(list, Find(list, m[sql]));
            |r| > 0 && r[0] == m[sql] && Sqls(r) == R.Take(R.Recent(history + [sql]), PREPARED_CAP)
  {
    SqlsDistinct(list, m);
    FrontSqls(list, Find(list, m[sql]));
    R.TakeStep(history, sql, PREPARED_CAP);
  }

  /** On a miss, adding a node in front and cutting at the cap does. */
  lemma Miss(list: seq<LruEntry>, m: map<string, LruEntry>, e: LruEntry, history: seq<string>)
    requires Linked(list, m) && e.sql !in m && Sqls(list) == R.Take(R.Recent(history), PREPARED_CAP)
    ensures R.Take(Sqls([e] + list), PREPARED_CAP) == R.Take(R.Recent(history + [e.sql]), PREPARED_CAP)
    ensures |R.Take(Sqls([e] + list), PREPARED_CAP)| > 0
  {
    SqlsDistinct(list, m);
    assert ([e] + list)[1..] == list;
    R.TakeStep(history, e.sql, PREPARED_CAP);
  }

  lemma FirstSql(list: seq<LruEntry>, m: map<string, LruEntry>, all: seq<LruEntry>)
    requires Linked(list, m) && list <= all && |Sqls(list)| > 0
    ensures |list| > 0 && all[0].sql in m && m[all[0].sql] == all[0]
  {
  }

  lemma NullFree(list: seq<LruEntry>, made: set<nat>, finalized: set<nat>)
    ensures Owned(list, made, finalized) ==> 0 !in made
  {
  }

  lemma GivenBack(list: seq<LruEntry>, made: set<nat>, finalized: set<nat>, h: nat)
    requires Owned(list, made, finalized) && h !in made && h != 0
    ensures h !in finalized && Owned(list, made + {h}, finalized + {h})
  {
  }

  lemma NextHandle(list: seq<LruEntry>, i: nat, made: set<nat>, finalized: set<nat>)
    requires Owned(list, made, finalized) && i < |list|
    ensures var h := list[i].stmt;
            && Handles(list[..i + 1]) == Handles(list[..i]) + (if h != 0 then {h} else {})
            && (h != 0 ==> h in made && h !in finalized + Handles(list[..i]))
  {
    var h := list[i].stmt;
    var a, b := list[..i], list[..i + 1];
    forall x ensures x in Handles(b) <==> x in Handles(a) || (x == h && h != 0) {
      if x in Handles(b) {
        var j :| 0 <= j < |b| && b[j].stmt == x && x != 0;
        assert j < i ==> a[j].stmt == x;
      }
      if x in Handles(a) {
        var j :| 0 <= j < |a| && a[j].stmt == x;
        assert b[j].stmt == x;
      }
      assert b[i].stmt == h;
    }
    assert h != 0 ==> h in Handles(list);
  }

  lemma SqlsPrefix(list: seq<LruEntry>, n: nat)
    requires n <= |list|
    ensures Sqls(list[..n]) == Sqls(list)[..n]
  {
    hide Sqls;
    assert forall i | 0 <= i < n :: Sqls(list[..n])[i] == Sqls(list)[..n][i];
  }

  lemma Live(list: seq<LruEntry>, m: map<string, LruEntry>, sql: string, made: set<nat>, finalized: set<nat>)
    requires Linked(list, m) && Owned(list, made, finalized) && sql in m
    ensures m[sql].stmt != 0 ==> m[sql].stmt in made && m[sql].stmt !in finalized
  {
    var k := Find(list, m[sql]);
    assert list[k].stmt != 0 ==> list[k].stmt in Handles(list);
  }
}
