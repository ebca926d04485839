/** Logs built by appending verify clean; changing one byte of a row is reported at that row. */
module AuditProofs {
  import opened Fnv
  import opened AuditLog

  // ---- The row code is injective in one byte ----------------------------------------------------

  lemma {:induction false} HexInjective(s: Bytes, t: Bytes)
    requires |s| == |t| && Hex(s) == Hex(t)
    ensures s == t
  {
    if s != [] {
      assert Hex(s)[0] == HexDigit(s[0] / 16) && Hex(s)[1] == HexDigit(s[0] % 16);
      assert Hex(t)[0] == HexDigit(t[0] / 16) && Hex(t)[1] == HexDigit(t[0] % 16);
      assert Hex(s)[2..] == Hex(s[1..]) && Hex(t)[2..] == Hex(t[1..]);
      HexInjective(s[1..], t[1..]);
      assert s[0] == 16 * (s[0] / 16) + s[0] % 16 && t[0] == 16 * (t[0] / 16) + t[0] % 16;
    }
  }

  function Pow256(n: nat): (p: nat)
    ensures p > 0
  {
    if n == 0 then 1 else 256 * Pow256(n - 1)
  }

  lemma {:induction false} LittleEndianInjective(g: nat, h: nat, n: nat)
    requires g < Pow256(n) && h < Pow256(n) && LittleEndian(g, n) == LittleEndian(h, n)
    ensures g == h
  {
    if n > 0 {
      assert LittleEndian(g, n)[0] == g % 256 && LittleEndian(h, n)[0] == h % 256;
      assert LittleEndian(g, n)[1..] == LittleEndian(g / 256, n - 1);
      assert LittleEndian(h, n)[1..] == LittleEndian(h / 256, n - 1);
      LittleEndianInjective(g / 256, h / 256, n - 1);
    }
  }

  lemma EightBytes()
    ensures Pow256(8) == WORD
  {
    assert Pow256(8) == 256 * Pow256(7);
    assert Pow256(7) == 256 * Pow256(6);
    assert Pow256(6) == 256 * Pow256(5);
    assert Pow256(5) == 256 * Pow256(4);
    assert Pow256(4) == 256 * Pow256(3);
    assert Pow256(3) == 256 * Pow256(2);
    assert Pow256(2) == 256 * Pow256(1);
    assert Pow256(1) == 256;
  }

  /** Equal codes come from equal first streams. */
  lemma MacStream(key: Bytes, m: Bytes, n: Bytes)
    requires Mac(key, m) == Mac(key, n)
    ensures Hash(m, Hash(key, BASIS)) == Hash(n, Hash(key, BASIS))
  {
    var k := Hash(key, BASIS);
    var a, b := LittleEndian(Hash(m, k), 8), LittleEndian(Hash(n, k), 8);
    var a2 := LittleEndian(Hash(m + Reversed(key), Hash(key, PRIME)), 8);
    var b2 := LittleEndian(Hash(n + Reversed(key), Hash(key, PRIME)), 8);
    HexInjective(a + a2, b + b2);
    assert a == (a + a2)[..8] && b == (b + b2)[..8];
    EightBytes();
    LittleEndianInjective(Hash(m, k), Hash(n, k), 8);
  }

  /** `t` is `s` with exactly one byte changed. */
  ghost predicate OneByte(s: Bytes, t: Bytes)
  {
    exists i :: 0 <= i < |s| && IsChange(s, t, i)
  }

  predicate IsChange(s: Bytes, t: Bytes, i: nat)
    requires i < |s|
  {
    |s| == |t| && s[i] != t[i] && s[..i] == t[..i] && s[i + 1..] == t[i + 1..]
  }

  lemma OneByteMac(key: Bytes, s: Bytes, t: Bytes)
    requires OneByte(s, t)
    ensures Mac(key, s) != Mac(key, t)
  {
    var i :| 0 <= i < |s| && IsChange(s, t, i);
    assert s == s[..i] + [s[i]] + s[i + 1..] && t == t[..i] + [t[i]] + t[i + 1..];
    OneByteChanges(s[..i], s[i], t[i], s[i + 1..], Hash(key, BASIS));
    if Mac(key, s) == Mac(key, t) {
      MacStream(key, s, t);
    }
  }

  lemma OneByteInside(a: Bytes, s: Bytes, t: Bytes, z: Bytes)
    requires OneByte(s, t)
    ensures OneByte(a + (s + z), a + (t + z))
  {
    var i :| 0 <= i < |s| && IsChange(s, t, i);
    var x, y, j := a + (s + z), a + (t + z), |a| + i;
    assert x[..j] == a + s[..i] && y[..j] == a + t[..i];
    assert x[j + 1..] == s[i + 1..] + z && y[j + 1..] == t[i + 1..] + z;
    assert IsChange(x, y, j);
  }

  // ---- Rows and their text --------------------------------------------------------------------------

  predicate Plain(s: Bytes)
  {
    PIPE !in s && NEWLINE !in s
  }

  predicate PlainRow(r: Row)
  {
    Plain(r.ts) && Plain(r.actor) && Plain(r.event) && Plain(r.payload) && Plain(r.prev) && Plain(r.hmac)
  }

  lemma FirstPipe(f: Bytes, rest: Bytes)
    requires PIPE !in f
    ensures IndexOf(f + ([PIPE] + rest), PIPE) == |f|
  {
    var line := f + ([PIPE] + rest);
    assert line[|f|] == PIPE;
    assert forall j | 0 <= j < |f| :: line[j] == f[j] && f[j] in f;
  }

  lemma FirstField(f: Bytes, rest: Bytes, n: nat)
    requires PIPE !in f && n > 0
    ensures Fields(f + ([PIPE] + rest), n) == [f] + Fields(rest, n - 1)
  {
    hide IndexOf;
    var line := f + ([PIPE] + rest);
    FirstPipe(f, rest);
    assert line[..|f|] == f && line[|f| + 1..] == rest;
  }

  lemma LastField(f: Bytes)
    requires PIPE !in f
    ensures Fields(f, 1) == [f]
  {
  }

  /** Reading back a written row gives its six fields. */
  lemma RowReadsBack(r: Row)
    requires PlainRow(r)
    ensures RowOf(LineOf(r)) == r && LineOf(r) != []
  {
    hide *;
    RowFields(r);
    PipesReadBack(r);
  }

  lemma PipesReadBack(r: Row)
    requires PIPE !in r.ts && PIPE !in r.actor && PIPE !in r.event && PIPE !in r.payload && PIPE !in r.prev
    requires PIPE !in r.hmac
    ensures RowOf(LineOf(r)) == r && LineOf(r) != []
  {
    hide *;
    var l5 := r.hmac;
    var l4 := r.prev + ([PIPE] + l5);
    var l3 := r.payload + ([PIPE] + l4);
    var l2 := r.event + ([PIPE] + l3);
    var l1 := r.actor + ([PIPE] + l2);
    LineNested(r, l4, l3, l2, l1);
    FirstField(r.ts, l1, 6);
    FirstField(r.actor, l2, 5);
    FirstField(r.event, l3, 4);
    FirstField(r.payload, l4, 3);
    FirstField(r.prev, l5, 2);
    LastField(l5);
    SixFields(r, LineOf(r));
  }

  lemma RowFields(r: Row)
    requires PlainRow(r)
    ensures PIPE !in r.ts && PIPE !in r.actor && PIPE !in r.event && PIPE !in r.payload && PIPE !in r.prev
    ensures PIPE !in r.hmac
  {
  }

  lemma SixFields(r: Row, line: Bytes)
    requires Fields(line, 6) == [r.ts] + ([r.actor] + ([r.event] + ([r.payload] + ([r.prev] + [r.hmac]))))
    requires line == LineOf(r)
    ensures RowOf(line) == r && line != []
  {
    hide Fields;
  }

  lemma Reassoc(a: Bytes, p: Bytes, b: Bytes, c: Bytes)
    ensures (a + (p + b)) + c == a + (p + (b + c))
  {
  }

  lemma LineNested(r: Row, l4: Bytes, l3: Bytes, l2: Bytes, l1: Bytes)
    requires l4 == r.prev + ([PIPE] + r.hmac) && l3 == r.payload + ([PIPE] + l4)
    requires l2 == r.event + ([PIPE] + l3) && l1 == r.actor + ([PIPE] + l2)
    ensures LineOf(r) == r.ts + ([PIPE] + l1)
  {
    var z, p := [PIPE] + r.hmac, [PIPE];
    var c3 := r.payload + (p + r.prev);
    var c2 := r.event + (p + c3);
    var c1 := r.actor + (p + c2);
    assert LineOf(r) == (r.ts + (p + c1)) + z;
    hide *;
    Reassoc(r.payload, p, r.prev, z);
    Reassoc(r.event, p, c3, z);
    Reassoc(r.actor, p, c2, z);
    Reassoc(r.ts, p, c1, z);
  }

  // ---- Chains of rows -----------------------------------------------------------------------------------

  function Lines(rows: seq<Row>): (lines: seq<Bytes>)
    ensures |lines| == |rows| && forall i | 0 <= i < |rows| :: lines[i] == LineOf(rows[i])
  {
    seq(|rows|, i requires 0 <= i < |rows| => LineOf(rows[i]))
  }

  /** The reported line numbers of rows `n + 1`, `n + 2`, ... from code `prev` on. */
  function BadFrom(key: Bytes, rows: seq<Row>, prev: Bytes, n: nat): (bad: seq<nat>)
    decreases |rows|
  {
    if rows == [] then []
    else Report(RowBad(key, rows[0], prev), n + 1) + BadFrom(key, rows[1..], rows[0].hmac, n + 1)
  }

  lemma {:induction false} LinesVerify(key: Bytes, rows: seq<Row>, prev: Bytes, n: nat)
    requires forall r | r in rows :: PlainRow(r)
    ensures BadRows(key, EntriesFrom(Lines(rows), n), prev) == BadFrom(key, rows, prev, n)
    decreases |rows|
  {
    if rows != [] {
      var r := rows[0];
      assert r in rows;
      RowReadsBack(r);
      assert Lines(rows)[1..] == Lines(rows[1..]);
      LinesVerify(key, rows[1..], r.hmac, n + 1);
      hide RowOf, LineOf, RowBad;
      assert EntriesFrom(Lines(rows), n) == [Entry(r, n + 1)] + EntriesFrom(Lines(rows[1..]), n + 1);
    }
  }

  function LastCode(rows: seq<Row>, prev: Bytes): (p: Bytes)
  {
    if rows == [] then prev else rows[|rows| - 1].hmac
  }

  lemma {:induction false} BadConcat(key: Bytes, a: seq<Row>, b: seq<Row>, prev: Bytes, n: nat)
    ensures BadFrom(key, a + b, prev, n) == BadFrom(key, a, prev, n) + BadFrom(key, b, LastCode(a, prev), n + |a|)
    decreases |a|
  {
    hide *;
    if a == [] {
      assert a + b == b;
      BadEmpty(key, prev, n);
    } else {
      assert (a + b)[1..] == a[1..] + b;
      assert (a + b)[0] == a[0];
      BadHead(key, a + b, prev, n);
      BadHead(key, a, prev, n);
      BadConcat(key, a[1..], b, a[0].hmac, n + 1);
    }
  }

  lemma BadEmpty(key: Bytes, prev: Bytes, n: nat)
    ensures BadFrom(key, [], prev, n) == [] && LastCode([], prev) == prev
  {
  }

  lemma BadHead(key: Bytes, rows: seq<Row>, prev: Bytes, n: nat)
    requires rows != []
    ensures BadFrom(key, rows, prev, n) ==
            Report(RowBad(key, rows[0], prev), n + 1) + BadFrom(key, rows[1..], rows[0].hmac, n + 1)
    ensures LastCode(rows, prev) == LastCode(rows[1..], rows[0].hmac)
  {
    hide RowBad, Report;
  }

  // ---- Logs built by appending ----------------------------------------------------------------------------

  /** The lines after appending `e`. */
  function Appended(key: Bytes, lines: seq<Bytes>, e: Event): (r: seq<Bytes>)
  {
    lines + [LineOf(NewRow(key, PrevCode(lines), e))]
  }

  function Built(key: Bytes, events: seq<Event>): (lines: seq<Bytes>)
  {
    if events == [] then []
    else Appended(key, Built(key, events[..|events| - 1]), events[|events| - 1])
  }

  lemma HexPlain(s: Bytes)
    ensures Plain(Hex(s)) && SPACE !in Hex(s) && TAB !in Hex(s)
  {
  }

  /** The code found at the end of a log is the last row's. */
  lemma PrevOfLines(rows: seq<Row>)
    requires rows != [] && PlainRow(rows[|rows| - 1])
    requires var h := rows[|rows| - 1].hmac; h != [] && h[0] != SPACE && h[0] != TAB
    ensures PrevCode(Lines(rows)) == rows[|rows| - 1].hmac
  {
    var r := rows[|rows| - 1];
    RowReadsBack(r);
    assert LastNonEmpty(Lines(rows)) == LineOf(r);
    AfterPipe(Covered(r, r.prev), r.hmac);
  }

  lemma {:induction false} AfterPipe(a: Bytes, f: Bytes)
    requires PIPE !in f
    ensures AfterLastPipe(a + ([PIPE] + f)) == f
    decreases |a|
  {
    var s := a + ([PIPE] + f);
    assert s[|a|] == PIPE;
    var q := IndexOf(s, PIPE);
    if q == |a| {
      assert s[q + 1..] == f;
    } else {
      var b := a[q + 1..];
      assert s[q + 1..] == b + ([PIPE] + f);
      assert (b + ([PIPE] + f))[|b|] == PIPE;
      AfterPipe(b, f);
    }
  }

  lemma NewRowPlain(key: Bytes, prev: Bytes, e: Event)
    requires Plain(prev) && Plain(e.ts)
    ensures PlainRow(NewRow(key, prev, e)) && !RowBad(key, NewRow(key, prev, e), prev)
    ensures var h := NewRow(key, prev, e).hmac; |h| == 32 && h[0] != SPACE && h[0] != TAB
  {
    var r := NewRow(key, prev, e);
    var s := Row(e.ts, Sanitized(e.actor), Sanitized(e.event), Sanitized(e.payload), prev, []);
    assert Covered(r, prev) == Covered(s, prev);
    var h1 := Hash(Covered(s, prev), Hash(key, BASIS));
    var h2 := Hash(Covered(s, prev) + Reversed(key), Hash(key, PRIME));
    HexPlain(LittleEndian(h1, 8) + LittleEndian(h2, 8));
    assert r.hmac[0] in r.hmac;
    SanitizedPlain(e.actor);
    SanitizedPlain(e.event);
    SanitizedPlain(e.payload);
  }

  lemma SanitizedPlain(s: Bytes)
    ensures Plain(Sanitized(s))
  {
  }

  /** Every log built by appending is a clean chain of plain rows. */
  lemma {:induction false} BuiltRows(key: Bytes, events: seq<Event>) returns (rows: seq<Row>)
    requires forall e | e in events :: Plain(e.ts)
    ensures Built(key, events) == Lines(rows) && |rows| == |events|
    ensures forall r | r in rows :: PlainRow(r)
    ensures BadFrom(key, rows, GENESIS, 0) == []
    ensures rows != [] ==> var h := rows[|rows| - 1].hmac; |h| == 32 && h[0] != SPACE && h[0] != TAB
    decreases |events|
  {
    hide *;
    if events == [] {
      rows := [];
      NothingBuilt(key);
    } else {
      var init, e := events[..|events| - 1], events[|events| - 1];
      assert e in events && forall x | x in init :: x in events;
      var was := BuiltRows(key, init);
      var prev := PrevCode(Lines(was));
      PrevIs(was);
      var r := NewRow(key, prev, e);
      BuiltSnoc(key, events);
      AppendedIs(key, Lines(was), e);
      NewRowPlain(key, prev, e);
      rows := was + [r];
      BadConcat(key, was, [r], GENESIS, 0);
      BadOne(key, r, prev, |was|);
      ReportNone(|was| + 1);
      LinesSnoc(was, r);
    }
  }

  lemma NothingBuilt(key: Bytes)
    ensures Built(key, []) == Lines([]) && BadFrom(key, [], GENESIS, 0) == []
  {
  }

  lemma BuiltSnoc(key: Bytes, events: seq<Event>)
    requires events != []
    ensures Built(key, events) == Appended(key, Built(key, events[..|events| - 1]), events[|events| - 1])
  {
  }

  lemma AppendedIs(key: Bytes, lines: seq<Bytes>, e: Event)
    ensures Appended(key, lines, e) == lines + [LineOf(NewRow(key, PrevCode(lines), e))]
  {
    hide NewRow, LineOf;
  }

  lemma ReportNone(n: nat)
    ensures Report(false, n) == []
  {
  }

  lemma LinesSnoc(rows: seq<Row>, r: Row)
    ensures Lines(rows + [r]) == Lines(rows) + [LineOf(r)]
  {
    hide LineOf;
  }

  /** In a chain of plain rows the code found is the last one. */
  lemma PrevIs(rows: seq<Row>)
    requires forall r | r in rows :: PlainRow(r)
    requires rows != [] ==> var h := rows[|rows| - 1].hmac; |h| == 32 && h[0] != SPACE && h[0] != TAB
    ensures PrevCode(Lines(rows)) == LastCode(rows, GENESIS) && Plain(PrevCode(Lines(rows)))
  {
    if rows == [] {
      assert Lines(rows) == [];
    } else {
      assert rows[|rows| - 1] in rows;
      PrevOfLines(rows);
    }
  }

  lemma BadOne(key: Bytes, r: Row, prev: Bytes, n: nat)
    ensures BadFrom(key, [r], prev, n) == Report(RowBad(key, r, prev), n + 1)
  {
    assert [r][1..] == [];
  }

  /** A log built by any sequence of appends verifies with no bad row. */
  lemma BuiltVerifies(key: Bytes, events: seq<Event>)
    requires forall e | e in events :: Plain(e.ts)
    ensures BadRows(key, EntriesFrom(Built(key, events), 0), GENESIS) == []
  {
    var rows := BuiltRows(key, events);
    LinesVerify(key, rows, GENESIS, 0);
  }

  // ---- One changed byte ----------------------------------------------------------------------------------

  datatype Field = Ts | Actor | Ev | Payload | Prev | Code

  function Get(r: Row, f: Field): (s: Bytes)
  {
    match f
    case Ts => r.ts
    case Actor => r.actor
    case Ev => r.event
    case Payload => r.payload
    case Prev => r.prev
    case Code => r.hmac
  }

  /** `t` is `r` with one byte of field `f` changed, to neither a pipe nor a newline. */
  ghost predicate Tampered(r: Row, t: Row, f: Field)
  {
    && OneByte(Get(r, f), Get(t, f)) && Plain(Get(t, f))
    && forall g: Field | g != f :: Get(t, g) == Get(r, g)
  }

  lemma CoveredParts(r: Row, prev: Bytes)
    ensures Covered(r, prev)
            == [] + (r.ts + ([PIPE] + (r.actor + ([PIPE] + (r.event + ([PIPE] + (r.payload + ([PIPE] + prev))))))))
    ensures Covered(r, prev)
            == (r.ts + [PIPE]) + (r.actor + ([PIPE] + (r.event + ([PIPE] + (r.payload + ([PIPE] + prev))))))
    ensures Covered(r, prev)
            == (r.ts + [PIPE] + r.actor + [PIPE]) + (r.event + ([PIPE] + (r.payload + ([PIPE] + prev))))
    ensures Covered(r, prev) == (r.ts + [PIPE] + r.actor + [PIPE] + r.event + [PIPE]) + (r.payload + ([PIPE] + prev))
  {
  }

  lemma Differs(s: Bytes, t: Bytes)
    requires OneByte(s, t)
    ensures s != t
  {
  }

  /** Changing a covered field changes what the code covers in one byte. */
  lemma TamperCovered(r: Row, t: Row, f: Field, prev: Bytes)
    requires Tampered(r, t, f) && f != Prev && f != Code
    ensures OneByte(Covered(r, prev), Covered(t, prev))
  {
    var p := [PIPE];
    CoveredParts(r, prev);
    CoveredParts(t, prev);
    SameElsewhere(r, t, f);
    hide Covered, OneByte;
    match f
    case Ts => OneByteInside([], r.ts, t.ts, p + (r.actor + (p + (r.event + (p + (r.payload + (p + prev)))))));
    case Actor => OneByteInside(r.ts + p, r.actor, t.actor, p + (r.event + (p + (r.payload + (p + prev)))));
    case Ev => OneByteInside(r.ts + p + r.actor + p, r.event, t.event, p + (r.payload + (p + prev)));
    case Payload => OneByteInside(r.ts + p + r.actor + p + r.event + p, r.payload, t.payload, p + prev);
  }

  lemma SameElsewhere(r: Row, t: Row, f: Field)
    requires Tampered(r, t, f)
    ensures f != Ts ==> t.ts == r.ts
    ensures f != Actor ==> t.actor == r.actor
    ensures f != Ev ==> t.event == r.event
    ensures f != Payload ==> t.payload == r.payload
    ensures f != Prev ==> t.prev == r.prev
    ensures f != Code ==> t.hmac == r.hmac
    ensures OneByte(Get(r, f), Get(t, f)) && Plain(Get(t, f))
  {
    assert f != Ts ==> Get(t, Ts) == Get(r, Ts);
    assert f != Actor ==> Get(t, Actor) == Get(r, Actor);
    assert f != Ev ==> Get(t, Ev) == Get(r, Ev);
    assert f != Payload ==> Get(t, Payload) == Get(r, Payload);
    assert f != Prev ==> Get(t, Prev) == Get(r, Prev);
    assert f != Code ==> Get(t, Code) == Get(r, Code);
  }

  /** A row changed in one byte no longer fits where it stands. */
  lemma TamperedIsBad(key: Bytes, r: Row, t: Row, f: Field, prev: Bytes)
    requires Tampered(r, t, f) && !RowBad(key, r, prev)
    ensures RowBad(key, t, prev)
  {
    SameElsewhere(r, t, f);
    Differs(Get(r, f), Get(t, f));
    if f == Code {
      assert Covered(t, prev) == Covered(r, prev);
    } else if f != Prev {
      TamperCovered(r, t, f, prev);
      OneByteMac(key, Covered(r, prev), Covered(t, prev));
    }
  }

  /** The rows after one whose code changed: only the next one notices. */
  lemma NextNotices(key: Bytes, b: seq<Row>, was: Bytes, now: Bytes, n: nat)
    requires BadFrom(key, b, was, n) == [] && was != now
    ensures BadFrom(key, b, now, n) == if b == [] then [] else [n + 1]
  {
    if b != [] {
      hide Mac, Covered;
      assert Report(RowBad(key, b[0], was), n + 1) == [] && BadFrom(key, b[1..], b[0].hmac, n + 1) == [];
    }
  }

  /** In a clean chain of plain rows, changing one byte of a row's time, actor, event, payload or
      previous code is reported at exactly that row. Changing one byte of its own code is reported
      there and, if there is a next row, at the next one. */
  lemma TamperLocated(key: Bytes, rows: seq<Row>, k: nat, t: Row, f: Field)
    requires k < |rows| && BadFrom(key, rows, GENESIS, 0) == [] && Tampered(rows[k], t, f)
    ensures BadFrom(key, rows[k := t], GENESIS, 0) ==
            if f == Code && k + 1 < |rows| then [k + 1, k + 2] else [k + 1]
  {
    hide *;
    var a, r, b := rows[..k], rows[k], rows[k + 1..];
    assert rows == a + ([r] + b) && rows[k := t] == a + ([t] + b);
    var prev := LastCode(a, GENESIS);
    CleanParts(key, a, r, b);
    TamperedIsBad(key, r, t, f, prev);
    SplitBad(key, a, t, b, 0);
    ReportSome(k + 1);
    CodeChanged(r, t, f);
    if f == Code {
      NextNotices(key, b, r.hmac, t.hmac, k + 1);
    }
  }

  /** Every part of a clean chain is clean. */
  lemma CleanParts(key: Bytes, a: seq<Row>, r: Row, b: seq<Row>)
    requires BadFrom(key, a + ([r] + b), GENESIS, 0) == []
    ensures BadFrom(key, a, GENESIS, 0) == [] && BadFrom(key, b, r.hmac, |a| + 1) == []
    ensures !RowBad(key, r, LastCode(a, GENESIS))
  {
    hide *;
    SplitBad(key, a, r, b, 0);
    ReportClean(key, r, LastCode(a, GENESIS), |a| + 1);
  }

  lemma CodeChanged(r: Row, t: Row, f: Field)
    requires Tampered(r, t, f)
    ensures f == Code <==> r.hmac != t.hmac
  {
    SameElsewhere(r, t, f);
    Differs(Get(r, f), Get(t, f));
  }

  lemma ReportSome(n: nat)
    ensures Report(true, n) == [n]
  {
  }

  lemma ReportClean(key: Bytes, r: Row, prev: Bytes, n: nat)
    ensures Report(RowBad(key, r, prev), n) == [] ==> !RowBad(key, r, prev)
  {
  }

  lemma SplitBad(key: Bytes, a: seq<Row>, r: Row, b: seq<Row>, n: nat)
    ensures var prev := LastCode(a, GENESIS);
            BadFrom(key, a + ([r] + b), GENESIS, n) ==
            BadFrom(key, a, GENESIS, n)
            + (Report(RowBad(key, r, prev), n + |a| + 1) + BadFrom(key, b, r.hmac, n + |a| + 1))
  {
    BadConcat(key, a, [r] + b, GENESIS, n);
    BadConcat(key, [r], b, LastCode(a, GENESIS), n + |a|);
    BadOne(key, r, LastCode(a, GENESIS), n + |a|);
    assert LastCode([r], LastCode(a, GENESIS)) == r.hmac;
  }

  /** The same for the file of a log built by appending: the line of row `k` is replaced. */
  lemma TamperReported(key: Bytes, events: seq<Event>, k: nat) returns (r: Row)
    requires (forall e | e in events :: Plain(e.ts)) && k < |events|
    ensures |Built(key, events)| == |events| && Built(key, events)[k] == LineOf(r) && PlainRow(r)
    ensures forall t: Row, f: Field | Tampered(r, t, f) ::
              BadRows(key, EntriesFrom(Built(key, events)[k := LineOf(t)], 0), GENESIS) ==
              if f == Code && k + 1 < |events| then [k + 1, k + 2] else [k + 1]
  {
    var rows := BuiltRows(key, events);
    r := rows[k];
    assert r in rows;
    forall t: Row, f: Field | Tampered(r, t, f)
      ensures BadRows(key, EntriesFrom(Built(key, events)[k := LineOf(t)], 0), GENESIS) ==
              if f == Code && k + 1 < |events| then [k + 1, k + 2] else [k + 1]
    {
      TamperedLines(key, rows, k, t, f);
    }
  }

  lemma TamperedLines(key: Bytes, rows: seq<Row>, k: nat, t: Row, f: Field)
    requires (forall r | r in rows :: PlainRow(r)) && BadFrom(key, rows, GENESIS, 0) == []
    requires k < |rows| && Tampered(rows[k], t, f)
    ensures BadRows(key, EntriesFrom(Lines(rows)[k := LineOf(t)], 0), GENESIS) ==
            if f == Code && k + 1 < |rows| then [k + 1, k + 2] else [k + 1]
  {
    hide *;
    var now := rows[k := t];
    assert rows[k] in rows;
    TamperedPlain(rows[k], t, f);
    LinesUpdate(rows, k, t);
    assert forall x | x in now :: x in rows || x == t;
    TamperLocated(key, rows, k, t, f);
    LinesVerify(key, now, GENESIS, 0);
  }

  lemma TamperedPlain(r: Row, t: Row, f: Field)
    requires Tampered(r, t, f) && PlainRow(r)
    ensures PlainRow(t)
  {
    SameElsewhere(r, t, f);
    hide Plain, OneByte;
  }

  lemma LinesUpdate(rows: seq<Row>, k: nat, t: Row)
    requires k < |rows|
    ensures Lines(rows[k := t]) == Lines(rows)[k := LineOf(t)]
  {
    hide LineOf;
  }

  // ---- Removed rows ---------------------------------------------------------------------------------------

  /** Whether rows are clean does not depend on how they are numbered. */
  lemma {:induction false} CleanAnywhere(key: Bytes, rows: seq<Row>, prev: Bytes, n: nat, m: nat)
    ensures BadFrom(key, rows, prev, n) == [] <==> BadFrom(key, rows, prev, m) == []
  {
    if rows != [] {
      hide RowBad;
      CleanAnywhere(key, rows[1..], rows[0].hmac, n + 1, m + 1);
    }
  }

  /** When the rows from `i` up to `j` are removed from a clean chain, nothing is reported if and only
      if they were its last rows or the code before them is also the last of theirs. Otherwise
      exactly the row that follows the gap is reported. */
  lemma RowsRemoved(key: Bytes, rows: seq<Row>, i: nat, j: nat)
    requires i <= j <= |rows| && BadFrom(key, rows, GENESIS, 0) == []
    ensures var bad := BadFrom(key, rows[..i] + rows[j..], GENESIS, 0);
            && (bad == [] <==> j == |rows| || LastCode(rows[..i], GENESIS) == LastCode(rows[..j], GENESIS))
            && (bad == [] || bad == [i + 1])
  {
    hide *;
    var a, b, c := rows[..i], rows[i..j], rows[j..];
    var p, q := LastCode(a, GENESIS), LastCode(rows[..j], GENESIS);
    assert rows == rows[..j] + c && rows[..j] == a + b;
    BadConcat(key, rows[..j], c, GENESIS, 0);
    BadConcat(key, a, b, GENESIS, 0);
    BadConcat(key, a, c, GENESIS, 0);
    CleanAnywhere(key, c, q, j, i);
    if p != q {
      NextNotices(key, c, q, p, i);
    }
  }

  /** The same for the lines of a log built by appending. */
  lemma RemovalReported(key: Bytes, events: seq<Event>, i: nat, j: nat) returns (rows: seq<Row>)
    requires (forall e | e in events :: Plain(e.ts)) && i <= j <= |events|
    ensures Built(key, events) == Lines(rows) && |rows| == |events|
    ensures var bad := BadRows(key, EntriesFrom(Built(key, events)[..i] + Built(key, events)[j..], 0), GENESIS);
            && (bad == [] <==> j == |events| || LastCode(rows[..i], GENESIS) == LastCode(rows[..j], GENESIS))
            && (bad == [] || bad == [i + 1])
  {
    hide *;
    rows := BuiltRows(key, events);
    var now := rows[..i] + rows[j..];
    LinesCut(rows, i, j);
    assert forall x | x in now :: x in rows;
    RowsRemoved(key, rows, i, j);
    LinesVerify(key, now, GENESIS, 0);
  }

  lemma LinesCut(rows: seq<Row>, i: nat, j: nat)
    requires i <= j <= |rows|
    ensures |Lines(rows)| == |rows| && Lines(rows[..i] + rows[j..]) == Lines(rows)[..i] + Lines(rows)[j..]
  {
    hide LineOf;
  }
}
