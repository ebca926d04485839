/** An audit log holds what was appended to it: the fields of every row, the code each row carries and
    the text it is written as, said in bytes. */
module AuditContents {
  import opened Fnv
  import opened AuditLog
  import opened AuditProofs

  // ---- The fields of a row ----------------------------------------------------------------------

  lemma SanitizedSpaced(s: Bytes)
    ensures Spaced(s, Sanitized(s))
  {
  }

  lemma NewRowHolds(key: Bytes, prev: Bytes, e: Event)
    ensures var r := NewRow(key, prev, e);
            && Holds(r, e) && r.prev == prev
            && r.hmac == Mac(key, r.ts + [124] + r.actor + [124] + r.event + [124] + r.payload + [124] + prev)
  {
    hide Mac, Spaced, Sanitized;
    SanitizedSpaced(e.actor);
    SanitizedSpaced(e.event);
    SanitizedSpaced(e.payload);
    var r := NewRow(key, prev, e);
    CoveredText(r, prev);
    assert Covered(r, prev) == Covered(r.(hmac := []), prev);
  }

  lemma CoveredText(r: Row, prev: Bytes)
    ensures Covered(r, prev) == r.ts + [124] + r.actor + [124] + r.event + [124] + r.payload + [124] + prev
    ensures Covered(r.(hmac := []), prev) == Covered(r, prev)
  {
  }

  lemma LineText(r: Row)
    ensures LineOf(r) ==
            r.ts + [124] + r.actor + [124] + r.event + [124] + r.payload + [124] + r.prev + [124] + r.hmac
  {
    CoveredText(r, r.prev);
    hide Covered;
  }

  /** The rows of a log built by appending, beside `BuiltRows`. */
  lemma {:induction false} RowsHold(key: Bytes, events: seq<Event>, rows: seq<Row>, k: nat)
    requires (forall e | e in events :: Plain(e.ts)) && k < |events|
    requires Built(key, events) == Lines(rows) && |rows| == |events| && forall r | r in rows :: PlainRow(r)
    ensures Holds(rows[k], events[k])
    ensures rows[k].prev == if k == 0 then seq(16, _ => 48) else rows[k - 1].hmac
    ensures rows[k].hmac ==
            Mac(key, rows[k].ts + [124] + rows[k].actor + [124] + rows[k].event + [124] + rows[k].payload
                     + [124] + rows[k].prev)
    decreases |events|
  {
    hide *;
    var n := |events| - 1;
    var init, e, was := events[..n], events[n], rows[..n];
    assert e in events && forall x | x in init :: x in events;
    BuiltSnoc(key, events);
    AppendedIs(key, Built(key, init), e);
    LinesFront(rows, Built(key, init), LineOf(NewRow(key, PrevCode(Built(key, init)), e)));
    assert forall r | r in was :: r in rows;
    if k < n {
      RowsHold(key, init, was, k);
    } else {
      var shown := BuiltRows(key, init);
      SameRows(shown, was);
      PrevIs(was);
      var prev := PrevCode(Built(key, init));
      NewRowPlain(key, prev, e);
      assert rows[n] in rows;
      SameLine(rows[n], NewRow(key, prev, e));
      NewRowHolds(key, prev, e);
      LastIs(was);
    }
  }

  lemma LastIs(rows: seq<Row>)
    ensures LastCode(rows, GENESIS) == if rows == [] then seq(16, _ => 48) else rows[|rows| - 1].hmac
  {
    assert GENESIS == seq(16, _ => 48);
  }

  lemma LinesFront(rows: seq<Row>, lines: seq<Bytes>, line: Bytes)
    requires rows != [] && Lines(rows) == lines + [line]
    ensures Lines(rows[..|rows| - 1]) == lines && LineOf(rows[|rows| - 1]) == line
  {
    hide LineOf;
    assert Lines(rows)[..|rows| - 1] == lines;
    assert Lines(rows)[|rows| - 1] == line;
  }

  lemma SameLine(r: Row, t: Row)
    requires PlainRow(r) && PlainRow(t) && LineOf(r) == LineOf(t)
    ensures r == t
  {
    hide *;
    RowReadsBack(r);
    RowReadsBack(t);
  }

  lemma SameRows(a: seq<Row>, b: seq<Row>)
    requires Lines(a) == Lines(b)
    requires (forall r | r in a :: PlainRow(r)) && forall r | r in b :: PlainRow(r)
    ensures a == b
  {
    hide PlainRow, LineOf;
    assert |a| == |Lines(a)| == |Lines(b)| == |b|;
    forall i | 0 <= i < |a| ensures a[i] == b[i] {
      assert a[i] in a && b[i] in b;
      assert Lines(a)[i] == LineOf(a[i]) && Lines(b)[i] == LineOf(b[i]);
      SameLine(a[i], b[i]);
    }
  }

  /** Every line of a log built by appending is the six fields of its event with bars between: the
      time, the actor, the event and the payload as they were appended but for the separators, the code
      of the line before (sixteen zeros for the first), and the code of all this. It reads back as
      these fields. */
  lemma BuiltHolds(key: Bytes, events: seq<Event>, k: nat)
    requires (forall e | e in events :: Plain(e.ts)) && k < |events|
    ensures |Built(key, events)| == |events|
    ensures var line, r := Built(key, events)[k], RowOf(Built(key, events)[k]);
            var text := r.ts + [124] + r.actor + [124] + r.event + [124] + r.payload + [124] + r.prev;
            && Holds(r, events[k])
            && line == text + [124] + r.hmac && r.hmac == Mac(key, text)
            && r.prev == if k == 0 then seq(16, _ => 48) else RowOf(Built(key, events)[k - 1]).hmac
  {
    hide *;
    var rows := BuiltRows(key, events);
    RowsHold(key, events, rows, k);
    ReadsAt(rows, k);
    LineText(rows[k]);
    if k > 0 {
      ReadsAt(rows, k - 1);
    }
  }

  lemma ReadsAt(rows: seq<Row>, k: nat)
    requires k < |rows| && forall r | r in rows :: PlainRow(r)
    ensures |Lines(rows)| == |rows| && Lines(rows)[k] == LineOf(rows[k]) && RowOf(Lines(rows)[k]) == rows[k]
  {
    hide PlainRow, LineOf, RowOf;
    assert rows[k] in rows;
    RowReadsBack(rows[k]);
  }

  // ---- The entries read ---------------------------------------------------------------------------

  /** The entry is a non-empty line of the file, with its number and its fields; `n` lines come before. */
  predicate IsEntry(lines: seq<Bytes>, n: nat, e: Entry)
  {
    var k := e.lineNo - n - 1;
    0 <= k < |lines| && lines[k] != [] && e.row == RowOf(lines[k])
  }

  lemma EntryTail(lines: seq<Bytes>, n: nat, e: Entry)
    requires lines != []
    ensures IsEntry(lines[1..], n + 1, e) ==> IsEntry(lines, n, e) && e.lineNo > n + 1
  {
    hide RowOf;
  }

  lemma EntryHead(lines: seq<Bytes>, n: nat)
    requires lines != []
    ensures EntriesFrom(lines, n) == EntryAt(lines[0], n) + EntriesFrom(lines[1..], n + 1)
    ensures lines[0] == [] ==> EntryAt(lines[0], n) == []
    ensures lines[0] != [] ==>
              exists e :: EntryAt(lines[0], n) == [e] && IsEntry(lines, n, e) && e.lineNo == n + 1
  {
    hide RowOf;
    assert lines[0] != [] ==> IsEntry(lines, n, Entry(RowOf(lines[0]), n + 1));
  }

  /** Reading gives the non-empty lines, each once, in order, with its number and its fields. */
  lemma {:induction false} EntriesMeaning(lines: seq<Bytes>, n: nat)
    ensures var out := EntriesFrom(lines, n);
            && (forall e | e in out :: IsEntry(lines, n, e))
            && (forall i, j | 0 <= i < j < |out| :: out[i].lineNo < out[j].lineNo)
            && (forall k | 0 <= k < |lines| && lines[k] != [] :: exists e | e in out :: e.lineNo == n + k + 1)
    decreases |lines|
  {
    hide *;
    if lines == [] {
      NoEntries(n);
    } else {
      var tail, head, out := EntriesFrom(lines[1..], n + 1), EntryAt(lines[0], n), EntriesFrom(lines, n);
      EntriesMeaning(lines[1..], n + 1);
      EntryHead(lines, n);
      forall e | e in tail ensures IsEntry(lines, n, e) && e.lineNo > n + 1 {
        EntryTail(lines, n, e);
      }
      forall e | e in out ensures IsEntry(lines, n, e) {
        assert e in head || e in tail;
      }
      Ascending(head, tail, n + 1);
      forall k | 0 <= k < |lines| && lines[k] != [] ensures exists e | e in out :: e.lineNo == n + k + 1 {
        if k == 0 {
          assert head[0] in out;
        } else {
          assert lines[1..][k - 1] != [];
          var e :| e in tail && e.lineNo == (n + 1) + (k - 1) + 1;
          assert e in out;
        }
      }
    }
  }

  lemma Ascending(head: seq<Entry>, tail: seq<Entry>, n: nat)
    requires |head| <= 1 && forall e | e in head :: e.lineNo == n
    requires forall e | e in tail :: e.lineNo > n
    requires forall i, j | 0 <= i < j < |tail| :: tail[i].lineNo < tail[j].lineNo
    ensures var out := head + tail; forall i, j | 0 <= i < j < |out| :: out[i].lineNo < out[j].lineNo
  {
    assert head != [] ==> head[0] in head;
  }

  lemma NoEntries(n: nat)
    ensures EntriesFrom([], n) == []
  {
  }

  lemma {:induction false} EntriesSnoc(lines: seq<Bytes>, line: Bytes, n: nat)
    ensures EntriesFrom(lines + [line], n) == EntriesFrom(lines, n) + EntryAt(line, n + |lines|)
    decreases |lines|
  {
    hide EntryAt;
    if lines == [] {
      assert lines + [line] == [line] && [line][1..] == [];
    } else {
      assert (lines + [line])[1..] == lines[1..] + [line];
      EntriesSnoc(lines[1..], line, n + 1);
    }
  }

  /** What follows the last bar of any line has no bar, so the code carried over has none. */
  lemma {:induction false} AfterLastPlain(s: Bytes)
    ensures PIPE !in AfterLastPipe(s)
    decreases |s|
  {
    if PIPE in s {
      AfterLastPlain(s[IndexOf(s, PIPE) + 1..]);
    }
  }

  lemma {:induction false} BlanksSkipped(s: Bytes, c: byte)
    requires c !in s
    ensures c !in SkipBlanks(s)
    decreases |s|
  {
    if s != [] {
      assert forall x | x in s[1..] :: x in s;
      BlanksSkipped(s[1..], c);
    }
  }

  lemma PrevNoPipe(lines: seq<Bytes>)
    ensures PIPE !in PrevCode(lines)
  {
    var last := LastNonEmpty(lines);
    AfterLastPlain(last);
    BlanksSkipped(AfterLastPipe(last), PIPE);
  }

  /** Whatever the log holds, the last entry read after an append is the event appended. */
  method AppendThenRead(log: Log, e: Event, limit: int) returns (last: Entry, code: Bytes)
    requires PIPE !in e.ts
    modifies log
    ensures Holds(last.row, e) && last.row.hmac == code && last.lineNo == |old(log.lines)| + 1
    ensures |log.lines| == |old(log.lines)| + 1 && log.lines[..|old(log.lines)|] == old(log.lines)
  {
    hide *;
    ghost var was := log.lines;
    code := log.Append(e.ts, e.actor, e.event, e.payload);
    ghost var r := NewRow(log.key, PrevCode(was), Event(e.ts, e.actor, e.event, e.payload));
    AppendedReads(log.key, was, e);
    var out := log.Read(limit);
    EntriesSnoc(was, LineOf(r), 0);
    OneEntry(LineOf(r), |was|);
    NewRowHolds(log.key, PrevCode(was), e);
    last := out[|out| - 1];
  }

  lemma OneEntry(line: Bytes, n: nat)
    requires line != []
    ensures EntryAt(line, n) == [Entry(RowOf(line), n + 1)]
  {
  }

  lemma AppendedReads(key: Bytes, lines: seq<Bytes>, e: Event)
    requires PIPE !in e.ts
    ensures var r := NewRow(key, PrevCode(lines), Event(e.ts, e.actor, e.event, e.payload));
            RowOf(LineOf(r)) == r && LineOf(r) != [] && r == NewRow(key, PrevCode(lines), e)
  {
    var r := NewRow(key, PrevCode(lines), e);
    PrevNoPipe(lines);
    NewRowPipes(key, PrevCode(lines), e);
    assert Event(e.ts, e.actor, e.event, e.payload) == e;
    hide *;
    PipesReadBack(r);
  }

  lemma NewRowPipes(key: Bytes, prev: Bytes, e: Event)
    requires PIPE !in prev && PIPE !in e.ts
    ensures var r := NewRow(key, prev, e);
            && PIPE !in r.ts && PIPE !in r.actor && PIPE !in r.event && PIPE !in r.payload
            && PIPE !in r.prev && PIPE !in r.hmac
  {
    hide Mac, Covered;
    var r := NewRow(key, prev, e);
    MacPlain(key, Covered(r.(hmac := []), prev));
  }

  lemma MacPlain(key: Bytes, msg: Bytes)
    ensures PIPE !in Mac(key, msg)
  {
    var h1, h2 := Hash(msg, Hash(key, BASIS)), Hash(msg + Reversed(key), Hash(key, PRIME));
    HexPlain(LittleEndian(h1, 8) + LittleEndian(h2, 8));
  }

  // ---- The code carried over --------------------------------------------------------------------------

  predicate IsBlank(c: byte)
  {
    c == 32 || c == 9
  }

  lemma {:induction false} LastLine(lines: seq<Bytes>, i: nat)
    requires i < |lines| && lines[i] != [] && forall k | i < k < |lines| :: lines[k] == []
    ensures LastNonEmpty(lines) == lines[i]
    decreases |lines|
  {
    if i < |lines| - 1 {
      LastLine(lines[..|lines| - 1], i);
    }
  }

  lemma {:induction false} NoLine(lines: seq<Bytes>)
    requires forall k | 0 <= k < |lines| :: lines[k] == []
    ensures LastNonEmpty(lines) == []
    decreases |lines|
  {
    if lines != [] {
      NoLine(lines[..|lines| - 1]);
    }
  }

  lemma {:induction false} LeadingBlanks(w: Bytes, c: Bytes)
    requires (forall x | x in w :: IsBlank(x)) && (c == [] || !IsBlank(c[0]))
    ensures SkipBlanks(w + c) == c
    decreases |w|
  {
    if w == [] {
      assert w + c == c;
    } else {
      assert w[0] in w && (w + c)[1..] == w[1..] + c && forall x | x in w[1..] :: x in w;
      LeadingBlanks(w[1..], c);
    }
  }

  /** The code an append carries over, from any log: sixteen zeros when no line has text or the last one
      that has holds no bar; otherwise what follows its last bar, without blanks in front unless
      there is nothing else. */
  lemma PrevMeaning(lines: seq<Bytes>, i: nat, a: Bytes, w: Bytes, c: Bytes)
    requires (forall x | x in w :: IsBlank(x)) && (c == [] || !IsBlank(c[0])) && 124 !in c
    ensures (forall k | 0 <= k < |lines| :: lines[k] == []) ==> PrevCode(lines) == seq(16, _ => 48)
    ensures i < |lines| && lines[i] != [] && (forall k | i < k < |lines| :: lines[k] == []) ==>
              && (124 !in lines[i] ==> PrevCode(lines) == seq(16, _ => 48))
              && (lines[i] == a + ([124] + (w + c)) ==> PrevCode(lines) == if c == [] then w else c)
  {
    assert GENESIS == seq(16, _ => 48);
    if forall k | 0 <= k < |lines| :: lines[k] == [] {
      NoLine(lines);
    }
    if i < |lines| && lines[i] != [] && forall k | i < k < |lines| :: lines[k] == [] {
      LastLine(lines, i);
      if 124 !in lines[i] {
        assert Stripped(GENESIS) == GENESIS;
      }
      if lines[i] == a + ([124] + (w + c)) {
        assert 124 !in w + c;
        AfterPipe(a, w + c);
        LeadingBlanks(w, c);
        assert c == [] ==> w + c == w;
      }
    }
  }

  // ---- What verification reports -------------------------------------------------------------------------

  /** Entry `i` does not fit: its code is not that of its text, or it does not carry the code before it. */
  predicate Misfit(key: Bytes, entries: seq<Entry>, i: nat, start: Bytes)
    requires i < |entries|
  {
    var r, prev := entries[i].row, if i == 0 then start else entries[i - 1].row.hmac;
    r.prev != prev
    || r.hmac != Mac(key, r.ts + [124] + r.actor + [124] + r.event + [124] + r.payload + [124] + prev)
  }

  lemma {:induction false} ReportedFrom(key: Bytes, entries: seq<Entry>, start: Bytes, n: nat)
    ensures n in BadRows(key, entries, start) <==>
            exists i :: 0 <= i < |entries| && entries[i].lineNo == n && Misfit(key, entries, i, start)
    decreases |entries|
  {
    hide *;
    BadStep(key, entries, start);
    if entries != [] {
      var rest, prev := entries[1..], entries[0].row.hmac;
      ReportedFrom(key, rest, prev, n);
      FirstMisfit(key, entries, start);
      forall i | 0 <= i < |rest| ensures Misfit(key, rest, i, prev) <==> Misfit(key, entries, i + 1, start) {
        NextMisfit(key, entries, i, start);
      }
      if i :| 0 <= i < |rest| && rest[i].lineNo == n && Misfit(key, rest, i, prev) {
        assert entries[i + 1].lineNo == n && Misfit(key, entries, i + 1, start);
      }
      if i :| 0 < i < |entries| && entries[i].lineNo == n && Misfit(key, entries, i, start) {
        assert rest[i - 1].lineNo == n && Misfit(key, rest, i - 1, prev);
      }
    }
  }

  lemma BadStep(key: Bytes, entries: seq<Entry>, start: Bytes)
    ensures entries == [] ==> BadRows(key, entries, start) == []
    ensures entries != [] ==>
              forall n :: n in BadRows(key, entries, start) <==>
                (RowBad(key, entries[0].row, start) && n == entries[0].lineNo)
                || n in BadRows(key, entries[1..], entries[0].row.hmac)
  {
    hide RowBad;
  }

  lemma FirstMisfit(key: Bytes, entries: seq<Entry>, start: Bytes)
    requires entries != []
    ensures Misfit(key, entries, 0, start) <==> RowBad(key, entries[0].row, start)
  {
    hide Mac;
    CoveredText(entries[0].row, start);
  }

  lemma NextMisfit(key: Bytes, entries: seq<Entry>, i: nat, start: Bytes)
    requires i + 1 < |entries|
    ensures Misfit(key, entries[1..], i, entries[0].row.hmac) <==> Misfit(key, entries, i + 1, start)
  {
    hide Mac;
  }

  /** Over any file: a line number is reported exactly when it is that of a non-empty line whose code is
      not that of its text, or which does not carry the code of the non-empty line before it (sixteen
      zeros for the first). */
  lemma VerifyMeaning(key: Bytes, lines: seq<Bytes>, n: nat)
    ensures var entries := EntriesFrom(lines, 0);
            n in BadRows(key, entries, GENESIS) <==>
            exists i :: 0 <= i < |entries| && entries[i].lineNo == n && Misfit(key, entries, i, seq(16, _ => 48))
  {
    assert GENESIS == seq(16, _ => 48);
    hide *;
    ReportedFrom(key, EntriesFrom(lines, 0), GENESIS, n);
  }

  // ---- The code, decoded ----------------------------------------------------------------------------------

  /** The value of a lower-case hexadecimal digit. */
  function DigitOf(c: byte): (d: int)
  {
    if 48 <= c <= 57 then c - 48 else if 97 <= c <= 102 then c - 87 else -1
  }

  /** The bytes that pairs of hexadecimal digits mean, high digit first. */
  ghost predicate Decodes(text: Bytes, s: Bytes)
  {
    && |text| == 2 * |s|
    && forall i | 0 <= i < |s| :: s[i] == 16 * DigitOf(text[2 * i]) + DigitOf(text[2 * i + 1])
                                  && 0 <= DigitOf(text[2 * i]) < 16 && 0 <= DigitOf(text[2 * i + 1]) < 16
  }

  lemma DigitDecodes(d: nat)
    requires d < 16
    ensures DigitOf(HexDigit(d)) == d
  {
  }

  lemma {:induction false} HexAt(s: Bytes, i: nat)
    requires i < |s|
    ensures Hex(s)[2 * i] == HexDigit(s[i] / 16) && Hex(s)[2 * i + 1] == HexDigit(s[i] % 16)
  {
    hide HexDigit;
    var t, u := Hex(s), Hex(s[1..]);
    assert t == [HexDigit(s[0] / 16), HexDigit(s[0] % 16)] + u;
    if i > 0 {
      HexAt(s[1..], i - 1);
      assert t[2 * i] == u[2 * (i - 1)] && t[2 * i + 1] == u[2 * (i - 1) + 1];
    }
  }

  /** The digits written for some bytes mean these bytes. */
  lemma HexDecodes(s: Bytes)
    ensures Decodes(Hex(s), s)
  {
    hide HexDigit, DigitOf;
    forall i | 0 <= i < |s|
      ensures s[i] == 16 * DigitOf(Hex(s)[2 * i]) + DigitOf(Hex(s)[2 * i + 1])
              && 0 <= DigitOf(Hex(s)[2 * i]) < 16 && 0 <= DigitOf(Hex(s)[2 * i + 1]) < 16
    {
      HexAt(s, i);
      DigitDecodes(s[i] / 16);
      DigitDecodes(s[i] % 16);
    }
  }

  /** The number whose bytes these are, lowest first. */
  function Number(s: Bytes): (n: nat)
  {
    if s == [] then 0 else s[0] + 256 * Number(s[1..])
  }

  lemma {:induction false} LittleEndianNumber(h: nat, n: nat)
    requires h < Pow256(n)
    ensures Number(LittleEndian(h, n)) == h
  {
    if n > 0 {
      LittleEndianNumber(h / 256, n - 1);
    }
  }

  lemma {:induction false} ReversedAt(s: Bytes, k: nat)
    requires k < |s|
    ensures |Reversed(s)| == |s| && Reversed(s)[k] == s[|s| - 1 - k]
  {
    assert |Reversed(s[1..])| == |s| - 1 by {
      if |s| > 1 { ReversedAt(s[1..], 0); }
    }
    if k < |s| - 1 {
      ReversedAt(s[1..], k);
    }
  }

  lemma ReversedIs(s: Bytes)
    ensures Reversed(s) == seq(|s|, k requires 0 <= k < |s| => s[|s| - 1 - k])
  {
    assert s == [] ==> Reversed(s) == [];
    if s != [] { ReversedAt(s, 0); }
    forall k | 0 <= k < |s| ensures Reversed(s)[k] == s[|s| - 1 - k] {
      ReversedAt(s, k);
    }
  }

  /** The code is 32 hexadecimal digits for sixteen bytes: two FNV-1a words, each lowest byte first, the
      first of the key and the message from the usual basis, the second of the key, the message and
      the key backwards from the prime. */
  lemma MacMeaning(key: Bytes, msg: Bytes) returns (raw: Bytes)
    ensures Decodes(Mac(key, msg), raw) && |raw| == 16
    ensures Number(raw[..8]) == Hash(key + msg, 14695981039346656037)
    ensures Number(raw[8..]) ==
            Hash(key + msg + seq(|key|, k requires 0 <= k < |key| => key[|key| - 1 - k]), 1099511628211)
  {
    hide *;
    Starts();
    var back := Reversed(key);
    var h1, h2 := Hash(msg, Hash(key, BASIS)), Hash(msg + back, Hash(key, PRIME));
    var x, y := LittleEndian(h1, 8), LittleEndian(h2, 8);
    raw := x + y;
    MacIs(key, msg);
    HexDecodes(raw);
    LittleEndianNumber(h1, 8);
    LittleEndianNumber(h2, 8);
    assert raw[..8] == x && raw[8..] == y;
    HashConcat(key, msg, BASIS);
    HashConcat(key, msg + back, PRIME);
    ReversedIs(key);
    assert key + (msg + back) == key + msg + back;
  }

  lemma MacIs(key: Bytes, msg: Bytes)
    ensures var h1, h2 := Hash(msg, Hash(key, BASIS)), Hash(msg + Reversed(key), Hash(key, PRIME));
            Mac(key, msg) == Hex(LittleEndian(h1, 8) + LittleEndian(h2, 8))
  {
    hide Hex, LittleEndian, Hash, Reversed;
  }

  lemma Starts()
    ensures BASIS == 14695981039346656037 && PRIME == 1099511628211
    ensures Pow256(8) == 0x1_0000_0000_0000_0000
  {
    EightBytes();
  }
}
