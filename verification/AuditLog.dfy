/** The chained append-only audit log: each row carries the previous row's code and its own. */
module AuditLog {
  import opened Fnv

  const PIPE: byte := 124
  const NEWLINE: byte := 10
  const SPACE: byte := 32
  const TAB: byte := 9

  // ---- The row code ---------------------------------------------------------------------------

  function HexDigit(d: nat): (c: byte)
    requires d < 16
    ensures c != PIPE && c != NEWLINE && c != SPACE && c != TAB
  {
    if d < 10 then 48 + d else 87 + d
  }

  function Hex(s: Bytes): (r: Bytes)
    ensures |r| == 2 * |s|
  {
    if s == [] then [] else [HexDigit(s[0] / 16), HexDigit(s[0] % 16)] + Hex(s[1..])
  }

  method HexEncode(bytes: Bytes) returns (out: Bytes)
    ensures out == Hex(bytes)
  {
    out := [];
    for i := 0 to |bytes|
      invariant out + Hex(bytes[i..]) == Hex(bytes)
    {
      assert bytes[i..][1..] == bytes[i + 1..];
      out := out + [HexDigit(bytes[i] / 16)] + [HexDigit(bytes[i] % 16)];
    }
  }

  /** The `n` low bytes of a word, lowest first. */
  function LittleEndian(h: nat, n: nat): (r: Bytes)
    ensures |r| == n
  {
    if n == 0 then [] else [h % 256] + LittleEndian(h / 256, n - 1)
  }

  function Reversed(s: Bytes): (r: Bytes)
  {
    if s == [] then [] else Reversed(s[1..]) + [s[0]]
  }

  /** Two keyed FNV streams, printed in hexadecimal. */
  function Mac(key: Bytes, msg: Bytes): (code: Bytes)
    ensures |code| == 32
  {
    var h1 := Hash(msg, Hash(key, BASIS));
    var h2 := Hash(msg + Reversed(key), Hash(key, PRIME));
    Hex(LittleEndian(h1, 8) + LittleEndian(h2, 8))
  }

  // ---- Rows and lines -------------------------------------------------------------------------

  /** `line.find(c)`, -1 for none. */
  function IndexOf(s: Bytes, c: byte): (i: int)
    ensures i == -1 <==> c !in s
    ensures i != -1 ==> 0 <= i < |s| && s[i] == c && forall j | 0 <= j < i :: s[j] != c
  {
    if s == [] then -1
    else if s[0] == c then 0
    else
      var i := IndexOf(s[1..], c);
      assert i != -1 ==> forall j | 0 < j < i + 1 :: s[j] == s[1..][j - 1];
      if i == -1 then -1 else i + 1
  }

  function Empties(n: nat): (f: seq<Bytes>)
    ensures |f| == n && forall i | 0 <= i < n :: f[i] == []
  {
    if n == 0 then [] else [[]] + Empties(n - 1)
  }

  /** The first `n` fields of a line; missing ones are empty. */
  function Fields(line: Bytes, n: nat): (f: seq<Bytes>)
    ensures |f| == n
    decreases n
  {
    if n == 0 then []
    else
      var q := IndexOf(line, PIPE);
      if q == -1 then [line] + Empties(n - 1)
      else [line[..q]] + Fields(line[q + 1..], n - 1)
  }

  datatype Row = Row(ts: Bytes, actor: Bytes, event: Bytes, payload: Bytes, prev: Bytes, hmac: Bytes)

  datatype Entry = Entry(row: Row, lineNo: nat)

  function RowOf(line: Bytes): (r: Row)
  {
    var f := Fields(line, 6);
    Row(f[0], f[1], f[2], f[3], f[4], f[5])
  }

  /** What the code of a row covers: its four fields and the code before it. */
  function Covered(r: Row, prev: Bytes): (s: Bytes)
  {
    r.ts + ([PIPE] + (r.actor + ([PIPE] + (r.event + ([PIPE] + (r.payload + ([PIPE] + prev)))))))
  }

  function LineOf(r: Row): (s: Bytes)
  {
    Covered(r, r.prev) + ([PIPE] + r.hmac)
  }

  function Clean(c: byte): (d: byte)
    ensures d != PIPE && d != NEWLINE
  {
    if c == NEWLINE || c == 13 || c == TAB || c == PIPE then SPACE else c
  }

  function Sanitized(s: Bytes): (r: Bytes)
    ensures |r| == |s| && forall i | 0 <= i < |s| :: r[i] == Clean(s[i])
  {
    seq(|s|, i requires 0 <= i < |s| => Clean(s[i]))
  }

  method Sanitize(s: Bytes) returns (out: Bytes)
    ensures out == Sanitized(s)
  {
    out := [];
    for i := 0 to |s|
      invariant |out| == i && forall j | 0 <= j < i :: out[j] == Clean(s[j])
    {
      out := out + [Clean(s[i])];
    }
  }

  /** Sixteen zeros stand for the code before the first row. */
  const GENESIS: Bytes := [48, 48, 48, 48, 48, 48, 48, 48, 48, 48, 48, 48, 48, 48, 48, 48]

  function LastNonEmpty(lines: seq<Bytes>): (l: Bytes)
  {
    if lines == [] then []
    else if lines[|lines| - 1] != [] then lines[|lines| - 1]
    else LastNonEmpty(lines[..|lines| - 1])
  }

  /** `substr(rfind('|') + 1)`; without a pipe the previous code stays the initial one. */
  function AfterLastPipe(s: Bytes): (r: Bytes)
  {
    if s == [] then GENESIS
    else if PIPE !in s then GENESIS
    else
      var q := IndexOf(s, PIPE);
      if PIPE in s[q + 1..] then AfterLastPipe(s[q + 1..]) else s[q + 1..]
  }

  function SkipBlanks(s: Bytes): (r: Bytes)
  {
    if s != [] && (s[0] == SPACE || s[0] == TAB) then SkipBlanks(s[1..]) else s
  }

  /** Leading blanks are dropped unless there is nothing else. */
  function Stripped(s: Bytes): (r: Bytes)
  {
    if SkipBlanks(s) == [] then s else SkipBlanks(s)
  }

  function PrevCode(lines: seq<Bytes>): (p: Bytes)
  {
    var last := LastNonEmpty(lines);
    if last == [] then GENESIS else Stripped(AfterLastPipe(last))
  }

  datatype Event = Event(ts: Bytes, actor: Bytes, event: Bytes, payload: Bytes)

  function NewRow(key: Bytes, prev: Bytes, e: Event): (r: Row)
  {
    var r := Row(e.ts, Sanitized(e.actor), Sanitized(e.event), Sanitized(e.payload), prev, []);
    r.(hmac := Mac(key, Covered(r, prev)))
  }

  /** `t` is `s` with a space for each newline, carriage return, tab and bar. */
  predicate Spaced(s: Bytes, t: Bytes)
  {
    |t| == |s| && forall i | 0 <= i < |s| :: t[i] == if s[i] in [10, 13, 9, 124] then 32 else s[i]
  }

  /** The row's time is the event's, and its other fields are the event's but for the separators. */
  predicate Holds(r: Row, e: Event)
  {
    r.ts == e.ts && Spaced(e.actor, r.actor) && Spaced(e.event, r.event) && Spaced(e.payload, r.payload)
  }

  // ---- Verification -----------------------------------------------------------------------------

  /** Empty lines are counted but give no entry. */
  function EntryAt(line: Bytes, n: nat): (e: seq<Entry>)
  {
    if line == [] then [] else [Entry(RowOf(line), n + 1)]
  }

  function EntriesFrom(lines: seq<Bytes>, n: nat): (out: seq<Entry>)
  {
    if lines == [] then []
    else EntryAt(lines[0], n) + EntriesFrom(lines[1..], n + 1)
  }

  predicate RowBad(key: Bytes, r: Row, prev: Bytes)
  {
    Mac(key, Covered(r, prev)) != r.hmac || r.prev != prev
  }

  function Report(bad: bool, n: nat): (s: seq<nat>)
  {
    if bad then [n] else []
  }

  /** The line numbers verification reports, from code `prev` on. */
  function BadRows(key: Bytes, entries: seq<Entry>, prev: Bytes): (bad: seq<nat>)
    decreases |entries|
  {
    if entries == [] then []
    else
      Report(RowBad(key, entries[0].row, prev), entries[0].lineNo)
      + BadRows(key, entries[1..], entries[0].row.hmac)
  }

  class Log {
    const key: Bytes
    /** The log file, line by line. */
    var lines: seq<Bytes>

    constructor (key: Bytes, lines: seq<Bytes>)
      ensures this.key == key && this.lines == lines
    {
      this.key := key;
      this.lines := lines;
    }

    method FindPrev() returns (prev: Bytes)
      ensures prev == PrevCode(lines)
    {
      prev := GENESIS;
      var last := [];
      for i := 0 to |lines|
        invariant last == LastNonEmpty(lines[..i])
      {
        assert lines[..i + 1][..i] == lines[..i];
        if lines[i] != [] {
          last := lines[i];
        }
      }
      assert lines[..|lines|] == lines;
      if last != [] {
        prev := Stripped(AfterLastPipe(last));
      }
    }

    /** `ts` is the clock's reading. */
    method Append(ts: Bytes, actor: Bytes, event: Bytes, payload: Bytes) returns (hmac: Bytes)
      modifies this
      ensures var r := NewRow(key, PrevCode(old(lines)), Event(ts, actor, event, payload));
              lines == old(lines) + [LineOf(r)] && hmac == r.hmac && Holds(r, Event(ts, actor, event, payload))
    {
      var prev := FindPrev();
      var a := Sanitize(actor);
      var e := Sanitize(event);
      var p := Sanitize(payload);
      var row := Row(ts, a, e, p, prev, []);
      hmac := Mac(key, Covered(row, prev));
      lines := lines + [Covered(row, prev) + ([PIPE] + hmac)];
    }

    method Read(limit: int) returns (out: seq<Entry>)
      ensures var all := EntriesFrom(lines, 0);
              out == if limit > 0 && |all| > limit then all[|all| - limit..] else all
    {
      hide RowOf;
      out := [];
      for n := 0 to |lines|
        invariant out + EntriesFrom(lines[n..], n) == EntriesFrom(lines, 0)
      {
        assert lines[n..][1..] == lines[n + 1..];
        if lines[n] != [] {
          out := out + [Entry(RowOf(lines[n]), n + 1)];
        }
      }
      if limit > 0 && |out| > limit {
        out := out[|out| - limit..];
      }
    }

    method Verify() returns (bad: nat, rows: seq<nat>)
      ensures rows == BadRows(key, EntriesFrom(lines, 0), GENESIS) && bad == |rows|
    {
      hide *;
      var entries := Read(0);
      bad, rows := 0, [];
      var prev := GENESIS;
      assert entries[0..] == entries && rows + BadRows(key, entries, prev) == BadRows(key, entries, GENESIS);
      for i := 0 to |entries|
        invariant bad == |rows|
        invariant rows + BadRows(key, entries[i..], prev) == BadRows(key, entries, GENESIS)
      {
        VerifyTurn(key, entries, i, prev, rows);
        var r := entries[i].row;
        var wanted := Mac(key, Covered(r, prev));
        if wanted != r.hmac || r.prev != prev {
          bad := bad + 1;
          rows := rows + [entries[i].lineNo];
        }
        prev := r.hmac;
      }
      NoneBad(key, prev);
      assert entries[|entries|..] == [] && rows + [] == rows;
    }
  }

  lemma NoneBad(key: Bytes, prev: Bytes)
    ensures BadRows(key, [], prev) == []
  {
  }

  /** One turn of the verifying loop. */
  lemma VerifyTurn(key: Bytes, entries: seq<Entry>, i: nat, prev: Bytes, rows: seq<nat>)
    requires i < |entries|
    ensures var e := entries[i];
            rows + BadRows(key, entries[i..], prev) ==
            (if Mac(key, Covered(e.row, prev)) != e.row.hmac || e.row.prev != prev then rows + [e.lineNo] else rows)
            + BadRows(key, entries[i + 1..], e.row.hmac)
  {
    hide Mac, Covered;
    assert entries[i..][1..] == entries[i + 1..];
    assert [] + BadRows(key, entries[i + 1..], entries[i].row.hmac) ==
           BadRows(key, entries[i + 1..], entries[i].row.hmac);
  }
}
