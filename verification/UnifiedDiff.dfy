/** The unified-diff applier of the compressed-write expander. */
module UnifiedDiff {
  import opened Text
  import opened Wrappers

  // ---- Lines ------------------------------------------------------------------------------

  function DropCr(line: string): (s: string)
  {
    if line != "" && line[|line| - 1] == '\r' then line[..|line| - 1] else line
  }

  /** Lines of `cur + s` without their ends, where `cur` is the line read so far. */
  function SplitFrom(cur: string, s: string): (lines: seq<string>)
    decreases |s|
  {
    if s == "" then (if cur == "" then [] else [DropCr(cur)])
    else if s[0] == '\n' then [DropCr(cur)] + SplitFrom("", s[1..])
    else SplitFrom(cur + [s[0]], s[1..])
  }

  method SplitLines(s: string) returns (out: seq<string>)
    ensures out == SplitFrom("", s)
  {
    out := [];
    var cur := "";
    for i := 0 to |s|
      invariant out + SplitFrom(cur, s[i..]) == SplitFrom("", s)
    {
      assert s[i..][1..] == s[i + 1..];
      if s[i] == '\n' {
        if cur != "" && cur[|cur| - 1] == '\r' { cur := cur[..|cur| - 1]; }
        out := out + [cur];
        cur := "";
      } else {
        cur := cur + [s[i]];
      }
    }
    if cur != "" {
      if cur[|cur| - 1] == '\r' { cur := cur[..|cur| - 1]; }
      out := out + [cur];
    }
  }

  function Join(v: seq<string>): (s: string)
  {
    if |v| == 0 then "" else if |v| == 1 then v[0] else Join(v[..|v| - 1]) + "\n" + v[|v| - 1]
  }

  method JoinLines(v: seq<string>) returns (out: string)
    ensures out == Join(v)
  {
    out := "";
    for i := 0 to |v|
      invariant out == if i < |v| && i > 0 then Join(v[..i]) + "\n" else Join(v[..i])
    {
      assert v[..i + 1][..i] == v[..i];
      out := out + v[i];
      if i + 1 < |v| {
        out := out + "\n";
      }
    }
    assert v[..|v|] == v;
  }

  // ---- What one diff does ----------------------------------------------------------------------

  /** The fate of one line: kept from the base, removed from it, or added. */
  datatype Op = Keep(line: string) | Del(line: string) | Ins(line: string)

  function Keeps(lines: seq<string>): (ops: seq<Op>)
    ensures |ops| == |lines| && forall i | 0 <= i < |lines| :: ops[i] == Keep(lines[i])
  {
    seq(|lines|, i requires 0 <= i < |lines| => Keep(lines[i]))
  }

  predicate Marks(line: string)
  {
    |line| >= 2 && line[0] == '@' && line[1] == '@'
  }

  predicate IsHeader(line: string)
  {
    |line| >= 4 && Marks(line)
  }

  /** A C string ends at its first NUL. */
  function CStr(line: string): (s: string)
  {
    var n := Find(line, ['\0'], 0);
    if n == -1 then line else line[..n]
  }

  /** `atoi` of what follows the first `-`; 0 if there is none. The other numbers are unused. */
  function OldStart(line: string): (n: int)
  {
    var t := CStr(line);
    var p := Find(t, "-", 0);
    if p == -1 then 0
    else
      match ScanInt(t[p + 1..])
      case NoNumber => 0
      case Number(v) => v
  }

  /** The base index a hunk moves to. */
  function Target(start: int): (t: nat)
  {
    if start > 0 then start - 1 else 0
  }

  function MoveTo(c: nat, target: nat, n: nat): (c': nat)
    requires c <= n
    ensures c <= c' <= n
  {
    if target <= c then c else if target <= n then target else n
  }

  type Script = Result<seq<Op>, string>

  function Prepend(ops: seq<Op>, r: Script): (q: Script)
  {
    match r
    case Success(rest) => Success(ops + rest)
    case Failure(m) => r
  }

  /** From base line `c` and diff line `i`, inside a hunk or not. */
  function Apply(base: seq<string>, c: nat, diff: seq<string>, i: nat, inHunk: bool): (r: Script)
    requires c <= |base| && i <= |diff|
    decreases |diff| - i, inHunk
  {
    if i == |diff| then Success(Keeps(base[c..]))
    else
      var hl := diff[i];
      if !inHunk then
        if !IsHeader(hl) then Apply(base, c, diff, i + 1, false)
        else
          var c' := MoveTo(c, Target(OldStart(hl)), |base|);
          Prepend(Keeps(base[c..c']), Apply(base, c', diff, i + 1, true))
      else if Marks(hl) then Apply(base, c, diff, i, false)
      else
        var tag := if hl == "" then ' ' else hl[0];
        var body := if hl == "" then "" else hl[1..];
        if tag == ' ' then
          if c >= |base| || base[c] != body then Failure("context mismatch at base line " + ToString(c + 1))
          else Prepend([Keep(body)], Apply(base, c + 1, diff, i + 1, true))
        else if tag == '-' then
          if c >= |base| || base[c] != body then Failure("removal mismatch at base line " + ToString(c + 1))
          else Prepend([Del(body)], Apply(base, c + 1, diff, i + 1, true))
        else if tag == '+' then Prepend([Ins(body)], Apply(base, c, diff, i + 1, true))
        else if tag == '\\' then Apply(base, c, diff, i + 1, true)
        else Failure("unknown diff line tag")
  }

  function One(b: bool, l: string): (s: seq<string>)
  {
    if b then [l] else []
  }

  /** The base lines a script uses up. */
  function Olds(ops: seq<Op>): (s: seq<string>)
  {
    if ops == [] then [] else One(!ops[0].Ins?, ops[0].line) + Olds(ops[1..])
  }

  /** The lines a script writes. */
  function News(ops: seq<Op>): (s: seq<string>)
  {
    if ops == [] then [] else One(!ops[0].Del?, ops[0].line) + News(ops[1..])
  }

  function Dels(ops: seq<Op>): (s: seq<string>)
  {
    if ops == [] then [] else One(ops[0].Del?, ops[0].line) + Dels(ops[1..])
  }

  function Adds(ops: seq<Op>): (s: seq<string>)
  {
    if ops == [] then [] else One(ops[0].Ins?, ops[0].line) + Adds(ops[1..])
  }

  lemma {:induction false} NewsConcat(a: seq<Op>, b: seq<Op>)
    ensures News(a + b) == News(a) + News(b)
  {
    hide One;
    if a == [] {
      assert a + b == b;
    } else {
      assert (a + b)[1..] == a[1..] + b;
      NewsConcat(a[1..], b);
    }
  }

  lemma {:induction false} OldsConcat(a: seq<Op>, b: seq<Op>)
    ensures Olds(a + b) == Olds(a) + Olds(b)
  {
    hide One;
    if a == [] {
      assert a + b == b;
    } else {
      assert (a + b)[1..] == a[1..] + b;
      OldsConcat(a[1..], b);
    }
  }

  lemma {:induction false} OfKeeps(lines: seq<string>)
    ensures News(Keeps(lines)) == lines && Olds(Keeps(lines)) == lines
    ensures Dels(Keeps(lines)) == [] && Adds(Keeps(lines)) == []
  {
    if lines != [] {
      assert Keeps(lines)[1..] == Keeps(lines[1..]);
      OfKeeps(lines[1..]);
    }
  }

  lemma NewsKeeps(lines: seq<string>, ops: seq<Op>)
    ensures News(Keeps(lines) + ops) == lines + News(ops)
  {
    NewsConcat(Keeps(lines), ops);
    OfKeeps(lines);
  }

  // ---- The applier as it runs ----------------------------------------------------------------------

  /** What the loops still have to do, given the lines written so far. */
  ghost predicate Remains(out: seq<string>, rest: Script, goal: Script)
  {
    match rest
    case Failure(m) => goal == rest
    case Success(ops) => goal.Success? && out + News(ops) == News(goal.value)
  }

  lemma RemainsKeep(out: seq<string>, lines: seq<string>, rest: Script, goal: Script)
    requires Remains(out, Prepend(Keeps(lines), rest), goal)
    ensures Remains(out + lines, rest, goal)
  {
    if rest.Success? {
      NewsKeeps(lines, rest.value);
    }
  }

  lemma RemainsOne(out: seq<string>, op: Op, rest: Script, goal: Script)
    requires Remains(out, Prepend([op], rest), goal)
    ensures Remains(if op.Del? then out else out + [op.line], rest, goal)
  {
    if rest.Success? {
      assert ([op] + rest.value)[1..] == rest.value;
    }
  }

  method CopyTo(base: seq<string>, target: nat, out0: seq<string>, c0: nat) returns (out: seq<string>, c: nat)
    requires c0 <= |base|
    ensures c == MoveTo(c0, target, |base|) && out == out0 + base[c0..c]
  {
    out, c := out0, c0;
    while c < target && c < |base|
      invariant c0 <= c <= |base| && (c <= target || c == c0)
      invariant out == out0 + base[c0..c]
    {
      out := out + [base[c]];
      c := c + 1;
    }
  }

  /** The inner loop: the lines of one hunk, up to the next marker. */
  method ApplyHunk(lines: seq<string>, diff: seq<string>, out0: seq<string>, c0: nat, i0: nat, ghost goal: Script)
    returns (err: Option<string>, out: seq<string>, c: nat, i: nat)
    requires c0 <= |lines| && i0 <= |diff| && Remains(out0, Apply(lines, c0, diff, i0, true), goal)
    ensures err.Some? ==> goal == Failure(err.value)
    ensures err.None? ==> c <= |lines| && i0 <= i <= |diff| && Remains(out, Apply(lines, c, diff, i, false), goal)
  {
    hide ToString, Marks, News, Prepend, OldStart, IsHeader;
    err, out, c, i := None, out0, c0, i0;
    while i < |diff|
      invariant c <= |lines| && i0 <= i <= |diff|
      invariant Remains(out, Apply(lines, c, diff, i, true), goal)
    {
      var hl := diff[i];
      if Marks(hl) { break; }
      var tag := if hl == "" then ' ' else hl[0];
      var body := if |hl| >= 1 then hl[1..] else "";
      if tag == ' ' {
        if c >= |lines| || lines[c] != body {
          return Some("context mismatch at base line " + ToString(c + 1)), out, c, i;
        }
        RemainsOne(out, Keep(body), Apply(lines, c + 1, diff, i + 1, true), goal);
        out := out + [body];
        c := c + 1;
      } else if tag == '-' {
        if c >= |lines| || lines[c] != body {
          return Some("removal mismatch at base line " + ToString(c + 1)), out, c, i;
        }
        RemainsOne(out, Del(body), Apply(lines, c + 1, diff, i + 1, true), goal);
        c := c + 1;
      } else if tag == '+' {
        RemainsOne(out, Ins(body), Apply(lines, c, diff, i + 1, true), goal);
        out := out + [body];
      } else {
        if hl != "" && hl[0] == '\\' { i := i + 1; continue; }
        return Some("unknown diff line tag"), out, c, i;
      }
      i := i + 1;
    }
  }

  /** A header moves the cursor and opens a hunk. */
  lemma HeaderTurn(lines: seq<string>, c: nat, diff: seq<string>, i: nat, out: seq<string>, goal: Script)
    requires c <= |lines| && i < |diff| && Remains(out, Apply(lines, c, diff, i, false), goal)
    ensures !IsHeader(diff[i]) ==> Remains(out, Apply(lines, c, diff, i + 1, false), goal)
    ensures IsHeader(diff[i]) ==>
              var c' := MoveTo(c, Target(OldStart(diff[i])), |lines|);
              Remains(out + lines[c..c'], Apply(lines, c', diff, i + 1, true), goal)
  {
    hide OldStart, Marks, Target, MoveTo;
    if IsHeader(diff[i]) {
      var c' := MoveTo(c, Target(OldStart(diff[i])), |lines|);
      RemainsKeep(out, lines[c..c'], Apply(lines, c', diff, i + 1, true), goal);
    }
  }

  lemma EndTurn(lines: seq<string>, c: nat, diff: seq<string>, out: seq<string>, goal: Script)
    requires c <= |lines| && Remains(out, Apply(lines, c, diff, |diff|, false), goal)
    ensures goal.Success? && out + lines[c..] == News(goal.value)
  {
    NewsKeeps(lines[c..], []);
    assert Keeps(lines[c..]) + [] == Keeps(lines[c..]);
  }

  method ApplyUnifiedDiff(base: string, diff: seq<string>) returns (r: Result<string, string>)
    ensures match Apply(SplitFrom("", base), 0, diff, 0, false)
            case Success(ops) => r == Success(Join(News(ops)))
            case Failure(m) => r == Failure(m)
  {
    hide Apply, News, Join, SplitFrom, OldStart, IsHeader;
    var lines := SplitLines(base);
    ghost var goal := Apply(lines, 0, diff, 0, false);
    var out: seq<string> := [];
    var c: nat, i: nat := 0, 0;
    assert goal.Success? ==> [] + News(goal.value) == News(goal.value);
    while i < |diff|
      invariant c <= |lines| && i <= |diff|
      invariant Remains(out, Apply(lines, c, diff, i, false), goal)
    {
      HeaderTurn(lines, c, diff, i, out, goal);
      if !IsHeader(diff[i]) {
        i := i + 1;
        continue;
      }
      var start := OldStart(diff[i]);
      out, c := CopyTo(lines, Target(start), out, c);
      i := i + 1;
      var err: Option<string>;
      err, out, c, i := ApplyHunk(lines, diff, out, c, i, goal);
      if err.Some? { return Failure(err.value); }
    }
    EndTurn(lines, c, diff, out, goal);
    assert lines[c..|lines|] == lines[c..];
    out, c := CopyTo(lines, |lines|, out, c);
    var text := JoinLines(out);
    r := Success(text);
  }
}
