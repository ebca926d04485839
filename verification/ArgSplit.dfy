/** How a child splits its command line again, and that it gets the arguments back. */
module ArgSplit {
  import T = Text
  import opened Wrappers
  import opened ArgQuote

  // ---- The child's rules ------------------------------------------------------------------------

  /** The white space that separates arguments outside quotes: the space, and no more than what the
      quoters put in quotes. */
  ghost predicate Separators(sep: char -> bool)
  {
    sep(' ') && forall c | sep(c) :: c in " \t\n\U{0B}"
  }

  function Got(cur: Option<string>): (x: string)
  {
    if cur.Some? then cur.value else ""
  }

  /** Microsoft's rule. `bs` backslashes have just been read: before a quote each pair is one
      backslash and an odd one makes the quote literal, otherwise they are literal. Inside quotes a
      doubled quote is one quote. */
  function NativeSplit(sep: char -> bool, s: string, bs: nat, quoted: bool, cur: Option<string>)
    : (args: seq<string>)
    decreases |s|
  {
    if s == "" then
      if cur.None? then [] else [cur.value + Slashes(bs)]
    else if s[0] == '\\' then NativeSplit(sep, s[1..], bs + 1, quoted, Some(Got(cur)))
    else if s[0] == '"' then
      var x := Got(cur) + Slashes(bs / 2);
      if bs % 2 == 1 then NativeSplit(sep, s[1..], 0, quoted, Some(x + "\""))
      else if quoted && |s| > 1 && s[1] == '"' then NativeSplit(sep, s[2..], 0, true, Some(x + "\""))
      else NativeSplit(sep, s[1..], 0, !quoted, Some(x))
    else if sep(s[0]) && !quoted then
      var rest := NativeSplit(sep, s[1..], 0, false, None);
      if cur.None? then rest else [cur.value + Slashes(bs)] + rest
    else NativeSplit(sep, s[1..], 0, quoted, Some(Got(cur) + Slashes(bs) + [s[0]]))
  }

  /** The MSYS rule: inside quotes a backslash makes a backslash or a quote literal. */
  function MsysSplit(sep: char -> bool, s: string, quoted: bool, cur: Option<string>): (args: seq<string>)
    decreases |s|
  {
    if s == "" then
      if cur.None? then [] else [cur.value]
    else if s[0] == '"' then MsysSplit(sep, s[1..], !quoted, Some(Got(cur)))
    else if quoted && s[0] == '\\' && |s| > 1 && s[1] in "\\\"" then
      MsysSplit(sep, s[2..], quoted, Some(Got(cur) + [s[1]]))
    else if sep(s[0]) && !quoted then
      var rest := MsysSplit(sep, s[1..], false, None);
      if cur.None? then rest else [cur.value] + rest
    else MsysSplit(sep, s[1..], quoted, Some(Got(cur) + [s[0]]))
  }

  function Split(msys: bool, sep: char -> bool, s: string): (args: seq<string>)
  {
    if msys then MsysSplit(sep, s, false, None) else NativeSplit(sep, s, 0, false, None)
  }

  /** What follows the program name, in which quotes only guard white space. */
  function AfterName(sep: char -> bool, s: string, quoted: bool): (rest: string)
  {
    if s == "" then ""
    else if s[0] == '"' then AfterName(sep, s[1..], !quoted)
    else if sep(s[0]) && !quoted then s
    else AfterName(sep, s[1..], quoted)
  }

  /** The arguments after the program name. */
  function ChildArgs(msys: bool, sep: char -> bool, cmd: string): (args: seq<string>)
  {
    Split(msys, sep, AfterName(sep, cmd, false))
  }

  // ---- One character at a time ----------------------------------------------------------------------

  lemma HeadTail(c: char, t: string)
    ensures var s := [c] + t;
            && s != "" && s[0] == c && s[1..] == t && |s| == 1 + |t|
            && (t != "" ==> s[1] == t[0] && s[2..] == t[1..])
  {
  }

  lemma NativeStep(sep: char -> bool, c: char, t: string, bs: nat, quoted: bool, cur: Option<string>)
    ensures NativeSplit(sep, [c] + t, bs, quoted, cur) ==
            if c == '\\' then NativeSplit(sep, t, bs + 1, quoted, Some(Got(cur)))
            else if c == '"' then
              var x := Got(cur) + Slashes(bs / 2);
              if bs % 2 == 1 then NativeSplit(sep, t, 0, quoted, Some(x + "\""))
              else if quoted && t != "" && t[0] == '"' then NativeSplit(sep, t[1..], 0, true, Some(x + "\""))
              else NativeSplit(sep, t, 0, !quoted, Some(x))
            else if sep(c) && !quoted then
              var rest := NativeSplit(sep, t, 0, false, None);
              if cur.None? then rest else [cur.value + Slashes(bs)] + rest
            else NativeSplit(sep, t, 0, quoted, Some(Got(cur) + Slashes(bs) + [c]))
  {
    hide Slashes, Got;
    HeadTail(c, t);
  }

  lemma SlashStep(sep: char -> bool, t: string, bs: nat, quoted: bool, x: string)
    ensures NativeSplit(sep, "\\" + t, bs, quoted, Some(x)) == NativeSplit(sep, t, bs + 1, quoted, Some(x))
  {
    hide NativeSplit, Slashes;
    NativeStep(sep, '\\', t, bs, quoted, Some(x));
  }

  lemma LiteralQuoteStep(sep: char -> bool, t: string, n: nat, quoted: bool, x: string)
    ensures NativeSplit(sep, "\"" + t, 2 * n + 1, quoted, Some(x))
            == NativeSplit(sep, t, 0, quoted, Some(x + Slashes(n) + "\""))
  {
    hide NativeSplit, Slashes;
    NativeStep(sep, '"', t, 2 * n + 1, quoted, Some(x));
    assert (2 * n + 1) / 2 == n;
  }

  lemma CloseStep(sep: char -> bool, t: string, n: nat, x: string)
    requires t == "" || t[0] == ' '
    ensures NativeSplit(sep, "\"" + t, 2 * n, true, Some(x)) == NativeSplit(sep, t, 0, false, Some(x + Slashes(n)))
  {
    hide NativeSplit, Slashes;
    NativeStep(sep, '"', t, 2 * n, true, Some(x));
  }

  lemma OpenStep(sep: char -> bool, t: string)
    ensures NativeSplit(sep, "\"" + t, 0, false, None) == NativeSplit(sep, t, 0, true, Some(""))
  {
    hide NativeSplit;
    NativeStep(sep, '"', t, 0, false, None);
    assert "" + Slashes(0 / 2) == "";
  }

  lemma OtherStep(sep: char -> bool, c: char, t: string, bs: nat, quoted: bool, cur: Option<string>)
    requires c != '\\' && c != '"' && (quoted || !sep(c))
    ensures NativeSplit(sep, [c] + t, bs, quoted, cur)
            == NativeSplit(sep, t, 0, quoted, Some(Got(cur) + Slashes(bs) + [c]))
  {
    hide NativeSplit, Slashes, Got;
    NativeStep(sep, c, t, bs, quoted, cur);
  }

  lemma SpaceStep(sep: char -> bool, t: string)
    requires sep(' ')
    ensures NativeSplit(sep, " " + t, 0, false, None) == NativeSplit(sep, t, 0, false, None)
  {
    hide NativeSplit, Slashes, Got;
    NativeStep(sep, ' ', t, 0, false, None);
  }

  /** An argument ends at a separator or at the end. */
  lemma EndStep(sep: char -> bool, t: string, bs: nat, x: string)
    requires t == "" || (t[0] == ' ' && sep(' '))
    ensures NativeSplit(sep, t, bs, false, Some(x)) == [x + Slashes(bs)] + NativeSplit(sep, t, 0, false, None)
    ensures MsysSplit(sep, t, false, Some(x)) == [x] + MsysSplit(sep, t, false, None)
  {
  }

  lemma {:induction false} SlashesStep(sep: char -> bool, n: nat, t: string, bs: nat, quoted: bool, x: string)
    ensures NativeSplit(sep, Slashes(n) + t, bs, quoted, Some(x)) == NativeSplit(sep, t, bs + n, quoted, Some(x))
  {
    hide NativeSplit;
    if n == 0 {
      assert Slashes(n) + t == t;
    } else {
      assert Slashes(n) + t == "\\" + (Slashes(n - 1) + t);
      SlashStep(sep, Slashes(n - 1) + t, bs, quoted, x);
      SlashesStep(sep, n - 1, t, bs + 1, quoted, x);
    }
  }

  // ---- One argument ------------------------------------------------------------------------------------

  lemma Assoc(a: string, b: string, c: string)
    ensures (a + b) + c == a + (b + c)
  {
  }

  lemma Cut(a: string, n: nat)
    requires n <= |a|
    ensures a == if n == |a| then a[..n] else a[..n] + ([a[n]] + a[n + 1..])
    ensures a[0..] == a
  {
  }

  /** An argument and its escaped form up to the first character that is not a backslash. */
  lemma EscapedParts(a: string) returns (n: nat, last: bool, c: char, b: string)
    ensures last ==> a == Slashes(n) && Escaped(a) == Slashes(2 * n)
    ensures !last ==>
              && |b| < |a| && c != '\\' && a == Slashes(n) + ([c] + b)
              && Escaped(a) == if c == '"' then Slashes(2 * n + 1) + ("\"" + Escaped(b))
                               else Slashes(n) + ([c] + Escaped(b))
  {
    hide *;
    n := SlashCount(a);
    Cut(a, n);
    Cut(a, 0);
    EscapedAt(a, 0, n);
    last := n == |a|;
    if !last {
      c, b := a[n], a[n + 1..];
    } else {
      c, b := ' ', "";
    }
  }

  lemma ReadQuote(sep: char -> bool, n: nat, e: string, end: string, x: string)
    ensures NativeSplit(sep, Slashes(2 * n + 1) + ("\"" + e) + end, 0, true, Some(x))
            == NativeSplit(sep, e + end, 0, true, Some(x + Slashes(n) + "\""))
  {
    hide *;
    Regroup3(Slashes(2 * n + 1), "\"", e, end);
    SlashesStep(sep, 2 * n + 1, "\"" + (e + end), 0, true, x);
    LiteralQuoteStep(sep, e + end, n, true, x);
  }

  lemma ReadOther(sep: char -> bool, n: nat, c: char, e: string, end: string, x: string)
    requires c != '\\' && c != '"'
    ensures NativeSplit(sep, Slashes(n) + ([c] + e) + end, 0, true, Some(x))
            == NativeSplit(sep, e + end, 0, true, Some(x + Slashes(n) + [c]))
  {
    hide *;
    Regroup3(Slashes(n), [c], e, end);
    SlashesStep(sep, n, [c] + (e + end), 0, true, x);
    OtherStep(sep, c, e + end, n, true, Some(x));
    GotSome(x);
  }

  /** Reading what is between the quotes, and the closing quote, gives the argument. */
  lemma {:induction false} ReadEscaped(sep: char -> bool, a: string, x: string, rest: string)
    requires rest == "" || rest[0] == ' '
    ensures NativeSplit(sep, Escaped(a) + ("\"" + rest), 0, true, Some(x))
            == NativeSplit(sep, rest, 0, false, Some(x + a))
    decreases |a|
  {
    hide *;
    var n, last, c, b := EscapedParts(a);
    var end := "\"" + rest;
    if last {
      SlashesStep(sep, 2 * n, end, 0, true, x);
      CloseStep(sep, rest, n, x);
    } else {
      ReadEscaped(sep, b, x + Slashes(n) + [c], rest);
      Join(x, Slashes(n), [c], b);
      if c == '"' {
        ReadQuote(sep, n, Escaped(b), end, x);
      } else {
        ReadOther(sep, n, c, Escaped(b), end, x);
      }
    }
  }

  lemma GotSome(x: string)
    ensures Got(Some(x)) == x
  {
  }

  lemma Regroup3(a: string, b: string, c: string, d: string)
    ensures (a + (b + c)) + d == a + (b + (c + d))
  {
  }

  lemma Join(x: string, a: string, b: string, c: string)
    ensures (x + a + b) + c == x + (a + (b + c))
  {
  }

  /** An argument with nothing special in it is read as it stands. */
  lemma {:induction false} ReadBare(sep: char -> bool, a: string, bs: nat, x: string, rest: string)
    requires forall c | c in a :: !sep(c) && c != '"'
    requires rest == "" || (rest[0] == ' ' && sep(' '))
    ensures NativeSplit(sep, a + rest, bs, false, Some(x))
            == [x + Slashes(bs) + a] + NativeSplit(sep, rest, 0, false, None)
  {
    hide NativeSplit;
    if a == "" {
      assert a + rest == rest && x + Slashes(bs) + a == x + Slashes(bs);
      EndStep(sep, rest, bs, x);
    } else {
      var c, b := a[0], a[1..];
      assert c in a && forall d | d in b :: d in a;
      assert a + rest == [c] + (b + rest);
      if c == '\\' {
        SlashStep(sep, b + rest, bs, false, x);
        ReadBare(sep, b, bs + 1, x, rest);
        OneMore(bs);
        assert x + (Slashes(bs) + "\\") + b == x + Slashes(bs) + a;
      } else {
        OtherStep(sep, c, b + rest, bs, false, Some(x));
        ReadBare(sep, b, 0, x + Slashes(bs) + [c], rest);
        assert x + Slashes(bs) + [c] + Slashes(0) + b == x + Slashes(bs) + a;
      }
    }
  }

  lemma {:induction false} OneMore(bs: nat)
    ensures Slashes(bs + 1) == Slashes(bs) + "\\"
  {
    if bs > 0 {
      OneMore(bs - 1);
    }
  }

  lemma NoSpecial(sep: char -> bool, a: string, chars: string)
    requires Separators(sep) && !HasAny(a, chars) && forall c | c in " \t\n\U{0B}\"" :: c in chars
    ensures forall c | c in a :: !sep(c) && c != '"' && c !in chars
  {
  }

  lemma Reading(x: string, a: string)
    ensures "" + x == x && x + Slashes(0) == x && "" + Slashes(0) + a == a
  {
  }

  /** A native child reads a quoted argument back, up to the space or the end after it. */
  lemma ReadNative(sep: char -> bool, a: string, rest: string)
    requires Separators(sep) && (rest == "" || rest[0] == ' ')
    ensures NativeSplit(sep, Native(a) + rest, 0, false, None) == [a] + NativeSplit(sep, rest, 0, false, None)
  {
    hide *;
    HasSpace(sep);
    NativeIs(a);
    Reading(a, a);
    if a != "" && !HasAny(a, " \t\n\U{0B}\"") {
      NoSpecial(sep, a, " \t\n\U{0B}\"");
      ReadBare(sep, a, 0, "", rest);
      NoneIsEmpty(sep, a + rest);
    } else {
      Quotes(Escaped(a), rest);
      OpenStep(sep, Escaped(a) + ("\"" + rest));
      ReadEscaped(sep, a, "", rest);
      EndStep(sep, rest, 0, a);
    }
  }

  lemma HasSpace(sep: char -> bool)
    ensures Separators(sep) ==> sep(' ')
  {
  }

  lemma Quotes(e: string, rest: string)
    ensures ("\"" + e + "\"") + rest == "\"" + (e + ("\"" + rest))
  {
  }

  /** Before a character that starts an argument, no argument is the same as an empty one. */
  lemma NoneIsEmpty(sep: char -> bool, s: string)
    requires s != "" && !sep(s[0]) && s[0] != '"'
    ensures NativeSplit(sep, s, 0, false, None) == NativeSplit(sep, s, 0, false, Some(""))
    ensures MsysSplit(sep, s, false, None) == MsysSplit(sep, s, false, Some(""))
  {
  }

  // ---- The MSYS rule -----------------------------------------------------------------------------------

  lemma MsysStep(sep: char -> bool, c: char, t: string, quoted: bool, cur: Option<string>)
    ensures MsysSplit(sep, [c] + t, quoted, cur) ==
            if c == '"' then MsysSplit(sep, t, !quoted, Some(Got(cur)))
            else if quoted && c == '\\' && t != "" && t[0] in "\\\"" then
              MsysSplit(sep, t[1..], quoted, Some(Got(cur) + [t[0]]))
            else if sep(c) && !quoted then
              var rest := MsysSplit(sep, t, false, None);
              if cur.None? then rest else [cur.value] + rest
            else MsysSplit(sep, t, quoted, Some(Got(cur) + [c]))
  {
    hide Got;
    HeadTail(c, t);
  }

  lemma MsysCharStep(sep: char -> bool, c: char, t: string, x: string)
    ensures MsysSplit(sep, MsysChar(c) + t, true, Some(x)) == MsysSplit(sep, t, true, Some(x + [c]))
  {
    hide MsysSplit;
    if c == '"' || c == '\\' {
      assert MsysChar(c) + t == "\\" + ([c] + t);
      HeadTail(c, t);
      MsysStep(sep, '\\', [c] + t, true, Some(x));
    } else {
      MsysStep(sep, c, t, true, Some(x));
    }
  }

  lemma MsysEscapedIs(a: string)
    requires a != ""
    ensures MsysEscaped(a) == MsysChar(a[0]) + MsysEscaped(a[1..])
  {
    hide MsysChar;
  }

  lemma FirstChar(a: string)
    requires a != ""
    ensures a == [a[0]] + a[1..]
  {
  }

  lemma {:induction false} ReadMsysEscaped(sep: char -> bool, a: string, x: string, rest: string)
    ensures MsysSplit(sep, MsysEscaped(a) + ("\"" + rest), true, Some(x)) == MsysSplit(sep, rest, false, Some(x + a))
  {
    hide MsysSplit, MsysChar, MsysEscaped;
    var end := "\"" + rest;
    if a == "" {
      NoMsys();
      assert "" + end == end && x + a == x;
      MsysStep(sep, '"', rest, true, Some(x));
    } else {
      MsysEscapedIs(a);
      FirstChar(a);
      Assoc(MsysChar(a[0]), MsysEscaped(a[1..]), end);
      MsysCharStep(sep, a[0], MsysEscaped(a[1..]) + end, x);
      ReadMsysEscaped(sep, a[1..], x + [a[0]], rest);
      Assoc(x, [a[0]], a[1..]);
    }
  }

  lemma NoMsys()
    ensures MsysEscaped("") == ""
  {
  }

  lemma {:induction false} ReadMsysBare(sep: char -> bool, a: string, x: string, rest: string)
    requires forall c | c in a :: !sep(c) && c != '"'
    requires rest == "" || (rest[0] == ' ' && sep(' '))
    ensures MsysSplit(sep, a + rest, false, Some(x)) == [x + a] + MsysSplit(sep, rest, false, None)
  {
    hide MsysSplit;
    if a == "" {
      assert a + rest == rest && x + a == x;
      EndStep(sep, rest, 0, x);
    } else {
      var c, b := a[0], a[1..];
      assert c in a && forall d | d in b :: d in a;
      assert a + rest == [c] + (b + rest);
      MsysStep(sep, c, b + rest, false, Some(x));
      ReadMsysBare(sep, b, x + [c], rest);
      assert x + [c] + b == x + a;
    }
  }

  lemma MsysOpen(sep: char -> bool, t: string)
    ensures MsysSplit(sep, "\"" + t, false, None) == MsysSplit(sep, t, true, Some(""))
  {
    HeadTail('"', t);
  }

  /** An MSYS child reads a quoted argument back. */
  lemma ReadMsys(sep: char -> bool, a: string, rest: string)
    requires Separators(sep) && (rest == "" || rest[0] == ' ')
    ensures MsysSplit(sep, Msys(a) + rest, false, None) == [a] + MsysSplit(sep, rest, false, None)
  {
    hide *;
    HasSpace(sep);
    MsysIs(a);
    Reading(a, a);
    if a != "" && !HasAny(a, " \t\n\U{0B}\"\\") {
      NoSpecial(sep, a, " \t\n\U{0B}\"\\");
      ReadMsysBare(sep, a, "", rest);
      NoneIsEmpty(sep, a + rest);
    } else {
      Quotes(MsysEscaped(a), rest);
      MsysOpen(sep, MsysEscaped(a) + ("\"" + rest));
      ReadMsysEscaped(sep, a, "", rest);
      EndStep(sep, rest, 0, a);
    }
  }

  // ---- All arguments --------------------------------------------------------------------------------------

  lemma ReadQuoted(msys: bool, sep: char -> bool, a: string, rest: string)
    requires Separators(sep) && (rest == "" || rest[0] == ' ')
    ensures Split(msys, sep, " " + (Quoted(msys, a) + rest)) == [a] + Split(msys, sep, rest)
  {
    hide NativeSplit, MsysSplit, Native, Msys;
    if msys {
      ReadMsys(sep, a, rest);
      MsysStep(sep, ' ', Msys(a) + rest, false, None);
    } else {
      ReadNative(sep, a, rest);
      SpaceStep(sep, Native(a) + rest);
    }
  }

  lemma TailIs(msys: bool, args: seq<string>)
    ensures args != [] ==> Tail(msys, args) == " " + (Quoted(msys, args[0]) + Tail(msys, args[1..]))
    ensures args == [] ==> Tail(msys, args) == ""
    ensures Tail(msys, args) == "" || Tail(msys, args)[0] == ' '
  {
  }

  lemma SplitNone(msys: bool, sep: char -> bool)
    ensures Split(msys, sep, "") == []
  {
  }

  lemma {:induction false} ReadTail(msys: bool, sep: char -> bool, args: seq<string>)
    requires Separators(sep)
    ensures Split(msys, sep, Tail(msys, args)) == args
  {
    hide *;
    TailIs(msys, args);
    if args == [] {
      SplitNone(msys, sep);
    } else {
      TailIs(msys, args[1..]);
      ReadTail(msys, sep, args[1..]);
      ReadQuoted(msys, sep, args[0], Tail(msys, args[1..]));
    }
  }

  // ---- The program name --------------------------------------------------------------------------------

  /** The quotes in the program name leave none of its white space, and not its end, outside quotes
      when the name is itself put in quotes. */
  predicate NameSafe(sep: char -> bool, a: string, quoted: bool)
  {
    if a == "" then quoted
    else if a[0] == '"' then NameSafe(sep, a[1..], !quoted)
    else if sep(a[0]) && !quoted then false
    else NameSafe(sep, a[1..], quoted)
  }

  lemma NameStep(sep: char -> bool, c: char, t: string, quoted: bool)
    ensures AfterName(sep, [c] + t, quoted) ==
            if c == '"' then AfterName(sep, t, !quoted)
            else if sep(c) && !quoted then [c] + t
            else AfterName(sep, t, quoted)
    ensures NameSafe(sep, [c] + t, quoted) ==
            if c == '"' then NameSafe(sep, t, !quoted)
            else if sep(c) && !quoted then false
            else NameSafe(sep, t, quoted)
  {
    HeadTail(c, t);
  }

  lemma {:induction false} NameSlashes(sep: char -> bool, n: nat, t: string, quoted: bool)
    requires !sep('\\')
    ensures AfterName(sep, Slashes(n) + t, quoted) == AfterName(sep, t, quoted)
    ensures NameSafe(sep, Slashes(n) + t, quoted) == NameSafe(sep, t, quoted)
  {
    hide AfterName, NameSafe;
    if n == 0 {
      assert Slashes(n) + t == t;
    } else {
      assert Slashes(n) + t == "\\" + (Slashes(n - 1) + t);
      NameStep(sep, '\\', Slashes(n - 1) + t, quoted);
      NameSlashes(sep, n - 1, t, quoted);
    }
  }

  lemma NoName(sep: char -> bool, n: nat, quoted: bool)
    requires !sep('\\')
    ensures NameSafe(sep, Slashes(n), quoted) == quoted
  {
    NameSlashes(sep, n, "", quoted);
    assert Slashes(n) + "" == Slashes(n);
  }

  /** What is left of a quoted name: nothing of it when it is safe; otherwise all is taken for the
      name, or the name ends within it. */
  predicate NameLeft(sep: char -> bool, safe: bool, end: string, left: string)
  {
    if safe then left == AfterName(sep, end, true)
    else left == AfterName(sep, end, false) || T.EndsWith(left, end)
  }

  lemma EndsWithThat(s: string, end: string)
    ensures T.EndsWith(s + end, end)
  {
  }

  lemma {:induction false} NameOfEscaped(sep: char -> bool, a: string, quoted: bool, end: string)
    requires !sep('\\') && !sep('"')
    ensures NameLeft(sep, NameSafe(sep, a, quoted), end, AfterName(sep, Escaped(a) + end, quoted))
    decreases |a|
  {
    hide AfterName, NameSafe, T.EndsWith, Slashes, Escaped;
    var n, last, c, b := EscapedParts(a);
    if last {
      NameSlashes(sep, 2 * n, end, quoted);
      NoName(sep, n, quoted);
    } else {
      var m := if c == '"' then 2 * n + 1 else n;
      var e := Escaped(b);
      Regroup3(Slashes(m), [c], e, end);
      NameSlashes(sep, m, [c] + (e + end), quoted);
      NameSlashes(sep, n, [c] + b, quoted);
      NameStep(sep, c, e + end, quoted);
      NameStep(sep, c, b, quoted);
      if c == '"' {
        NameOfEscaped(sep, b, !quoted, end);
      } else if sep(c) && !quoted {
        Assoc([c], e, end);
        EndsWithThat([c] + e, end);
      } else {
        NameOfEscaped(sep, b, quoted, end);
      }
    }
  }

  lemma {:induction false} BareName(sep: char -> bool, a: string, rest: string, quoted: bool)
    requires forall c | c in a :: !sep(c) && c != '"'
    ensures AfterName(sep, a + rest, quoted) == AfterName(sep, rest, quoted)
    ensures NameSafe(sep, a, quoted) == quoted
  {
    hide AfterName, NameSafe;
    if a == "" {
      assert a + rest == rest;
      EmptyName(sep, quoted);
    } else {
      assert a[0] in a && forall d | d in a[1..] :: d in a;
      assert a + rest == [a[0]] + (a[1..] + rest);
      assert a == [a[0]] + a[1..];
      NameStep(sep, a[0], a[1..] + rest, quoted);
      NameStep(sep, a[0], a[1..], quoted);
      BareName(sep, a[1..], rest, quoted);
    }
  }

  lemma EmptyName(sep: char -> bool, quoted: bool)
    ensures NameSafe(sep, "", quoted) == quoted
  {
  }

  lemma NotSeparators(sep: char -> bool)
    requires Separators(sep)
    ensures !sep('\\') && !sep('"') && sep(' ')
  {
  }

  lemma NameQuotes(e: string, rest: string)
    ensures ("\"" + e + "\"") + rest == ['"'] + (e + ("\"" + rest))
  {
  }

  /** After a program name that is safe to quote, the rest of the command line is left. */
  lemma NameRead(sep: char -> bool, a: string, rest: string)
    requires Separators(sep) && NameSafe(sep, a, true) && (rest == "" || rest[0] == ' ')
    ensures AfterName(sep, Native(a) + rest, false) == rest
  {
    hide *;
    NotSeparators(sep);
    NativeIs(a);
    NameEnds(sep, rest);
    if a != "" && !HasAny(a, " \t\n\U{0B}\"") {
      NoSpecial(sep, a, " \t\n\U{0B}\"");
      BareName(sep, a, rest, false);
    } else {
      NameQuotes(Escaped(a), rest);
      NameStep(sep, '"', Escaped(a) + ("\"" + rest), false);
      NameOfEscaped(sep, a, true, "\"" + rest);
      SafeLeft(sep, "\"" + rest, AfterName(sep, Escaped(a) + ("\"" + rest), true));
      NameStep(sep, '"', rest, true);
    }
  }

  lemma SafeLeft(sep: char -> bool, end: string, left: string)
    ensures NameLeft(sep, true, end, left) ==> left == AfterName(sep, end, true)
  {
  }

  lemma NameEnds(sep: char -> bool, rest: string)
    requires sep(' ') && (rest == "" || rest[0] == ' ')
    ensures AfterName(sep, rest, false) == rest
  {
  }

  lemma CommandIs(program: string, args: seq<string>)
    ensures CommandLine([program] + args) == Native(program) + Tail(MsysName(Normal(program)), args)
  {
    assert ([program] + args)[1..] == args;
  }

  /** The child gets back every argument after a program name that is safe to quote. */
  lemma ArgumentsReturn(sep: char -> bool, program: string, args: seq<string>)
    requires Separators(sep) && NameSafe(sep, program, true)
    ensures ChildArgs(MsysName(Normal(program)), sep, CommandLine([program] + args)) == args
  {
    hide *;
    var msys := MsysName(Normal(program));
    CommandIs(program, args);
    TailIs(msys, args);
    NameRead(sep, program, Tail(msys, args));
    ChildIs(msys, sep, CommandLine([program] + args));
    ReadTail(msys, sep, args);
  }

  lemma ChildIs(msys: bool, sep: char -> bool, cmd: string)
    ensures ChildArgs(msys, sep, cmd) == Split(msys, sep, AfterName(sep, cmd, false))
  {
  }

  /** In particular after any name without a quote. */
  lemma {:induction false} NoQuoteSafe(sep: char -> bool, a: string)
    requires '"' !in a
    ensures NameSafe(sep, a, true)
  {
    if a != "" {
      NoQuoteSafe(sep, a[1..]);
    }
  }

  // ---- Names that are not safe to quote -------------------------------------------------------------------

  /** More than one argument, or one longer than a character. */
  predicate Long(args: seq<string>)
  {
    |args| > 1 || (|args| == 1 && |args[0]| > 1)
  }

  const END := "\" x"

  lemma EndChars(s: string)
    ensures T.EndsWith(s, END) ==> |s| >= 3
    ensures T.EndsWith(s, END) && |s| == 3 ==> s == "\"" + " x"
    ensures T.EndsWith(s, END) && |s| > 3 ==> T.EndsWith(s[1..], END) && s == [s[0]] + s[1..]
    ensures T.EndsWith(s, END) && |s| == 4 ==> s[1..][1..] == " x"
    ensures T.EndsWith(s, END) && |s| > 4 ==> T.EndsWith(s[1..][1..], END)
  {
  }

  lemma LastChar(sep: char -> bool, quoted: bool, x: string)
    requires Separators(sep)
    ensures NativeSplit(sep, "x", 0, quoted, None) == ["x"]
    ensures NativeSplit(sep, "x", 0, quoted, Some(x)) == [x + "x"]
    ensures MsysSplit(sep, "x", quoted, None) == ["x"]
    ensures MsysSplit(sep, "x", quoted, Some(x)) == [x + "x"]
  {
    assert !sep('x') && "x" == ['x'] + "";
    NativeStep(sep, 'x', "", 0, quoted, None);
    NativeStep(sep, 'x', "", 0, quoted, Some(x));
    MsysStep(sep, 'x', "", quoted, None);
    MsysStep(sep, 'x', "", quoted, Some(x));
    Reading(x, "x");
    Reading(x + "x", "");
  }

  lemma LastArgument(sep: char -> bool, x: string)
    requires Separators(sep)
    ensures Long(NativeSplit(sep, " x", 0, true, Some(x))) && Long(MsysSplit(sep, " x", true, Some(x)))
    ensures Long(NativeSplit(sep, " x", 0, false, Some(x))) && Long(MsysSplit(sep, " x", false, Some(x)))
  {
    hide NativeSplit, MsysSplit;
    NotSeparators(sep);
    var t := "x";
    assert " x" == [' '] + t;
    LastChar(sep, false, x);
    LastChar(sep, true, x + Slashes(0) + " ");
    LastChar(sep, true, x + " ");
    NativeStep(sep, ' ', t, 0, true, Some(x));
    MsysStep(sep, ' ', t, true, Some(x));
    NativeStep(sep, ' ', t, 0, false, Some(x));
    MsysStep(sep, ' ', t, false, Some(x));
  }

  /** The rest of a name that ends early does not read as the one argument `x`. */
  lemma {:induction false} LongNative(sep: char -> bool, s: string, bs: nat, quoted: bool, cur: Option<string>)
    requires Separators(sep) && T.EndsWith(s, END)
    ensures Long(NativeSplit(sep, s, bs, quoted, cur))
    decreases |s|
  {
    hide NativeSplit, T.EndsWith;
    EndChars(s);
    NotSeparators(sep);
    var x := Got(cur) + Slashes(bs / 2);
    if |s| == 3 {
      NativeStep(sep, '"', " x", bs, quoted, cur);
      LastArgument(sep, x);
      LastArgument(sep, x + "\"");
    } else {
      var c, t := s[0], s[1..];
      NativeStep(sep, c, t, bs, quoted, cur);
      LongNative(sep, t, bs + 1, quoted, Some(Got(cur)));
      LongNative(sep, t, 0, quoted, Some(x + "\""));
      LongNative(sep, t, 0, !quoted, Some(x));
      LongNative(sep, t, 0, false, None);
      LongNative(sep, t, 0, quoted, Some(Got(cur) + Slashes(bs) + [c]));
      if |s| == 4 {
        LastArgument(sep, x + "\"");
      } else {
        LongNative(sep, t[1..], 0, true, Some(x + "\""));
      }
    }
  }

  lemma {:induction false} LongMsys(sep: char -> bool, s: string, quoted: bool, cur: Option<string>)
    requires Separators(sep) && T.EndsWith(s, END)
    ensures Long(MsysSplit(sep, s, quoted, cur))
    decreases |s|
  {
    hide MsysSplit, T.EndsWith;
    EndChars(s);
    NotSeparators(sep);
    if |s| == 3 {
      MsysStep(sep, '"', " x", quoted, cur);
      LastArgument(sep, Got(cur));
    } else {
      var c, t := s[0], s[1..];
      MsysStep(sep, c, t, quoted, cur);
      LongMsys(sep, t, !quoted, Some(Got(cur)));
      LongMsys(sep, t, false, None);
      LongMsys(sep, t, quoted, Some(Got(cur) + [c]));
      var y := Got(cur) + [t[0]];
      if |s| == 4 {
        LastArgument(sep, y);
      } else {
        LongMsys(sep, t[1..], quoted, Some(y));
      }
    }
  }

  /** After a name that is not safe to quote, one argument `x` does not come back. */
  lemma UnsafeLoses(sep: char -> bool, program: string)
    requires Separators(sep) && !NameSafe(sep, program, true)
    ensures ChildArgs(MsysName(Normal(program)), sep, CommandLine([program] + ["x"])) != ["x"]
  {
    hide *;
    var msys := MsysName(Normal(program));
    NotSeparators(sep);
    CommandIs(program, ["x"]);
    TailX(msys);
    NativeIs(program);
    ChildIs(msys, sep, CommandLine([program] + ["x"]));
    if program != "" && !HasAny(program, " \t\n\U{0B}\"") {
      NoSpecial(sep, program, " \t\n\U{0B}\"");
      BareName(sep, program, "", true);
    } else {
      var e := Escaped(program);
      NameQuotes(e, " x");
      NameStep(sep, '"', e + END, false);
      NameOfEscaped(sep, program, true, END);
      EndLeft(sep, msys, AfterName(sep, e + END, true));
      EndIs();
    }
  }

  /** The program name `a"b` loses the argument `x`. */
  lemma QuoteInName(sep: char -> bool)
    requires Separators(sep)
    ensures var name := "a\"b";
            !NameSafe(sep, name, true)
            && ChildArgs(MsysName(Normal(name)), sep, CommandLine([name, "x"])) != ["x"]
  {
    var name := "a\"b";
    assert name[1..] == "\"b" && name[1..][1..] == "b" && name[1..][1..][1..] == "";
    assert !NameSafe(sep, "b", false);
    hide NameSafe, ChildArgs, CommandLine, Separators;
    UnsafeLoses(sep, name);
    assert [name] + ["x"] == [name, "x"];
  }

  lemma EndIs()
    ensures END == "\"" + " x"
  {
  }

  lemma TailX(msys: bool)
    ensures Tail(msys, ["x"]) == " x"
  {
    assert ["x"][1..] == [];
    assert !HasAny("x", " \t\n\U{0B}\"") && !HasAny("x", " \t\n\U{0B}\"\\");
  }

  lemma EndLeft(sep: char -> bool, msys: bool, left: string)
    requires Separators(sep) && NameLeft(sep, false, END, left)
    ensures Split(msys, sep, left) != ["x"]
  {
    hide NativeSplit, MsysSplit, T.EndsWith;
    if T.EndsWith(left, END) {
      LongNative(sep, left, 0, false, None);
      LongMsys(sep, left, false, None);
    } else {
      SwallowedEnd(sep);
      SplitNone(msys, sep);
    }
  }

  lemma SwallowedEnd(sep: char -> bool)
    requires Separators(sep)
    ensures AfterName(sep, END, false) == ""
  {
    hide AfterName;
    assert END == ['"'] + ([' '] + (['x'] + ""));
    NameStep(sep, '"', [' '] + (['x'] + ""), false);
    NameStep(sep, ' ', ['x'] + "", true);
    NameStep(sep, 'x', "", true);
    NothingLeft(sep);
  }

  lemma NothingLeft(sep: char -> bool)
    ensures AfterName(sep, "", true) == ""
  {
  }

  /** All arguments always come back to the child exactly when its program name is safe to quote. */
  lemma AlwaysReturnsIff(sep: char -> bool, program: string)
    requires Separators(sep)
    ensures NameSafe(sep, program, true) <==>
            forall args: seq<string> ::
              ChildArgs(MsysName(Normal(program)), sep, CommandLine([program] + args)) == args
  {
    if NameSafe(sep, program, true) {
      forall args: seq<string>
        ensures ChildArgs(MsysName(Normal(program)), sep, CommandLine([program] + args)) == args
      {
        ArgumentsReturn(sep, program, args);
      }
    } else {
      UnsafeLoses(sep, program);
    }
  }

  // ---- Which arguments are quoted ----------------------------------------------------------------------

  /** An argument stays as it is unless it is empty or holds white space or a character its rule treats
      in a special way; then it is put in quotes. */
  lemma QuotedOnlyIfNeeded(a: string)
    ensures a != "" && (forall c | c in a :: c != ' ' && c != '\t' && c != '\n' && c != '\U{0B}' && c != '"') ==>
              Native(a) == a && ('\\' !in a ==> Msys(a) == a)
    ensures a == "" || (exists c | c in a :: c == ' ' || c == '\t' || c == '\n' || c == '\U{0B}' || c == '"') ==>
              && |Native(a)| >= 2 && Native(a)[0] == '"' && Native(a)[|Native(a)| - 1] == '"'
              && |Msys(a)| >= 2 && Msys(a)[0] == '"' && Msys(a)[|Msys(a)| - 1] == '"'
    ensures '\\' in a ==> |Msys(a)| >= 2 && Msys(a)[0] == '"' && Msys(a)[|Msys(a)| - 1] == '"'
  {
    SpecialChars();
    hide Escaped, MsysEscaped;
  }

  lemma SpecialChars()
    ensures forall c :: c in " \t\n\U{0B}\"" <==> c == ' ' || c == '\t' || c == '\n' || c == '\U{0B}' || c == '"'
    ensures forall c :: c in " \t\n\U{0B}\"\\" <==>
                        c == ' ' || c == '\t' || c == '\n' || c == '\U{0B}' || c == '"' || c == '\\'
  {
    var s, t := " \t\n\U{0B}\"", " \t\n\U{0B}\"\\";
    assert s[0] == ' ' && s[1] == '\t' && s[2] == '\n' && s[3] == '\U{0B}' && s[4] == '"';
    assert t[0] == ' ' && t[1] == '\t' && t[2] == '\n' && t[3] == '\U{0B}' && t[4] == '"' && t[5] == '\\';
  }
}
