/** Joining an argument vector into one command line, quoted for the child that will split it. */
module ArgQuote {
  import T = Text

  // ---- Quoting one argument -----------------------------------------------------------------

  /** `a.find_first_of(chars) != npos` */
  predicate HasAny(a: string, chars: string)
  {
    exists c | c in a :: c in chars
  }

  function Slashes(n: nat): (s: string)
    ensures |s| == n
  {
    if n == 0 then "" else "\\" + Slashes(n - 1)
  }

  function SlashCount(a: string): (n: nat)
    ensures n <= |a| && (n < |a| ==> a[n] != '\\')
    ensures a[..n] == Slashes(n)
  {
    if a != "" && a[0] == '\\' then 1 + SlashCount(a[1..]) else 0
  }

  /** The text between the quotes for a native child: backslashes double before a quote and at the
      end, and a quote is escaped. */
  function Escaped(a: string): (out: string)
    decreases |a|
  {
    var n := SlashCount(a);
    if n == |a| then Slashes(2 * n)
    else if a[n] == '"' then Slashes(2 * n + 1) + ("\"" + Escaped(a[n + 1..]))
    else Slashes(n) + ([a[n]] + Escaped(a[n + 1..]))
  }

  function Native(a: string): (out: string)
  {
    if a != "" && !HasAny(a, " \t\n\U{0B}\"") then a else "\"" + Escaped(a) + "\""
  }

  function MsysChar(c: char): (out: string)
  {
    if c == '"' || c == '\\' then ['\\', c] else [c]
  }

  function MsysEscaped(a: string): (out: string)
  {
    if a == "" then "" else MsysChar(a[0]) + MsysEscaped(a[1..])
  }

  function Msys(a: string): (out: string)
  {
    if a != "" && !HasAny(a, " \t\n\U{0B}\"\\") then a else "\"" + MsysEscaped(a) + "\""
  }

  lemma EscapedAt(a: string, j: nat, n: nat)
    requires j + n <= |a| && n == SlashCount(a[j..])
    ensures Escaped(a[j..]) == if j + n == |a| then Slashes(2 * n)
                               else if a[j + n] == '"' then Slashes(2 * n + 1) + ("\"" + Escaped(a[j + n + 1..]))
                               else Slashes(n) + ([a[j + n]] + Escaped(a[j + n + 1..]))
  {
    assert j + n < |a| ==> a[j..][n + 1..] == a[j + n + 1..];
  }

  method CountSlashes(a: string, j: nat) returns (bs: nat)
    requires j <= |a|
    ensures bs == SlashCount(a[j..]) && j + bs <= |a|
  {
    bs := 0;
    while j + bs < |a| && a[j + bs] == '\\'
      invariant j + bs <= |a|
      invariant bs + SlashCount(a[j + bs..]) == SlashCount(a[j..])
    {
      assert a[j + bs..][1..] == a[j + bs + 1..];
      bs := bs + 1;
    }
  }

  lemma Regroup(a: string, b: string, c: string, d: string)
    ensures a + (b + (c + d)) == a + b + c + d
  {
  }

  /** One turn: a run of backslashes and the character after it. */
  method QuoteRun(a: string, j: nat, out0: string) returns (out: string, next: nat)
    requires j < |a|
    ensures j < next <= |a| && out + Escaped(a[next..]) == out0 + Escaped(a[j..])
  {
    hide *;
    var bs := CountSlashes(a, j);
    EscapedAt(a, j, bs);
    if j + bs == |a| {
      out, next := out0 + Slashes(bs * 2), |a|;
      EscapedNone(a[|a|..]);
    } else if a[j + bs] == '"' {
      Regroup(out0, Slashes(2 * bs + 1), "\"", Escaped(a[j + bs + 1..]));
      out, next := out0 + Slashes(bs * 2 + 1) + "\"", j + bs + 1;
    } else {
      Regroup(out0, Slashes(bs), [a[j + bs]], Escaped(a[j + bs + 1..]));
      out, next := out0 + Slashes(bs) + [a[j + bs]], j + bs + 1;
    }
  }

  method QuoteArgMsvcrt(a: string) returns (out: string)
    ensures out == Native(a)
  {
    hide *;
    NativeIs(a);
    if a != "" && !HasAny(a, " \t\n\U{0B}\"") { return a; }
    out := "\"";
    var j := 0;
    assert a[0..] == a;
    while j < |a|
      invariant j <= |a|
      invariant out + Escaped(a[j..]) == "\"" + Escaped(a)
    {
      out, j := QuoteRun(a, j, out);
    }
    EscapedNone(a[j..]);
    out := out + "\"";
  }

  lemma NativeIs(a: string)
    ensures Native(a) == if a != "" && !HasAny(a, " \t\n\U{0B}\"") then a else "\"" + Escaped(a) + "\""
  {
  }

  lemma EscapedNone(a: string)
    requires a == ""
    ensures Escaped(a) == ""
  {
  }

  method QuoteArgMsys(a: string) returns (out: string)
    ensures out == Msys(a)
  {
    hide *;
    MsysIs(a);
    if a != "" && !HasAny(a, " \t\n\U{0B}\"\\") { return a; }
    out := "\"";
    assert a[0..] == a;
    for i := 0 to |a|
      invariant out + MsysEscaped(a[i..]) == "\"" + MsysEscaped(a)
    {
      MsysEscapedAt(a, i);
      Regroup(out, if a[i] == '"' || a[i] == '\\' then "\\" else "", [a[i]], MsysEscaped(a[i + 1..]));
      if a[i] == '"' || a[i] == '\\' { out := out + "\\"; }
      out := out + [a[i]];
    }
    NothingEscaped(a[|a|..]);
    out := out + "\"";
  }

  lemma MsysIs(a: string)
    ensures Msys(a) == if a != "" && !HasAny(a, " \t\n\U{0B}\"\\") then a else "\"" + MsysEscaped(a) + "\""
  {
  }

  lemma MsysEscapedAt(a: string, i: nat)
    requires i < |a|
    ensures MsysEscaped(a[i..]) ==
            (if a[i] == '"' || a[i] == '\\' then "\\" else "") + ([a[i]] + MsysEscaped(a[i + 1..]))
  {
    assert a[i..][1..] == a[i + 1..];
  }

  lemma NothingEscaped(a: string)
    requires a == ""
    ensures MsysEscaped(a) == ""
  {
  }

  // ---- Which rule the child uses ----------------------------------------------------------------

  function Lower(c: char): (l: char)
  {
    if 'A' <= c <= 'Z' then c - 'A' + 'a' else c
  }

  /** Forward slashes and lower case, character by character. */
  function Normal(exe: string): (s: string)
    ensures |s| == |exe|
    ensures forall i | 0 <= i < |exe| :: s[i] == if exe[i] == '\\' then '/' else Lower(exe[i])
  {
    seq(|exe|, i requires 0 <= i < |exe| => if exe[i] == '\\' then '/' else Lower(exe[i]))
  }

  predicate Has(s: string, t: string)
  {
    T.Find(s, t, 0) != -1
  }

  /** What follows the last slash. */
  function BaseName(s: string): (base: string)
    ensures '/' !in base && |base| <= |s| && s[|s| - |base|..] == base
    ensures |base| < |s| ==> s[|s| - |base| - 1] == '/'
  {
    if s == "" || s[|s| - 1] == '/' then "" else BaseName(s[..|s| - 1]) + [s[|s| - 1]]
  }

  function DropExe(base: string): (r: string)
  {
    if |base| > 4 && base[|base| - 4..] == ".exe" then base[..|base| - 4] else base
  }

  predicate MsysName(s: string)
  {
    && !Has(s, "/windows/system32/")
    && (|| Has(s, "msys") || Has(s, "cygwin")
        || Has(s, "/git/usr/bin/") || Has(s, "/git/bin/") || Has(s, "/git/mingw64/bin/")
        || DropExe(BaseName(s)) in ["bash", "sh", "dash", "zsh"])
  }

  // ---- The same rule, said of the path itself --------------------------------------------------------

  /** `c` stands for `d`, a character of a lower-case path with forward slashes. */
  predicate Stands(c: char, d: char)
  {
    c == d || (c == '\\' && d == '/') || ('A' <= c <= 'Z' && d == c - 'A' + 'a')
  }

  predicate Spells(u: string, t: string)
  {
    |u| == |t| && forall k | 0 <= k < |u| :: Stands(u[k], t[k])
  }

  predicate SpelledAt(exe: string, t: string, p: nat)
  {
    p + |t| <= |exe| && Spells(exe[p..p + |t|], t)
  }

  ghost predicate Mentions(exe: string, t: string)
  {
    exists p: nat :: SpelledAt(exe, t, p)
  }

  /** The file name of the path is `name`, with or without `.exe`. */
  ghost predicate Names(exe: string, name: string)
  {
    exists p: nat ::
      && p <= |exe| && (p == 0 || exe[p - 1] == '/' || exe[p - 1] == '\\')
      && (Spells(exe[p..], name) || Spells(exe[p..], name + ".exe"))
  }

  /** The path is not in the system directory, and is in a directory of MSYS, Cygwin or Git or names
      one of four shells. */
  ghost predicate UsesMsys(exe: string)
  {
    && !Mentions(exe, "/windows/system32/")
    && (|| Mentions(exe, "msys") || Mentions(exe, "cygwin")
        || Mentions(exe, "/git/usr/bin/") || Mentions(exe, "/git/bin/") || Mentions(exe, "/git/mingw64/bin/")
        || Names(exe, "bash") || Names(exe, "sh") || Names(exe, "dash") || Names(exe, "zsh"))
  }

  /** A text `Normal` leaves alone. */
  predicate Lowered(t: string)
  {
    forall k | 0 <= k < |t| :: t[k] != '\\' && !('A' <= t[k] <= 'Z')
  }

  lemma SpellsNormal(u: string, t: string)
    requires Lowered(t)
    ensures Spells(u, t) <==> Normal(u) == t
  {
    if Spells(u, t) {
      assert forall k | 0 <= k < |u| :: Stands(u[k], t[k]) && Normal(u)[k] == t[k];
    }
  }

  lemma NormalPart(exe: string, i: nat, j: nat)
    requires i <= j <= |exe|
    ensures Normal(exe[i..j]) == Normal(exe)[i..j]
  {
  }

  lemma MentionsIs(exe: string, t: string)
    requires Lowered(t)
    ensures Mentions(exe, t) <==> Has(Normal(exe), t)
  {
    hide Spells, Normal, Lowered;
    var s := Normal(exe);
    assert |s| == |exe|;
    forall p: nat ensures SpelledAt(exe, t, p) <==> T.OccursAt(s, t, p) {
      if p + |t| <= |exe| {
        SpellsNormal(exe[p..p + |t|], t);
        NormalPart(exe, p, p + |t|);
      }
    }
    var p := T.Find(s, t, 0);
    assert p != -1 ==> T.OccursAt(s, t, p);
  }

  /** The file name is the only part after a slash, or from the start, without a slash. */
  lemma {:induction false} BaseUnique(s: string, p: nat)
    requires p <= |s| && '/' !in s[p..] && (p == 0 || s[p - 1] == '/')
    ensures BaseName(s) == s[p..]
    decreases |s|
  {
    if p < |s| {
      var init := s[..|s| - 1];
      assert s[p..] == init[p..] + [s[|s| - 1]];
      BaseUnique(init, p);
    }
  }

  lemma NamesIs(exe: string, name: string)
    requires Lowered(name) && '/' !in name && name != "" && DropExe(name) == name
    ensures Names(exe, name) <==> DropExe(BaseName(Normal(exe))) == name
  {
    hide *;
    var s := Normal(exe);
    var base := BaseName(s);
    var full := name + ".exe";
    DropExeIs(base, name);
    LoweredExe(name);
    PathEnd(exe);
    if Names(exe, name) {
      var p := NamedAt(exe, name);
      EndIs(exe, name, p);
      BaseUnique(s, p);
    }
    if base == name || base == full {
      var p := |exe| - |base|;
      EndIs(exe, name, p);
      NamedFrom(exe, name, p);
    }
  }

  lemma DropExeIs(base: string, name: string)
    requires name != "" && DropExe(name) == name
    ensures DropExe(base) == name <==> base == name || base == name + ".exe"
  {
    var full := name + ".exe";
    assert full[|full| - 4..] == ".exe" && full[..|full| - 4] == name;
  }

  lemma LoweredExe(name: string)
    requires Lowered(name) && '/' !in name
    ensures Lowered(name + ".exe") && '/' !in name + ".exe"
  {
    var full := name + ".exe";
    assert forall k | |name| <= k < |full| :: full[k] == ".exe"[k - |name|];
  }

  /** The file name in the normal form is where it is in the path. */
  lemma PathEnd(exe: string)
    ensures var p := |exe| - |BaseName(Normal(exe))|;
            && 0 <= p <= |exe| && Normal(exe)[p..] == BaseName(Normal(exe))
            && (p == 0 || exe[p - 1] == '/' || exe[p - 1] == '\\')
  {
    var s, p := Normal(exe), |exe| - |BaseName(Normal(exe))|;
    hide BaseName;
    assert p > 0 ==> s[p - 1] == '/' && s[p - 1] == (if exe[p - 1] == '\\' then '/' else Lower(exe[p - 1]));
  }

  lemma NamedAt(exe: string, name: string) returns (p: nat)
    requires Names(exe, name)
    ensures p <= |exe| && (p == 0 || exe[p - 1] == '/' || exe[p - 1] == '\\')
    ensures Spells(exe[p..], name) || Spells(exe[p..], name + ".exe")
    ensures p > 0 ==> Normal(exe)[p - 1] == '/'
    ensures |Normal(exe)| == |exe|
  {
    hide Spells;
    p :| && p <= |exe| && (p == 0 || exe[p - 1] == '/' || exe[p - 1] == '\\')
         && (Spells(exe[p..], name) || Spells(exe[p..], name + ".exe"));
  }

  lemma NamedFrom(exe: string, name: string, p: nat)
    requires p <= |exe| && (p == 0 || exe[p - 1] == '/' || exe[p - 1] == '\\')
    requires Spells(exe[p..], name) || Spells(exe[p..], name + ".exe")
    ensures Names(exe, name)
  {
  }

  lemma EndIs(exe: string, name: string, p: nat)
    requires p <= |exe| && Lowered(name) && Lowered(name + ".exe")
    ensures |Normal(exe)| == |exe|
    ensures Spells(exe[p..], name) <==> Normal(exe)[p..] == name
    ensures Spells(exe[p..], name + ".exe") <==> Normal(exe)[p..] == name + ".exe"
  {
    hide Spells, Lowered;
    SpellsNormal(exe[p..], name);
    SpellsNormal(exe[p..], name + ".exe");
    NormalPart(exe, p, |exe|);
    assert exe[p..|exe|] == exe[p..] && Normal(exe)[p..|exe|] == Normal(exe)[p..];
  }

  /** The tests on the normal form decide exactly that. */
  lemma RuleMeaning(exe: string)
    ensures MsysName(Normal(exe)) <==> UsesMsys(exe)
  {
    hide *;
    MentionsPart(exe, "/windows/system32/");
    MentionsPart(exe, "msys");
    MentionsPart(exe, "cygwin");
    MentionsPart(exe, "/git/usr/bin/");
    MentionsPart(exe, "/git/bin/");
    MentionsPart(exe, "/git/mingw64/bin/");
    NamesShell(exe, "bash");
    NamesShell(exe, "sh");
    NamesShell(exe, "dash");
    NamesShell(exe, "zsh");
    BothRules(exe);
  }

  /** Both forms of the rule, spelled out. */
  lemma BothRules(exe: string)
    ensures var s := Normal(exe);
            MsysName(s) <==>
            && !Has(s, "/windows/system32/")
            && (|| Has(s, "msys") || Has(s, "cygwin")
                || Has(s, "/git/usr/bin/") || Has(s, "/git/bin/") || Has(s, "/git/mingw64/bin/")
                || DropExe(BaseName(s)) == "bash" || DropExe(BaseName(s)) == "sh"
                || DropExe(BaseName(s)) == "dash" || DropExe(BaseName(s)) == "zsh")
    ensures UsesMsys(exe) <==>
            && !Mentions(exe, "/windows/system32/")
            && (|| Mentions(exe, "msys") || Mentions(exe, "cygwin")
                || Mentions(exe, "/git/usr/bin/") || Mentions(exe, "/git/bin/") || Mentions(exe, "/git/mingw64/bin/")
                || Names(exe, "bash") || Names(exe, "sh") || Names(exe, "dash") || Names(exe, "zsh"))
  {
    hide Normal, Mentions, Names, Has, BaseName, DropExe;
  }

  lemma MentionsPart(exe: string, t: string)
    requires t in ["/windows/system32/", "msys", "cygwin", "/git/usr/bin/", "/git/bin/", "/git/mingw64/bin/"]
    ensures Mentions(exe, t) <==> Has(Normal(exe), t)
  {
    assert Lowered(t);
    hide *;
    MentionsIs(exe, t);
  }

  lemma NamesShell(exe: string, name: string)
    requires name in ["bash", "sh", "dash", "zsh"]
    ensures Names(exe, name) <==> DropExe(BaseName(Normal(exe))) == name
  {
    assert Lowered(name) && '/' !in name && name != "" && DropExe(name) == name;
    hide *;
    NamesIs(exe, name);
  }

  /** Paths alike but for case and the direction of slashes get the same rule. */
  lemma SameRule(exe: string, other: string)
    requires |exe| == |other|
    requires forall k | 0 <= k < |exe| ::
               || Lower(exe[k]) == Lower(other[k])
               || (exe[k] in "/\\" && other[k] in "/\\")
    ensures UsesMsys(exe) <==> UsesMsys(other)
  {
    hide UsesMsys, MsysName;
    RuleMeaning(exe);
    RuleMeaning(other);
    assert Normal(exe) == Normal(other) by {
      assert forall k | 0 <= k < |exe| :: Normal(exe)[k] == Normal(other)[k];
    }
  }

  method Normalize(exe: string) returns (s: string)
    ensures s == Normal(exe)
  {
    s := "";
    for i := 0 to |exe|
      invariant s == Normal(exe)[..i]
    {
      s := s + [if exe[i] == '\\' then '/' else Lower(exe[i])];
    }
    assert Normal(exe)[..|exe|] == Normal(exe);
  }

  method IsMsysProgram(exe: string) returns (msys: bool)
    ensures msys <==> UsesMsys(exe)
    ensures msys == MsysName(Normal(exe))
  {
    hide Has, BaseName, Normal, UsesMsys;
    RuleMeaning(exe);
    var s := Normalize(exe);
    if Has(s, "/windows/system32/") { return false; }
    if Has(s, "msys") || Has(s, "cygwin") { return true; }
    if Has(s, "/git/usr/bin/") || Has(s, "/git/bin/") || Has(s, "/git/mingw64/bin/") { return true; }
    var base := BaseName(s);
    if |base| > 4 && base[|base| - 4..] == ".exe" { base := base[..|base| - 4]; }
    msys := base == "bash" || base == "sh" || base == "dash" || base == "zsh";
  }

  // ---- The command line -----------------------------------------------------------------------------

  function Quoted(msys: bool, a: string): (out: string)
  {
    if msys then Msys(a) else Native(a)
  }

  function Tail(msys: bool, args: seq<string>): (cmd: string)
  {
    if args == [] then "" else " " + (Quoted(msys, args[0]) + Tail(msys, args[1..]))
  }

  function CommandLine(argv: seq<string>): (cmd: string)
  {
    if argv == [] then "" else Native(argv[0]) + Tail(MsysName(Normal(argv[0])), argv[1..])
  }

  method BuildChildCmdline(argv: seq<string>) returns (cmd: string)
    ensures cmd == CommandLine(argv)
  {
    hide *;
    var msys := false;
    if argv != [] { msys := IsMsysProgram(argv[0]); }
    cmd := "";
    CommandStart(argv);
    for i := 0 to |argv|
      invariant i == 0 ==> cmd == ""
      invariant i > 0 ==> cmd + Tail(msys, argv[i..]) == CommandLine(argv)
    {
      if i > 0 {
        TailStep(msys, argv, i);
        Regroup(cmd, " ", Quoted(msys, argv[i]), Tail(msys, argv[i + 1..]));
        cmd := cmd + " ";
      }
      var q;
      if i == 0 {
        q := QuoteArgMsvcrt(argv[i]);
      } else {
        q := QuoteEither(msys, argv[i]);
      }
      cmd := cmd + q;
    }
    TailEnd(msys, argv);
  }

  method QuoteEither(msys: bool, a: string) returns (q: string)
    ensures q == Quoted(msys, a)
  {
    if msys { q := QuoteArgMsys(a); } else { q := QuoteArgMsvcrt(a); }
  }

  lemma CommandStart(argv: seq<string>)
    ensures argv == [] ==> CommandLine(argv) == ""
    ensures argv != [] ==>
              "" + Native(argv[0]) + Tail(MsysName(Normal(argv[0])), argv[1..]) == CommandLine(argv)
  {
  }

  lemma TailStep(msys: bool, argv: seq<string>, i: nat)
    requires i < |argv|
    ensures Tail(msys, argv[i..]) == " " + (Quoted(msys, argv[i]) + Tail(msys, argv[i + 1..]))
  {
    assert argv[i..][1..] == argv[i + 1..];
  }

  lemma TailEnd(msys: bool, argv: seq<string>)
    ensures Tail(msys, argv[|argv|..]) == ""
  {
  }
}
