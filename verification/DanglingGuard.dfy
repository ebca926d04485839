/** Pulling back dropped lines that first mention what a kept line refers to. */
module DanglingGuard {

  // ---- Entities ---------------------------------------------------------------------------------

  predicate Upper(c: char) { 'A' <= c <= 'Z' }

  predicate Lower(c: char) { 'a' <= c <= 'z' }

  predicate Scope(c: char) { c == '.' || c == ':' }

  predicate TokenChar(c: char)
  {
    Upper(c) || Lower(c) || '0' <= c <= '9' || c == '_' || Scope(c)
  }

  /** A token of at least two characters with an upper-case letter, or with a lower-case letter and
      an underscore or scope mark. */
  predicate IsEntity(t: string)
  {
    && |t| >= 2
    && ((exists c | c in t :: Upper(c))
        || ((exists c | c in t :: Lower(c)) && exists c | c in t :: c == '_' || Scope(c)))
  }

  method LooksLikeEntity(t: string) returns (yes: bool)
    ensures yes == IsEntity(t)
  {
    if |t| < 2 { return false; }
    var hasUpper, hasLower, hasUs, hasScope := false, false, false, false;
    for i := 0 to |t|
      invariant hasUpper == exists c | c in t[..i] :: Upper(c)
      invariant hasLower == exists c | c in t[..i] :: Lower(c)
      invariant hasUs == ('_' in t[..i])
      invariant hasScope == exists c | c in t[..i] :: Scope(c)
    {
      var c := t[i];
      assert t[..i + 1] == t[..i] + [c];
      if Upper(c) { hasUpper := true; }
      else if Lower(c) { hasLower := true; }
      else if c == '_' { hasUs := true; }
      else if Scope(c) { hasScope := true; }
    }
    assert t[..|t|] == t;
    if hasUpper && hasLower { return true; }
    if hasUpper && !hasLower && |t| >= 2 { return true; }
    if hasUs && hasLower { return true; }
    if hasScope && (hasLower || hasUpper) { return true; }
    return false;
  }

  /** `s[a..b]` is a run of token characters that cannot be made longer. */
  predicate Run(s: string, a: int, b: int)
  {
    && 0 <= a < b <= |s|
    && (forall k | a <= k < b :: TokenChar(s[k]))
    && (a == 0 || !TokenChar(s[a - 1])) && (b == |s| || !TokenChar(s[b]))
  }

  ghost predicate HasRun(line: string, limit: int, t: string)
  {
    exists a, b :: Run(line, a, b) && b < limit && line[a..b] == t
  }

  /** The entity tokens among the longest runs of a line that end before `limit`. */
  ghost predicate EntitiesBefore(ts: seq<string>, line: string, limit: int)
  {
    forall t :: t in ts <==> IsEntity(t) && HasRun(line, limit, t)
  }

  /** A line names an entity when one of its longest runs of token characters is it. */
  ghost predicate Names(line: string, t: string)
  {
    IsEntity(t) && HasRun(line, |line| + 1, t)
  }

  ghost predicate AreEntities(ts: seq<string>, line: string)
  {
    forall t :: t in ts <==> Names(line, t)
  }

  method EntityTokens(line: string) returns (out: seq<string>)
    ensures AreEntities(out, line)
  {
    hide IsEntity, HasRun, EntitiesBefore;
    out := [];
    var cur := "";
    NothingBefore(line);
    for i := 0 to |line|
      invariant |cur| <= i && cur == line[i - |cur|..i]
      invariant forall k | i - |cur| <= k < i :: TokenChar(line[k])
      invariant i - |cur| == 0 || !TokenChar(line[i - |cur| - 1])
      invariant EntitiesBefore(out, line, i)
    {
      var c := line[i];
      if TokenChar(c) {
        RunGoesOn(out, line, i);
        cur := cur + [c];
      } else {
        var yes := LooksLikeEntity(cur);
        RunEnds(out, line, i, |cur|);
        if yes { out := out + [cur]; }
        cur := "";
      }
    }
    var yes := LooksLikeEntity(cur);
    RunEnds(out, line, |line|, |cur|);
    if yes { out := out + [cur]; }
    TheEntities(out, line);
  }

  lemma NothingBefore(line: string)
    ensures EntitiesBefore([], line, 0)
  {
  }

  lemma TheEntities(ts: seq<string>, line: string)
    requires EntitiesBefore(ts, line, |line| + 1)
    ensures AreEntities(ts, line)
  {
  }

  lemma RunGoesOn(ts: seq<string>, line: string, i: nat)
    requires i < |line| && TokenChar(line[i]) && EntitiesBefore(ts, line, i)
    ensures EntitiesBefore(ts, line, i + 1)
  {
    forall t ensures HasRun(line, i, t) == HasRun(line, i + 1, t) {
      if HasRun(line, i + 1, t) {
        var a, b :| Run(line, a, b) && b < i + 1 && line[a..b] == t;
        assert b < i;
      }
    }
  }

  /** A run of `n` characters, if any, ends at `i`. */
  lemma RunEnds(ts: seq<string>, line: string, i: nat, n: nat)
    requires n <= i <= |line| && (i == |line| || !TokenChar(line[i])) && EntitiesBefore(ts, line, i)
    requires forall k | i - n <= k < i :: TokenChar(line[k])
    requires i - n == 0 || !TokenChar(line[i - n - 1])
    ensures EntitiesBefore(if IsEntity(line[i - n..i]) then ts + [line[i - n..i]] else ts, line, i + 1)
  {
    var cur := line[i - n..i];
    assert n > 0 ==> Run(line, i - n, i);
    forall t ensures HasRun(line, i + 1, t) <==> HasRun(line, i, t) || (n > 0 && t == cur) {
      if HasRun(line, i + 1, t) {
        var a, b :| Run(line, a, b) && b < i + 1 && line[a..b] == t;
        if b == i {
          assert a == i - n;
        }
      }
    }
  }

  // ---- Lines to pull back -----------------------------------------------------------------------------

  /** `d` is the first line that names `t`. */
  ghost predicate FirstMention(lines: seq<string>, t: string, d: nat)
  {
    d < |lines| && Names(lines[d], t) && forall j | 0 <= j < d :: !Names(lines[j], t)
  }

  ghost predicate UsedLater(lines: seq<string>, keep: seq<bool>, t: string, d: nat)
    requires |keep| == |lines|
  {
    exists i | d < i < |lines| :: keep[i] && Names(lines[i], t)
  }

  /** A dropped line that first names an entity some later kept line names. */
  ghost predicate Needed(lines: seq<string>, keep: seq<bool>, d: nat)
    requires |keep| == |lines|
  {
    d < |lines| && !keep[d] && exists t :: FirstMention(lines, t, d) && UsedLater(lines, keep, t, d)
  }

  datatype Mention = Mention(entity: string, line: nat)

  /** Entries are first mentions, by line. */
  ghost predicate Mentions(ms: seq<Mention>, lines: seq<string>)
  {
    && (forall k | 0 <= k < |ms| :: FirstMention(lines, ms[k].entity, ms[k].line))
    && (forall j, k | 0 <= j < k < |ms| :: ms[j].line <= ms[k].line)
  }

  ghost predicate Seen(seen: set<string>, ms: seq<Mention>)
  {
    forall t :: t in seen <==> exists k | 0 <= k < |ms| :: ms[k].entity == t
  }

  /** The entities named before line `i`, and the first `k` of its tokens. */
  ghost predicate SeenTo(seen: set<string>, lines: seq<string>, i: nat, some: seq<string>)
    requires i <= |lines|
  {
    forall t :: t in seen <==> t in some || exists j | 0 <= j < i :: Names(lines[j], t)
  }

  method AddMentions(ms: seq<Mention>, seen: set<string>, lines: seq<string>, i: nat, ts: seq<string>)
    returns (ms': seq<Mention>, seen': set<string>)
    requires i < |lines| && AreEntities(ts, lines[i])
    requires Mentions(ms, lines) && Seen(seen, ms) && SeenTo(seen, lines, i, [])
    requires forall k | 0 <= k < |ms| :: ms[k].line <= i
    ensures Mentions(ms', lines) && Seen(seen', ms') && SeenTo(seen', lines, i + 1, [])
    ensures forall k | 0 <= k < |ms'| :: ms'[k].line <= i
  {
    hide Names;
    ms', seen' := ms, seen;
    for k := 0 to |ts|
      invariant Mentions(ms', lines) && Seen(seen', ms') && SeenTo(seen', lines, i, ts[..k])
      invariant forall k | 0 <= k < |ms'| :: ms'[k].line <= i
    {
      assert ts[..k + 1] == ts[..k] + [ts[k]];
      if ts[k] !in seen' {
        assert ts[k] in ts;
        assert FirstMention(lines, ts[k], i);
        SeenMore(seen', ms', Mention(ts[k], i));
        ms' := ms' + [Mention(ts[k], i)];
        seen' := seen' + {ts[k]};
      }
    }
    assert ts[..|ts|] == ts;
  }

  lemma SeenMore(seen: set<string>, ms: seq<Mention>, m: Mention)
    requires Seen(seen, ms)
    ensures Seen(seen + {m.entity}, ms + [m])
  {
    var r := ms + [m];
    forall t ensures t in seen + {m.entity} <==> exists k | 0 <= k < |r| :: r[k].entity == t {
      if t in seen {
        var k :| 0 <= k < |ms| && ms[k].entity == t;
        assert r[k].entity == t;
      }
      assert r[|ms|].entity == m.entity;
    }
  }

  method NamedLater(lines: seq<string>, toks: seq<seq<string>>, keep: seq<bool>, t: string, d: nat) returns (yes: bool)
    requires |lines| == |toks| == |keep| && forall i | 0 <= i < |lines| :: AreEntities(toks[i], lines[i])
    ensures yes == UsedLater(lines, keep, t, d)
  {
    hide Names;
    yes := false;
    var i := d + 1;
    while i < |lines|
      invariant forall k | d < k < i && k < |lines| :: !(keep[k] && Names(lines[k], t))
      invariant !yes
    {
      if keep[i] {
        var k := 0;
        while k < |toks[i]|
          invariant k <= |toks[i]| && t !in toks[i][..k]
        {
          if toks[i][k] == t {
            assert t in toks[i];
            return true;
          }
          k := k + 1;
        }
        assert toks[i][..|toks[i]|] == toks[i];
      }
      i := i + 1;
    }
  }

  /** What has been pulled back after the first `k` mentions. */
  ghost predicate Pulled(pull: set<nat>, ms: seq<Mention>, lines: seq<string>, keep: seq<bool>, k: nat)
    requires |keep| == |lines| && k <= |ms|
  {
    && (forall p | p in pull :: Needed(lines, keep, p))
    && (forall p, j | p in pull && k <= j < |ms| :: p <= ms[j].line)
    && (forall j | 0 <= j < k && ms[j].line < |lines| && !keep[ms[j].line]
                   && UsedLater(lines, keep, ms[j].entity, ms[j].line) :: ms[j].line in pull)
  }

  /** The result for a mask of the right length: needed lines only, within the cap; all of them when
      the cap is not reached, and the earliest ones when it is. */
  ghost predicate Repairs(pull: set<nat>, lines: seq<string>, keep: seq<bool>, maxPullback: nat)
    requires |keep| == |lines|
  {
    && |pull| <= (if maxPullback > 1 then maxPullback else 1)
    && (forall p | p in pull :: Needed(lines, keep, p))
    && (|pull| < maxPullback ==> Complete(pull, lines, keep))
    && Earliest(pull, lines, keep)
  }

  ghost predicate Complete(pull: set<nat>, lines: seq<string>, keep: seq<bool>)
    requires |keep| == |lines|
  {
    forall d: nat | Needed(lines, keep, d) :: d in pull
  }

  ghost predicate Earliest(pull: set<nat>, lines: seq<string>, keep: seq<bool>)
    requires |keep| == |lines|
  {
    forall d: nat | Needed(lines, keep, d) && d !in pull :: forall p | p in pull :: p < d
  }

  method PullBack(ms: seq<Mention>, lines: seq<string>, toks: seq<seq<string>>, keep: seq<bool>, maxPullback: nat)
    returns (pull: set<nat>)
    requires |lines| == |toks| == |keep| && forall i | 0 <= i < |lines| :: AreEntities(toks[i], lines[i])
    requires Mentions(ms, lines)
    requires forall t, d | FirstMention(lines, t, d) :: exists k | 0 <= k < |ms| :: ms[k] == Mention(t, d)
    ensures Repairs(pull, lines, keep, maxPullback)
  {
    hide Names, UsedLater, FirstMention, Complete, Earliest;
    pull := {};
    var k := 0;
    var full := false;
    while k < |ms| && !full
      invariant k <= |ms| && Pulled(pull, ms, lines, keep, k)
      invariant |pull| <= if maxPullback > 1 then maxPullback else 1
      invariant !full ==> pull == {} || |pull| < maxPullback
      invariant full ==> |pull| >= maxPullback
      decreases |ms| - k, !full
    {
      var m := ms[k];
      MentionLine(ms, lines, k);
      if !keep[m.line] {
        var used := NamedLater(lines, toks, keep, m.entity, m.line);
        PullNext(pull, ms, lines, keep, k, used);
        if used {
          pull := pull + {m.line};
        }
        full := |pull| >= maxPullback;
      }
      k := k + 1;
    }
    PulledRepairs(pull, ms, lines, keep, k);
  }

  lemma MentionLine(ms: seq<Mention>, lines: seq<string>, k: nat)
    requires Mentions(ms, lines) && k < |ms|
    ensures ms[k].line < |lines| && FirstMention(lines, ms[k].entity, ms[k].line)
  {
  }

  lemma PullNext(pull: set<nat>, ms: seq<Mention>, lines: seq<string>, keep: seq<bool>, k: nat, used: bool)
    requires |keep| == |lines| && k < |ms| && Mentions(ms, lines) && Pulled(pull, ms, lines, keep, k)
    requires ms[k].line < |lines| && !keep[ms[k].line]
    requires used == UsedLater(lines, keep, ms[k].entity, ms[k].line)
    ensures Pulled(if used then pull + {ms[k].line} else pull, ms, lines, keep, k + 1)
  {
    hide UsedLater, FirstMention;
    MentionLine(ms, lines, k);
    assert used ==> Needed(lines, keep, ms[k].line);
  }

  /** A needed line that was not pulled comes from a later mention. */
  lemma PulledRepairs(pull: set<nat>, ms: seq<Mention>, lines: seq<string>, keep: seq<bool>, k: nat)
    requires |keep| == |lines| && k <= |ms| && Mentions(ms, lines) && Pulled(pull, ms, lines, keep, k)
    requires forall t, d | FirstMention(lines, t, d) :: exists k | 0 <= k < |ms| :: ms[k] == Mention(t, d)
    ensures Earliest(pull, lines, keep) && (k == |ms| ==> Complete(pull, lines, keep))
  {
    hide UsedLater, FirstMention;
    forall d: nat | Needed(lines, keep, d) && d !in pull ensures k < |ms| && forall p | p in pull :: p < d {
      var t :| FirstMention(lines, t, d) && UsedLater(lines, keep, t, d);
      var j :| 0 <= j < |ms| && ms[j] == Mention(t, d);
      assert j >= k;
    }
  }

  /** The members of a set below `n`, in ascending order. */
  method InOrder(pull: set<nat>, n: nat) returns (r: seq<nat>)
    requires forall p | p in pull :: p < n
    ensures forall j, k | 0 <= j < k < |r| :: r[j] < r[k]
    ensures |r| == |pull| && forall p :: p in r <==> p in pull
  {
    r := [];
    for i := 0 to n
      invariant Listed(r, pull, i)
    {
      NextListed(r, pull, i);
      if i in pull {
        r := r + [i];
      }
    }
    assert (set p | p in pull && p < n) == pull;
  }

  /** `r` lists the members of `pull` below `i`, ascending. */
  ghost predicate Listed(r: seq<nat>, pull: set<nat>, i: nat)
  {
    var below := set p | p in pull && p < i;
    && |r| == |below|
    && (forall p :: p in r <==> p in below)
    && forall j, k | 0 <= j < k < |r| :: r[j] < r[k]
  }

  lemma NextListed(r: seq<nat>, pull: set<nat>, i: nat)
    requires Listed(r, pull, i)
    ensures Listed(if i in pull then r + [i] else r, pull, i + 1)
  {
    var below, next := set p | p in pull && p < i, set p | p in pull && p < i + 1;
    assert forall k | 0 <= k < |r| :: r[k] in r;
    assert next == if i in pull then below + {i} else below;
  }

  /** The dropped lines to pull back, ascending: none when the mask does not fit the lines. */
  method DanglingRepairLines(lines: seq<string>, keep: seq<bool>, maxPullback: nat) returns (r: seq<nat>)
    ensures |keep| != |lines| ==> r == []
    ensures forall j, k | 0 <= j < k < |r| :: r[j] < r[k]
    ensures |keep| == |lines| ==> exists pull: set<nat> ::
              && Repairs(pull, lines, keep, maxPullback) && |r| == |pull| && forall p :: p in r <==> p in pull
  {
    hide *;
    r := [];
    if |lines| == 0 || |keep| != |lines| {
      NoLines(lines, keep, maxPullback);
      return;
    }
    var toks: seq<seq<string>> := [];
    var seen: set<string> := {};
    var ms: seq<Mention> := [];
    NoMentions(lines);
    for i := 0 to |lines|
      invariant |toks| == i && forall k | 0 <= k < i :: AreEntities(toks[k], lines[k])
      invariant Mentions(ms, lines) && Seen(seen, ms) && SeenTo(seen, lines, i, [])
      invariant forall k | 0 <= k < |ms| :: ms[k].line <= i
    {
      var ts := EntityTokens(lines[i]);
      toks := toks + [ts];
      ms, seen := AddMentions(ms, seen, lines, i, ts);
    }
    AllMentioned(ms, seen, lines);
    var pull := PullBack(ms, lines, toks, keep, maxPullback);
    PullBelow(pull, lines, keep, maxPullback);
    r := InOrder(pull, |lines|);
  }

  lemma NoLines(lines: seq<string>, keep: seq<bool>, maxPullback: nat)
    ensures |lines| == 0 && |keep| == |lines| ==> Repairs({}, lines, keep, maxPullback)
  {
  }

  lemma NoMentions(lines: seq<string>)
    ensures Mentions([], lines) && Seen({}, []) && SeenTo({}, lines, 0, [])
  {
  }

  lemma AllMentioned(ms: seq<Mention>, seen: set<string>, lines: seq<string>)
    requires Mentions(ms, lines) && Seen(seen, ms) && SeenTo(seen, lines, |lines|, [])
    ensures forall t, d | FirstMention(lines, t, d) :: exists k | 0 <= k < |ms| :: ms[k] == Mention(t, d)
  {
    hide Names;
    forall t, d | FirstMention(lines, t, d) ensures exists k | 0 <= k < |ms| :: ms[k] == Mention(t, d) {
      assert t in seen;
      var k :| 0 <= k < |ms| && ms[k].entity == t;
      assert FirstMention(lines, ms[k].entity, ms[k].line);
      assert ms[k].line == d;
    }
  }

  lemma PullBelow(pull: set<nat>, lines: seq<string>, keep: seq<bool>, maxPullback: nat)
    requires |keep| == |lines| && Repairs(pull, lines, keep, maxPullback)
    ensures forall p | p in pull :: p < |lines|
  {
  }

  // ---- No dangling reference is left -------------------------------------------------------------------

  lemma {:induction false} SomeFirst(lines: seq<string>, t: string, i: nat) returns (d: nat)
    requires i < |lines| && Names(lines[i], t)
    ensures d <= i && FirstMention(lines, t, d)
  {
    hide Names;
    if j: nat :| j < i && Names(lines[j], t) {
      d := SomeFirst(lines, t, j);
    } else {
      d := i;
    }
  }

  /** When fewer lines come back than the cap allows, every entity on a kept line has its first
      mention kept or pulled back. */
  lemma NoDangling(pull: set<nat>, lines: seq<string>, keep: seq<bool>, maxPullback: nat, t: string, i: nat)
    requires |keep| == |lines| && Repairs(pull, lines, keep, maxPullback) && |pull| < maxPullback
    requires i < |lines| && keep[i] && Names(lines[i], t)
    ensures exists d: nat :: d <= i && FirstMention(lines, t, d) && (keep[d] || d in pull)
  {
    hide Names;
    var d := SomeFirst(lines, t, i);
    if !keep[d] {
      assert UsedLater(lines, keep, t, d);
      assert Needed(lines, keep, d);
    }
  }

  /** A needed line is exactly a dropped first mention that some kept line depends on: pulling it back
      never brings in a line no kept line refers to. */
  lemma NeededMeaning(lines: seq<string>, keep: seq<bool>, d: nat)
    requires |keep| == |lines|
    ensures Needed(lines, keep, d) <==>
            d < |lines| && !keep[d] &&
            exists t, i | 0 <= i < |lines| :: keep[i] && Names(lines[i], t) && FirstMention(lines, t, d)
  {
    hide Names;
    if d < |lines| && !keep[d] {
      forall t, i | 0 <= i < |lines| && keep[i] && Names(lines[i], t) && FirstMention(lines, t, d)
        ensures UsedLater(lines, keep, t, d)
      {
      }
    }
  }

  // ---- Which tokens are entities ------------------------------------------------------------------------

  /** A token is no entity exactly when it is shorter than two characters, or has no capital letter and
      either no small letter or no underscore, dot or colon. */
  lemma EntityMeaning(t: string)
    ensures !IsEntity(t) <==>
            || |t| < 2
            || ((forall i | 0 <= i < |t| :: !(65 <= t[i] as int <= 90))
                && ((forall i | 0 <= i < |t| :: !(97 <= t[i] as int <= 122))
                    || forall i | 0 <= i < |t| :: t[i] != '_' && t[i] != '.' && t[i] != ':'))
  {
    if c :| c in t && Upper(c) {
      var i :| 0 <= i < |t| && t[i] == c;
      assert 65 <= t[i] as int <= 90;
    }
    if c :| c in t && Lower(c) {
      var i :| 0 <= i < |t| && t[i] == c;
      assert 97 <= t[i] as int <= 122;
    }
    if c :| c in t && (c == '_' || Scope(c)) {
      var i :| 0 <= i < |t| && t[i] == c;
      assert t[i] == '_' || t[i] == '.' || t[i] == ':';
    }
    forall i | 0 <= i < |t|
      ensures t[i] in t && (65 <= t[i] as int <= 90 <==> Upper(t[i])) && (97 <= t[i] as int <= 122 <==> Lower(t[i]))
    {
    }
  }
}
