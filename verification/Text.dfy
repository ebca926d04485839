/** Substring search and decimal numerals, as the C++ standard library gives them. */
module Text {

  /** `t` occurs in `s` at offset `p`. */
  predicate OccursAt(s: string, t: string, p: nat)
  {
    p + |t| <= |s| && s[p..p + |t|] == t
  }

  /** `s.find(t, from)`, with -1 for `npos`. */
  function Find(s: string, t: string, from: nat): (r: int)
    requires from <= |s|
    ensures r == -1 || (from <= r && r + |t| <= |s| && OccursAt(s, t, r))
    ensures r == -1 ==> forall q: nat | from <= q :: !OccursAt(s, t, q)
    ensures forall q: nat | from <= q < r :: !OccursAt(s, t, q)
    decreases |s| - from
  {
    if OccursAt(s, t, from) then from
    else if from == |s| then -1
    else Find(s, t, from + 1)
  }

  /** The search result is the only offset with these properties. */
  lemma FindUnique(s: string, t: string, from: nat, p: nat)
    requires from <= p && OccursAt(s, t, p)
    requires forall q: nat | from <= q < p :: !OccursAt(s, t, q)
    ensures from <= |s| && Find(s, t, from) == p
  {
  }

  /** An occurrence fixes the characters it covers. */
  lemma OccursChars(s: string, t: string, p: nat)
    ensures OccursAt(s, t, p) <==> p + |t| <= |s| && forall k | 0 <= k < |t| :: s[p + k] == t[k]
    ensures OccursAt(s, t, p) && |t| > 0 ==> s[p] == t[0]
    ensures OccursAt(s, t, p) && |t| > 1 ==> s[p + 1] == t[1]
  {
    if p + |t| <= |s| {
      var u := s[p..p + |t|];
      assert forall k | 0 <= k < |t| :: u[k] == s[p + k];
      assert u == t <==> forall k | 0 <= k < |t| :: u[k] == t[k];
      assert |t| > 0 ==> u[0] == s[p];
      assert |t| > 1 ==> u[1] == s[p + 1];
    }
  }

  /** Occurrences in the right part, and in the left part, of a concatenation. */
  lemma OccursInConcat(a: string, b: string, t: string, p: nat)
    ensures OccursAt(b, t, p) <==> OccursAt(a + b, t, |a| + p)
    ensures p + |t| <= |a| ==> (OccursAt(a, t, p) <==> OccursAt(a + b, t, p))
  {
    OccursChars(b, t, p);
    OccursChars(a + b, t, |a| + p);
    OccursChars(a, t, p);
    OccursChars(a + b, t, p);
  }

  predicate EndsWith(s: string, end: string)
  {
    |end| <= |s| && s[|s| - |end|..] == end
  }

  /** The texts of a list, one after the other. */
  function Concat(parts: seq<string>): (s: string)
  {
    if parts == [] then "" else parts[0] + Concat(parts[1..])
  }

  lemma {:induction false} ConcatAppend(a: seq<string>, b: seq<string>)
    ensures Concat(a + b) == Concat(a) + Concat(b)
  {
    if a == [] {
      assert a + b == b;
    } else {
      assert (a + b)[1..] == a[1..] + b;
      ConcatAppend(a[1..], b);
    }
  }

  predicate IsDigit(c: char)
  {
    '0' <= c <= '9'
  }

  predicate AllDigits(s: string)
  {
    forall i | 0 <= i < |s| :: IsDigit(s[i])
  }

  function DigitChar(d: nat): (c: char)
    requires d < 10
    ensures IsDigit(c) && DigitValue(c) == d
  {
    '0' + d as char
  }

  function DigitValue(c: char): (d: nat)
    requires IsDigit(c)
    ensures d < 10
  {
    c as int - '0' as int
  }

  /** `std::to_string` of a non-negative integer. */
  function ToString(n: nat): (s: string)
    ensures |s| > 0 && AllDigits(s)
    ensures s[0] == '0' ==> s == "0"
  {
    if n < 10 then [DigitChar(n)] else ToString(n / 10) + [DigitChar(n % 10)]
  }

  /** The number a digit string denotes. */
  function Value(s: string): (n: nat)
    requires AllDigits(s)
  {
    if s == [] then 0 else 10 * Value(s[..|s| - 1]) + DigitValue(s[|s| - 1])
  }

  lemma {:induction false} ValueToString(n: nat)
    ensures Value(ToString(n)) == n
  {
    if n >= 10 {
      ValueToString(n / 10);
      var s := ToString(n);
      assert s[..|s| - 1] == ToString(n / 10);
    } else {
      assert ToString(n)[..0] == [];
    }
  }

  /** The longest prefix of `s` made of digits. */
  function DigitPrefix(s: string): (p: string)
    ensures AllDigits(p) && p <= s
    ensures |p| < |s| ==> !IsDigit(s[|p|])
  {
    if s != [] && IsDigit(s[0]) then [s[0]] + DigitPrefix(s[1..]) else []
  }

  lemma {:induction false} DigitPrefixOf(d: string, rest: string)
    requires AllDigits(d)
    requires rest == [] || !IsDigit(rest[0])
    ensures DigitPrefix(d + rest) == d
  {
    if d == [] {
      assert d + rest == rest;
    } else {
      assert (d + rest)[1..] == d[1..] + rest;
      DigitPrefixOf(d[1..], rest);
    }
  }

  predicate IsSpace(c: char)
  {
    c == ' ' || ('\t' <= c && c <= '\r')
  }

  /** The number of leading white-space characters. */
  function SpaceCount(s: string): (k: nat)
    ensures k <= |s|
    ensures k < |s| ==> !IsSpace(s[k])
    ensures forall i | 0 <= i < k :: IsSpace(s[i])
  {
    if s != [] && IsSpace(s[0]) then 1 + SpaceCount(s[1..]) else 0
  }

  /** What `strtoll` reads: leading white space, an optional sign, then digits;
      nothing if there is no digit. Magnitudes are not bounded here. */
  datatype Scanned = NoNumber | Number(value: int)

  function ScanInt(s: string): (r: Scanned)
  {
    var t := s[SpaceCount(s)..];
    var signed := t != [] && (t[0] == '-' || t[0] == '+');
    var d := DigitPrefix(if signed then t[1..] else t);
    if d == [] then NoNumber
    else
      var v: int := Value(d);
      Number(if signed && t[0] == '-' then -v else v)
  }

  /** `std::to_string` of an integer. */
  function IntToString(n: int): (s: string)
    ensures |s| > 0 && (IsDigit(s[0]) || s[0] == '-')
    ensures forall i | 0 <= i < |s| :: IsDigit(s[i]) || s[i] == '-'
  {
    if n < 0 then "-" + ToString(-n) else ToString(n)
  }

  /** Reading a printed integer gives it back, whatever non-digit follows it. */
  lemma ScanPrinted(n: int, rest: string)
    requires rest == [] || !IsDigit(rest[0])
    ensures ScanInt(IntToString(n) + rest) == Number(n)
  {
    var d := ToString(if n < 0 then -n else n);
    DigitPrefixOf(d, rest);
    ValueToString(if n < 0 then -n else n);
    if n < 0 {
      ScanSigned(d, rest);
    } else {
      ScanUnsigned(d, rest);
    }
  }

  lemma NoSpace(s: string)
    requires s != [] && !IsSpace(s[0])
    ensures SpaceCount(s) == 0 && s[SpaceCount(s)..] == s
  {
  }

  lemma ScanUnsigned(d: string, rest: string)
    requires d != [] && AllDigits(d) && DigitPrefix(d + rest) == d
    ensures ScanInt(d + rest) == Number(Value(d))
  {
    assert IsDigit(d[0]) && (d + rest)[0] == d[0];
    hide Value, DigitPrefix, SpaceCount;
    NoSpace(d + rest);
  }

  lemma ScanSigned(d: string, rest: string)
    requires d != [] && AllDigits(d) && DigitPrefix(d + rest) == d
    ensures var v: int := Value(d); ScanInt("-" + d + rest) == Number(-v)
  {
    var s := "-" + d + rest;
    assert s[0] == '-' && s[1..] == d + rest;
    hide Value, DigitPrefix, SpaceCount;
    NoSpace(s);
  }

  // ---- Numbers of a fixed width -----------------------------------------------------------

  predicate Fits(n: int, bits: nat)
    requires bits == 32 || bits == 64
  {
    if bits == 32 then -0x8000_0000 <= n < 0x8000_0000
    else -0x8000_0000_0000_0000 <= n < 0x8000_0000_0000_0000
  }

  /** `stoi` and `stoll`, with no number for a text out of range. */
  function Scan(s: string, bits: nat): (r: Scanned)
    requires bits == 32 || bits == 64
  {
    var r := ScanInt(s);
    if r.Number? && !Fits(r.value, bits) then NoNumber else r
  }

  lemma ScanNumeral(s: string, bits: nat)
    requires s != "" && AllDigits(s) && (bits == 32 || bits == 64)
    ensures Scan(s, bits) == if Fits(Value(s), bits) then Number(Value(s)) else NoNumber
  {
    hide Value, ScanInt;
    assert s + "" == s;
    DigitPrefixOf(s, "");
    ScanUnsigned(s, "");
  }

  /** A printed integer reads back when it fits. */
  lemma ScanFits(n: int, bits: nat)
    requires bits == 32 || bits == 64
    ensures Scan(IntToString(n), bits) == if Fits(n, bits) then Number(n) else NoNumber
  {
    hide ScanInt, IntToString;
    ScanPrinted(n, "");
    assert IntToString(n) + "" == IntToString(n);
  }

  lemma {:induction false} SpacesSkipped(ws: string, rest: string)
    requires (forall c | c in ws :: IsSpace(c)) && (rest == "" || !IsSpace(rest[0]))
    ensures SpaceCount(ws + rest) == |ws|
  {
    if ws == "" {
      assert ws + rest == rest;
    } else {
      assert ws[0] in ws && (ws + rest)[1..] == ws[1..] + rest && forall c | c in ws[1..] :: c in ws;
      SpacesSkipped(ws[1..], rest);
    }
  }

  /** What is read of white space, a sign or none, digits, and text that goes on with no digit: the
      number the digits denote, with the sign; nothing if there are no digits. */
  lemma ScanForm(ws: string, sign: string, d: string, rest: string)
    requires (forall c | c in ws :: c == ' ' || ('\t' <= c && c <= '\r')) && sign in ["", "+", "-"] && AllDigits(d)
    requires rest == "" || (!IsDigit(rest[0]) && (d == "" && sign == "" ==> rest[0] !in " \t\n\U{0B}\U{0C}\r+-"))
    ensures var v: int := Value(d);
            ScanInt(ws + (sign + (d + rest))) ==
            if d == "" then NoNumber else Number(if sign == "-" then 0 - v else v)
  {
    hide *;
    var s, t := ws + (sign + (d + rest)), sign + (d + rest);
    SpaceMarks();
    SpaceIs();
    if sign == "" {
      assert t == d + rest;
      FirstPlain(d, rest);
    } else {
      assert t[0] == sign[0] && t[1..] == d + rest;
    }
    SpacesSkipped(ws, t);
    assert s[|ws|..] == t;
    DigitPrefixOf(d, rest);
    ScanCase(s, t, sign != "", d);
  }

  lemma SpaceIs()
    ensures forall c :: IsSpace(c) <==> c == ' ' || ('\t' <= c && c <= '\r')
    ensures !IsSpace('+') && !IsSpace('-') && forall c | IsDigit(c) :: !IsSpace(c) && c != '+' && c != '-'
  {
  }

  lemma FirstPlain(d: string, rest: string)
    requires AllDigits(d)
    requires rest == "" || (!IsDigit(rest[0]) && (d == "" ==> rest[0] !in " \t\n\U{0B}\U{0C}\r+-"))
    ensures var t := d + rest; t == "" || (!IsSpace(t[0]) && t[0] != '+' && t[0] != '-')
  {
    SpaceMarks();
    assert d != "" ==> (d + rest)[0] == d[0];
    assert d == "" ==> d + rest == rest;
  }

  lemma ScanCase(s: string, t: string, signed: bool, d: string)
    requires SpaceCount(s) <= |s| && s[SpaceCount(s)..] == t && AllDigits(d)
    requires signed == (t != "" && (t[0] == '-' || t[0] == '+'))
    requires DigitPrefix(if signed then t[1..] else t) == d
    ensures var v: int := Value(d);
            ScanInt(s) == if d == "" then NoNumber else Number(if signed && t[0] == '-' then 0 - v else v)
  {
    hide Value, DigitPrefix, SpaceCount;
  }

  lemma SpaceMarks()
    ensures forall c | IsSpace(c) :: c in " \t\n\U{0B}\U{0C}\r+-"
    ensures '+' in " \t\n\U{0B}\U{0C}\r+-" && '-' in " \t\n\U{0B}\U{0C}\r+-"
    ensures forall sign | sign in ["", "+", "-"] :: sign == "" || (|sign| == 1 && (sign[0] == '+' || sign[0] == '-'))
  {
    var s := " \t\n\U{0B}\U{0C}\r+-";
    assert s[0] == ' ' && s[1] == '\t' && s[2] == '\n' && s[3] == '\U{0B}' && s[4] == '\U{0C}' && s[5] == '\r';
    assert s[6] == '+' && s[7] == '-';
    forall c | IsSpace(c) ensures c in s {
      assert c == ' ' || c == '\t' || c == '\n' || c == '\U{0B}' || c == '\U{0C}' || c == '\r';
    }
  }

  /** Digits and white space by character code. */
  lemma ClassesByCode(c: char)
    ensures IsDigit(c) <==> 48 <= c as int <= 57
    ensures IsSpace(c) <==> c as int == 32 || 9 <= c as int <= 13
  {
  }
}
