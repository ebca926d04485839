/** The FNV-1a byte hash over 64-bit words, and why no step of it loses information. */
module Fnv {
  type byte = n: nat | n < 256
  type Bytes = seq<byte>

  const WORD := 0x1_0000_0000_0000_0000
  const PRIME := 1099511628211
  const BASIS := 14695981039346656037

  /** A 64-bit word. */
  type word = h: nat | h < 0x1_0000_0000_0000_0000

  function Pow2(n: nat): (p: nat)
    ensures p > 0
  {
    if n == 0 then 1 else 2 * Pow2(n - 1)
  }

  /** Exclusive-or of the low `n` bits, bit by bit. */
  function XorBits(a: nat, b: nat, n: nat): (r: nat)
    ensures r < Pow2(n)
  {
    if n == 0 then 0 else (a + b) % 2 + 2 * XorBits(a / 2, b / 2, n - 1)
  }

  /** Exclusive-or of a byte into a word changes the low eight bits only. */
  function Xor(h: word, c: byte): (r: word)
    ensures r / 256 == h / 256 && r % 256 == XorBits(h % 256, c, 8)
  {
    assert Pow2(8) == 256;
    h - h % 256 + XorBits(h % 256, c, 8)
  }

  /** Multiplication by the prime modulo 2^64. */
  function Times(h: word): (r: word)
  {
    (h * PRIME) % WORD
  }

  /** One step: mix in a byte, then multiply. */
  function Step(h: word, c: byte): (r: word)
  {
    Times(Xor(h, c))
  }

  function Hash(s: Bytes, h: word): (r: word)
  {
    if s == [] then h else Hash(s[1..], Step(h, s[0]))
  }

  method HashLoop(s: Bytes, init: word) returns (h: word)
    ensures h == Hash(s, init)
  {
    h := init;
    for i := 0 to |s|
      invariant Hash(s[i..], h) == Hash(s, init)
    {
      assert s[i..][1..] == s[i + 1..];
      h := Times(Xor(h, s[i]));
    }
  }

  // ---- No step loses information -------------------------------------------------------

  lemma {:induction false} XorSymmetric(a: nat, b: nat, n: nat)
    ensures XorBits(a, b, n) == XorBits(b, a, n)
  {
    if n > 0 {
      XorSymmetric(a / 2, b / 2, n - 1);
    }
  }

  lemma BitTwice(a: nat, b: nat, r: nat)
    ensures ((a + b) % 2 + 2 * r + b) % 2 == a % 2
    ensures ((a + b) % 2 + 2 * r) / 2 == r
  {
  }

  /** Exclusive-or with the same bits twice changes nothing. */
  lemma {:induction false} XorTwice(a: nat, b: nat, n: nat)
    requires a < Pow2(n)
    ensures XorBits(XorBits(a, b, n), b, n) == a
  {
    if n > 0 {
      var r := XorBits(a / 2, b / 2, n - 1);
      XorTwice(a / 2, b / 2, n - 1);
      BitTwice(a, b, r);
      var x := XorBits(a, b, n);
      assert x == (a + b) % 2 + 2 * r;
      assert XorBits(x, b, n) == (x + b) % 2 + 2 * XorBits(r, b / 2, n - 1);
    }
  }

  lemma XorInjective(g: word, h: word, b: byte, c: byte)
    ensures b == c && Xor(g, b) == Xor(h, c) ==> g == h
    ensures g == h && Xor(g, b) == Xor(h, c) ==> b == c
  {
    assert Pow2(8) == 256;
    XorTwice(g % 256, b, 8);
    XorTwice(h % 256, c, 8);
    XorTwice(b, g % 256, 8);
    XorTwice(c, h % 256, 8);
    XorSymmetric(b, g % 256, 8);
    XorSymmetric(c, h % 256, 8);
  }

  /** The prime is odd, so multiplying by it modulo 2^64 can be undone. */
  lemma TimesUndone(x: word)
    ensures (Times(x) * 14886173955864302971) % WORD == x
  {
    var q := (x * PRIME) / WORD;
    var n := Times(x) * 14886173955864302971;
    assert Times(x) == x * PRIME - q * WORD;
    assert n == x + WORD * (887285111055 * x - q * 14886173955864302971);
    RestIs(n, 887285111055 * x - q * 14886173955864302971, x);
  }

  lemma RestIs(n: int, m: int, x: word)
    requires n == x + WORD * m
    ensures n % WORD == x
  {
  }

  lemma StepInjective(g: word, h: word, b: byte, c: byte)
    ensures b == c && Step(g, b) == Step(h, c) ==> g == h
    ensures g == h && Step(g, b) == Step(h, c) ==> b == c
  {
    XorInjective(g, h, b, c);
    TimesUndone(Xor(g, b));
    TimesUndone(Xor(h, c));
  }

  /** For a fixed text the hash is injective in its starting word. */
  lemma {:induction false} HashInjective(s: Bytes, g: word, h: word)
    ensures Hash(s, g) == Hash(s, h) <==> g == h
  {
    if s != [] {
      StepInjective(g, h, s[0], s[0]);
      HashInjective(s[1..], Step(g, s[0]), Step(h, s[0]));
    }
  }

  lemma {:induction false} HashConcat(a: Bytes, b: Bytes, h: word)
    ensures Hash(a + b, h) == Hash(b, Hash(a, h))
  {
    if a == [] {
      assert a + b == b;
    } else {
      assert (a + b)[1..] == a[1..] + b;
      HashConcat(a[1..], b, Step(h, a[0]));
    }
  }

  /** Texts that differ in exactly one byte have different hashes. */
  lemma OneByteChanges(a: Bytes, b: byte, c: byte, z: Bytes, h: word)
    requires b != c
    ensures Hash(a + [b] + z, h) != Hash(a + [c] + z, h)
  {
    var g := Hash(a, h);
    HashConcat(a + [b], z, h);
    HashConcat(a, [b], h);
    HashConcat(a + [c], z, h);
    HashConcat(a, [c], h);
    HashOne(b, g);
    HashOne(c, g);
    StepInjective(g, g, b, c);
    HashInjective(z, Step(g, b), Step(g, c));
  }

  lemma HashOne(b: byte, h: word)
    ensures Hash([b], h) == Step(h, b)
  {
    assert [b][1..] == [];
  }

  // ---- What the hash is ------------------------------------------------------------------------

  /** Bit `k` of a number, the lowest being bit 0. */
  function Bit(n: nat, k: nat): (b: nat)
  {
    if k == 0 then n % 2 else Bit(n / 2, k - 1)
  }

  lemma HalfXor(a: nat, b: nat, n: nat)
    requires n > 0
    ensures XorBits(a, b, n) % 2 == (a + b) % 2 && XorBits(a, b, n) / 2 == XorBits(a / 2, b / 2, n - 1)
  {
    BitTwice(a, b, XorBits(a / 2, b / 2, n - 1));
  }

  /** Each bit of the exclusive-or is set exactly when one of the two is. */
  lemma {:induction false} XorBit(a: nat, b: nat, n: nat, k: nat)
    requires k < n
    ensures Bit(XorBits(a, b, n), k) == if Bit(a, k) != Bit(b, k) then 1 else 0
  {
    hide XorBits;
    HalfXor(a, b, n);
    if k > 0 {
      XorBit(a / 2, b / 2, n - 1, k - 1);
    }
  }

  /** The published 64-bit FNV-1a values of the empty text and of `a`. */
  lemma KnownValues()
    ensures Hash([], 0xcbf29ce484222325) == 0xcbf29ce484222325 && BASIS == 0xcbf29ce484222325
    ensures Hash([97], BASIS) == 0xaf63dc4c8601ec8c
  {
    assert [97][1..] == [];
    assert BASIS % 256 == 0x25;
    KnownXor();
  }

  lemma KnownXor()
    ensures XorBits(0x25, 97, 8) == 0x44
  {
    assert XorBits(0, 0, 1) == 0;
    assert XorBits(1, 1, 2) == 0;
    assert XorBits(0x25 / 32, 97 / 32, 3) == 2;
    assert XorBits(0x25 / 4, 97 / 4, 6) == 17;
  }
}
