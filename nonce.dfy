/**
 * Widening of the caller's 64-bit packet counter into the 96-bit nonce of
 * the ChaCha20-Poly1305 AEAD (section 2.8 of RFC 8439): four zero bytes,
 * then the counter as eight little-endian bytes.
 */
module Nonce {

  const U64_LIMIT: int := 0x1_0000_0000_0000_0000

  /** Rust's `u8`. */
  type u8 = x: int | 0 <= x < 256

  /** Rust's `u64`. */
  type u64 = x: int | 0 <= x < U64_LIMIT

  /** Length of the nonce handed to the cipher. */
  const CIPHER_NONCE_SIZE: nat := 12

  /** Number of leading zero bytes (the constant part) of the cipher nonce. */
  const NONCE_PREFIX_SIZE: nat := 4

  /** 256 to the power k. */
  function Pow256(k: nat): (r: int)
    ensures r > 0
  {
    if k == 0 then 1 else 256 * Pow256(k - 1)
  }

  lemma Pow256Eight()
    ensures Pow256(8) == U64_LIMIT
  {
    assert Pow256(2) == 0x1_0000;
    assert Pow256(4) == 0x1_0000_0000;
    assert Pow256(6) == 0x1_0000_0000_0000;
  }

  /** The low `width` bytes of `x`, least significant first. */
  function LeBytes(x: nat, width: nat): (r: seq<u8>)
    ensures |r| == width
  {
    if width == 0 then [] else [x % 256] + LeBytes(x / 256, width - 1)
  }

  /** The number whose little-endian encoding is `s`. */
  function LeValue(s: seq<u8>): (v: nat)
    ensures v < Pow256(|s|)
  {
    if s == [] then 0 else s[0] + 256 * LeValue(s[1..])
  }

  /** Decoding an encoding gives back the number, when it fits in the width. */
  lemma {:induction false} LeValueOfLeBytes(x: nat, width: nat)
    requires x < Pow256(width)
    ensures LeValue(LeBytes(x, width)) == x
  {
    if width > 0 {
      var r := LeBytes(x, width);
      assert r[0] == x % 256;
      assert r[1..] == LeBytes(x / 256, width - 1);
      DivBelow(x, Pow256(width - 1));
      LeValueOfLeBytes(x / 256, width - 1);
      assert LeValue(r) == x % 256 + 256 * (x / 256);
    }
  }

  /** Encoding a decoded byte string gives back the bytes. */
  lemma {:induction false} LeBytesOfLeValue(s: seq<u8>)
    ensures LeBytes(LeValue(s), |s|) == s
  {
    if s != [] {
      var v := LeValue(s);
      DivUnique(v, 256, LeValue(s[1..]), s[0]);
      assert v % 256 == s[0];
      LeBytesOfLeValue(s[1..]);
      assert LeBytes(v, |s|) == [v % 256] + LeBytes(v / 256, |s| - 1);
    }
  }

  lemma DivBelow(x: nat, c: nat)
    requires x < 256 * c
    ensures x / 256 < c
  {
  }

  lemma DivDiv(x: nat, c: nat)
    requires c > 0
    ensures x / 256 / c == x / (256 * c)
  {
    var q, r := x / 256, x % 256;
    var q2, r2 := q / c, q % c;
    assert x == 256 * q + r;
    assert q == c * q2 + r2;
    assert 256 * q == (256 * c) * q2 + 256 * r2 by {
      assert 256 * (c * q2 + r2) == (256 * c) * q2 + 256 * r2;
    }
    assert r2 + 1 <= c;
    assert 256 * r2 + r < 256 * c by {
      assert 256 * (r2 + 1) <= 256 * c;
    }
    DivUnique(x, 256 * c, q2, 256 * r2 + r);
  }

  lemma MulLe(d: nat, a: nat, b: nat)
    requires a <= b
    ensures d * a <= d * b
  {
    var k := b - a;
    assert d * b == d * a + d * k;
  }

  lemma DivUnique(x: nat, d: nat, q: nat, r: nat)
    requires d > 0 && r < d && x == d * q + r
    ensures x / d == q
  {
    var q', r' := x / d, x % d;
    assert x == d * q' + r';
    if q' < q {
      MulLe(d, q' + 1, q);
    }
    if q < q' {
      MulLe(d, q + 1, q');
    }
  }

  /** Byte `i` of the encoding is digit `i` of `x` in base 256. */
  lemma {:induction false} LeBytesAt(x: nat, width: nat, i: nat)
    requires i < width
    ensures LeBytes(x, width)[i] == (x / Pow256(i)) % 256
  {
    if i > 0 {
      assert LeBytes(x, width)[i] == LeBytes(x / 256, width - 1)[i - 1];
      LeBytesAt(x / 256, width - 1, i - 1);
      DivDiv(x, Pow256(i - 1));
      assert Pow256(i) == 256 * Pow256(i - 1);
    }
  }

  /** The 12-byte cipher nonce derived from the packet counter. */
  function CipherNonce(n: u64): (r: seq<u8>)
    ensures |r| == CIPHER_NONCE_SIZE
  {
    [0, 0, 0, 0] + LeBytes(n, 8)
  }

  /** Layout of the cipher nonce: zero prefix, then the counter's bytes, low byte first. */
  lemma CipherNonceLayout(n: u64)
    ensures CipherNonce(n)[..NONCE_PREFIX_SIZE] == [0, 0, 0, 0]
    ensures forall i :: 0 <= i < 8 ==>
      CipherNonce(n)[NONCE_PREFIX_SIZE + i] == (n / Pow256(i)) % 256
  {
    var r := CipherNonce(n);
    forall i | 0 <= i < 8
      ensures r[NONCE_PREFIX_SIZE + i] == (n / Pow256(i)) % 256
    {
      assert r[NONCE_PREFIX_SIZE + i] == LeBytes(n, 8)[i];
      LeBytesAt(n, 8, i);
    }
  }

  /** Reading the counter back out of bytes 4..12 recovers it. */
  lemma CipherNonceDecodes(n: u64)
    ensures LeValue(CipherNonce(n)[NONCE_PREFIX_SIZE..]) == n
  {
    assert CipherNonce(n)[NONCE_PREFIX_SIZE..] == LeBytes(n, 8);
    Pow256Eight();
    LeValueOfLeBytes(n, 8);
  }

  /** Distinct counters give distinct cipher nonces. */
  lemma CipherNonceInjective(n: u64, m: u64)
    requires n != m
    ensures CipherNonce(n) != CipherNonce(m)
  {
    if CipherNonce(n) == CipherNonce(m) {
      CipherNonceDecodes(n);
      CipherNonceDecodes(m);
    }
  }

  /**
   * Fills a fresh zeroed 12-byte array and writes the counter into bytes
   * 4..12 one byte at a time, low byte first, as the little-endian cursor
   * write does.
   */
  method DeriveNonce(nonce: u64) returns (finalNonce: array<u8>)
    ensures fresh(finalNonce)
    ensures finalNonce[..] == CipherNonce(nonce)
  {
    finalNonce := new u8[CIPHER_NONCE_SIZE](_ => 0);
    var rest: nat := nonce;
    ghost var written: seq<u8> := [];
    var i := 0;
    while i < 8
      invariant 0 <= i <= 8 && |written| == i
      invariant finalNonce[..] == [0, 0, 0, 0] + written + seq(8 - i, _ => 0)
      invariant written + LeBytes(rest, 8 - i) == LeBytes(nonce, 8)
    {
      assert LeBytes(rest, 8 - i) == [rest % 256] + LeBytes(rest / 256, 8 - i - 1);
      finalNonce[NONCE_PREFIX_SIZE + i] := rest % 256;
      written := written + [rest % 256];
      assert finalNonce[..] == [0, 0, 0, 0] + written + seq(8 - i - 1, _ => 0);
      rest := rest / 256;
      i := i + 1;
    }
  }
}
