/** Byte strings: slices at a position, big-endian integers and exclusive or. */
module Bytes {
  type byte = b: int | 0 <= b < 256

  const INT_MAX: nat := 0x7FFF_FFFF

  /** The value that a cast to a 32-bit integer leaves. */
  function ToInt(n: int): int {
    (n + 0x8000_0000) % 0x1_0000_0000 - 0x8000_0000
  }

  function Min(a: nat, b: nat): nat {
    if a < b then a else b
  }

  /** The byte at `i`; past the end of a string, where a reader sees its terminator, NUL. */
  function ByteAt(s: seq<byte>, i: nat): byte {
    if i < |s| then s[i] else 0
  }

  function Zeros(n: nat): (s: seq<byte>)
    ensures |s| == n
  {
    seq(n, _ => 0)
  }

  /** The text `t` stands in `s` at position `i`. */
  predicate At(s: seq<byte>, i: nat, t: seq<byte>) {
    i + |t| <= |s| && s[i..i + |t|] == t
  }

  lemma AtConcat(s: seq<byte>, i: nat, a: seq<byte>, b: seq<byte>)
    ensures At(s, i, a + b) <==> At(s, i, a) && At(s, i + |a|, b)
  {
    if i + |a| + |b| <= |s| {
      var t := s[i..i + |a| + |b|];
      assert t == s[i..i + |a|] + s[i + |a|..i + |a| + |b|];
      assert t[..|a|] == s[i..i + |a|] && t[|a|..] == s[i + |a|..i + |a| + |b|];
      assert (a + b)[..|a|] == a && (a + b)[|a|..] == b;
    }
  }

  lemma AtIndex(s: seq<byte>, i: nat, t: seq<byte>, k: nat)
    requires At(s, i, t) && k < |t|
    ensures i + |t| <= |s| && s[i + k] == t[k]
  {
    assert s[i..i + |t|][k] == t[k];
  }

  /** 256 to the power `w`. */
  function Pow256(w: nat): (p: nat)
    ensures p > 0
  {
    if w == 0 then 1 else 256 * Pow256(w - 1)
  }

  lemma WordSizes()
    ensures Pow256(1) == 0x100 && Pow256(2) == 0x1_0000 && Pow256(4) == 0x1_0000_0000
    ensures Pow256(8) == 0x1_0000_0000_0000_0000
    ensures Pow256(16) == 0x1_0000_0000_0000_0000_0000_0000_0000_0000
  {
    assert Pow256(3) == 256 * Pow256(2);
    assert Pow256(5) == 256 * Pow256(4);
    assert Pow256(7) == 256 * Pow256(6);
    assert Pow256(9) == 256 * Pow256(8);
    assert Pow256(11) == 256 * Pow256(10);
    assert Pow256(13) == 256 * Pow256(12);
    assert Pow256(15) == 256 * Pow256(14);
  }

  /** `n` modulo 256^w as `w` bytes, most significant first. */
  function BigEndian(n: nat, w: nat): (s: seq<byte>)
    ensures |s| == w
  {
    if w == 0 then [] else BigEndian(n / 256, w - 1) + [n % 256]
  }

  function FromBigEndian(s: seq<byte>): (n: nat)
    ensures n < Pow256(|s|)
  {
    if s == [] then 0 else 256 * FromBigEndian(s[..|s| - 1]) + s[|s| - 1]
  }

  lemma {:induction false} BigEndianRoundTrip(n: nat, w: nat)
    requires n < Pow256(w)
    ensures FromBigEndian(BigEndian(n, w)) == n
  {
    if w == 0 {
    } else {
      BigEndianRoundTrip(n / 256, w - 1);
      assert BigEndian(n, w)[..w - 1] == BigEndian(n / 256, w - 1);
    }
  }

  lemma {:induction false} BigEndianOfBytes(s: seq<byte>)
    ensures BigEndian(FromBigEndian(s), |s|) == s
  {
    if s == [] {
    } else {
      BigEndianOfBytes(s[..|s| - 1]);
    }
  }

  lemma MulAtLeast(d: int, p: nat)
    ensures d >= 1 ==> d * p >= p
    ensures d <= -1 ==> d * p + p <= 0
  {
    assert d * p == p + (d - 1) * p == (d + 1) * p - p;
  }

  lemma ModuloUnique(n: nat, p: nat, q: nat, r: nat)
    requires p > 0 && r < p && n == q * p + r
    ensures n % p == r && n / p == q
  {
    var d := q - n / p;
    assert d * p == n % p - r by {
      assert (n / p) * p + n % p == n;
      assert d * p == q * p - (n / p) * p;
    }
    MulAtLeast(d, p);
  }

  lemma SplitModulo(n: nat, p: nat)
    requires p > 0
    ensures (n % (256 * p)) / 256 == (n / 256) % p
    ensures (n % (256 * p)) % 256 == n % 256
  {
    var q := n / (256 * p);
    var r := n % (256 * p);
    assert n == 256 * (q * p + r / 256) + r % 256 by {
      assert n == q * (256 * p) + r;
      assert q * (256 * p) == 256 * (q * p);
    }
    assert n / 256 == q * p + r / 256 && n % 256 == r % 256;
    assert 0 <= r / 256 < p;
    ModuloUnique(n / 256, p, q, r / 256);
  }

  /** A word and its remainder modulo 256^w have the same low `w` bytes. */
  lemma {:induction false} BigEndianModulo(n: nat, w: nat)
    ensures BigEndian(n, w) == BigEndian(n % Pow256(w), w)
  {
    if w == 0 {
    } else {
      var p := Pow256(w - 1);
      BigEndianModulo(n / 256, w - 1);
      SplitModulo(n, p);
      var m := n % Pow256(w);
      assert m / 256 == (n / 256) % p && m % 256 == n % 256;
    }
  }

  function Pow2(w: nat): (p: nat)
    ensures p > 0
  {
    if w == 0 then 1 else 2 * Pow2(w - 1)
  }

  /** Exclusive or of the low `w` bits of two numbers, least significant bit last. */
  function XorBits(a: nat, b: nat, w: nat): (x: nat)
    ensures x < Pow2(w)
  {
    if w == 0 then 0 else 2 * XorBits(a / 2, b / 2, w - 1) + (if a % 2 == b % 2 then 0 else 1)
  }

  lemma {:induction false} XorBitsInvolution(a: nat, b: nat, w: nat)
    requires a < Pow2(w)
    ensures XorBits(XorBits(a, b, w), b, w) == a
  {
    if w == 0 {
    } else {
      var x := XorBits(a, b, w);
      assert x / 2 == XorBits(a / 2, b / 2, w - 1);
      XorBitsInvolution(a / 2, b / 2, w - 1);
    }
  }

  /** Exclusive or of two bytes. */
  function Xor(a: byte, b: byte): byte {
    assert Pow2(8) == 256 by { assert Pow2(4) == 16; }
    XorBits(a, b, 8)
  }

  lemma XorInvolution(a: byte, b: byte)
    ensures Xor(Xor(a, b), b) == a
  {
    assert Pow2(8) == 256 by { assert Pow2(4) == 16; }
    XorBitsInvolution(a, b, 8);
  }

  lemma {:induction false} XorBitsZero(a: nat, w: nat)
    requires a < Pow2(w)
    ensures XorBits(a, 0, w) == a
  {
    if w == 0 {
    } else {
      XorBitsZero(a / 2, w - 1);
    }
  }

  lemma XorZero(a: byte)
    ensures Xor(a, 0) == a
  {
    assert Pow2(8) == 256 by { assert Pow2(4) == 16; }
    XorBitsZero(a, 8);
  }

  /** Bit `k` of a number. */
  function Bit(n: nat, k: nat): nat {
    n / Pow2(k) % 2
  }

  lemma HalfTwice(n: nat, p: nat)
    requires p > 0
    ensures n / (2 * p) == n / 2 / p
  {
    var q, r := n / 2 / p, n / 2 % p;
    assert n / 2 == q * p + r;
    assert n == q * (2 * p) + (2 * r + n % 2) by {
      assert q * (2 * p) == 2 * (q * p);
    }
    ModuloUnique(n, 2 * p, q, 2 * r + n % 2);
  }

  lemma BitOfHalf(n: nat, k: nat)
    ensures Bit(n, k) == if k == 0 then n % 2 else Bit(n / 2, k - 1)
  {
    if k > 0 {
      HalfTwice(n, Pow2(k - 1));
    }
  }

  lemma XorBitsParts(a: nat, b: nat, w: nat)
    requires w > 0
    ensures XorBits(a, b, w) / 2 == XorBits(a / 2, b / 2, w - 1)
    ensures XorBits(a, b, w) % 2 == (a % 2 + b % 2) % 2
  {
  }

  lemma {:induction false} XorBitsAt(a: nat, b: nat, w: nat, k: nat)
    requires k < w
    ensures Bit(XorBits(a, b, w), k) == (Bit(a, k) + Bit(b, k)) % 2
  {
    hide *;
    XorBitsParts(a, b, w);
    BitOfHalf(a, k);
    BitOfHalf(b, k);
    BitOfHalf(XorBits(a, b, w), k);
    if k == 0 {
    } else {
      XorBitsAt(a / 2, b / 2, w - 1, k - 1);
    }
  }

  /** A bit of the exclusive or is set exactly if it is set in one of the two bytes. */
  lemma XorAt(a: byte, b: byte, k: nat)
    requires k < 8
    ensures Bit(Xor(a, b), k) == (Bit(a, k) + Bit(b, k)) % 2
  {
    assert Pow2(8) == 256 by { assert Pow2(4) == 16; }
    XorBitsAt(a, b, 8, k);
  }

  lemma {:induction false} XorBitsCommute(a: nat, b: nat, w: nat)
    ensures XorBits(a, b, w) == XorBits(b, a, w)
  {
    if w == 0 {
    } else {
      XorBitsCommute(a / 2, b / 2, w - 1);
    }
  }

  /** Different bytes combined with the same one stay different. */
  lemma XorInjective(a: byte, b: byte, c: byte)
    ensures Xor(a, b) == Xor(a, c) <==> b == c
  {
    XorBitsCommute(a, b, 8);
    XorBitsCommute(a, c, 8);
    XorInvolution(b, a);
    XorInvolution(c, a);
  }

  lemma ShiftedTwice(n: nat, p: nat)
    requires p > 0
    ensures n / (256 * p) == n / 256 / p
  {
    var q, r := n / 256 / p, n / 256 % p;
    assert n == q * (256 * p) + (256 * r + n % 256) by {
      assert n / 256 == q * p + r;
      assert q * (256 * p) == 256 * (q * p);
    }
    ModuloUnique(n, 256 * p, q, 256 * r + n % 256);
  }

  /** The bytes of a number are its digits to the base 256, the lowest one last. */
  lemma {:induction false} BigEndianAt(n: nat, w: nat, k: nat)
    requires k < w
    ensures BigEndian(n, w)[k] == n / Pow256(w - 1 - k) % 256
  {
    if k == w - 1 {
    } else {
      BigEndianAt(n / 256, w - 1, k);
      ShiftedTwice(n, Pow256(w - 2 - k));
    }
  }

  lemma Regroup(a: seq<byte>, b: seq<byte>, c: seq<byte>)
    ensures a + (b + c) == a + b + c
  {
  }
}
