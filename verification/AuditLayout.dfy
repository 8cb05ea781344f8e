/** The bytes that are signed and hashed for an audit entry, and when they determine it. */
module AuditLayout {
  import opened Bytes
  import opened Scaling
  type int64 = n: int | -0x8000_0000_0000_0000 <= n < 0x8000_0000_0000_0000

  /** What an entry records. The time is in nanoseconds. */
  datatype Content = Content(
    tenantID: seq<byte>, gameID: seq<byte>, roundID: seq<byte>, requestID: seq<byte>,
    values: seq<int64>, valueCount: int, minValue: int64, maxValue: int64,
    createdAt: int64, reseedEvent: bool)

  /* ---- The layout ---- */

  function ToUint64(n: int64): u64 {
    if n >= 0 then n else n + W64
  }

  function Word(n: int64): (s: seq<byte>)
    ensures |s| == 8
  {
    BigEndian(ToUint64(n), 8)
  }

  /** A length is written modulo 2^32. */
  function LenPrefixed(data: seq<byte>): seq<byte> {
    BigEndian(|data|, 4) + data
  }

  function ValueBytes(values: seq<int64>): (s: seq<byte>)
    ensures |s| == 8 * |values|
  {
    if values == [] then [] else ValueBytes(values[..|values| - 1]) + Word(values[|values| - 1])
  }

  function CountedValues(values: seq<int64>): seq<byte> {
    BigEndian(|values|, 4) + ValueBytes(values)
  }

  /** What is signed. */
  function SignData(c: Content): seq<byte> {
    LenPrefixed(c.tenantID) + (LenPrefixed(c.roundID) + (Word(c.createdAt) + CountedValues(c.values)))
  }

  /** What is hashed: the previous hash, the content and the signature. */
  function HashData(prev: seq<byte>, c: Content, sig: seq<byte>): seq<byte> {
    prev + (Word(c.createdAt)
      + (LenPrefixed(c.tenantID) + (LenPrefixed(c.roundID) + (CountedValues(c.values) + sig))))
  }

  /* ---- Writing it ---- */

  method AppendLenPrefixed(buf: seq<byte>, data: seq<byte>) returns (r: seq<byte>)
    ensures r == buf + LenPrefixed(data)
  {
    r := buf + BigEndian(|data|, 4);
    r := r + data;
  }

  method AppendValues(buf: seq<byte>, values: seq<int64>) returns (r: seq<byte>)
    ensures r == buf + ValueBytes(values)
  {
    r := buf;
    for i := 0 to |values|
      invariant r == buf + ValueBytes(values[..i])
    {
      assert values[..i + 1][..i] == values[..i];
      r := r + Word(values[i]);
    }
    assert values[..|values|] == values;
  }

  method WriteSignData(c: Content) returns (buf: seq<byte>)
    ensures buf == SignData(c)
  {
    hide LenPrefixed, ValueBytes, Word;
    buf := AppendLenPrefixed([], c.tenantID);
    buf := AppendLenPrefixed(buf, c.roundID);
    buf := buf + Word(c.createdAt);
    buf := buf + BigEndian(|c.values|, 4);
    buf := AppendValues(buf, c.values);
  }

  /** Everything written to the hasher, in order. */
  method WriteHashData(prev: seq<byte>, c: Content, sig: seq<byte>) returns (h: seq<byte>)
    ensures h == HashData(prev, c, sig)
  {
    hide LenPrefixed, ValueBytes, Word;
    h := prev;
    h := h + Word(c.createdAt);
    var tenant := AppendLenPrefixed([], c.tenantID);
    h := h + tenant;
    var round := AppendLenPrefixed([], c.roundID);
    h := h + round;
    h := h + BigEndian(|c.values|, 4);
    h := AppendValues(h, c.values);
    h := h + sig;
  }

  /* ---- Where each part stands ---- */

  /** The `w` bytes of `d` at `i`, most significant first, are the number modulo `m`. */
  predicate Holds(d: seq<byte>, i: nat, w: nat, n: int, m: nat) {
    m > 0 && i + w <= |d| && FromBigEndian(d[i..i + w]) == n % m
  }

  lemma ReadsBack(n: nat, w: nat)
    ensures FromBigEndian(BigEndian(n, w)) == n % Pow256(w)
  {
    BigEndianModulo(n, w);
    BigEndianRoundTrip(n % Pow256(w), w);
  }

  lemma LengthHeld(n: nat, d: seq<byte>, i: nat)
    requires At(d, i, BigEndian(n, 4))
    ensures Holds(d, i, 4, n, 0x1_0000_0000)
  {
    WordSizes();
    hide Pow256, FromBigEndian, BigEndian;
    ReadsBack(n, 4);
  }

  lemma WordHeld(n: int64, d: seq<byte>, i: nat)
    requires At(d, i, Word(n))
    ensures Holds(d, i, 8, n, 0x1_0000_0000_0000_0000)
  {
    WordSizes();
    hide Pow256, FromBigEndian, BigEndian;
    ReadsBack(ToUint64(n), 8);
  }

  lemma UnfoldValueBytes(values: seq<int64>, k: nat)
    requires k < |values|
    ensures ValueBytes(values[..k + 1]) == ValueBytes(values[..k]) + Word(values[k])
  {
    assert values[..k + 1][..k] == values[..k];
  }

  lemma {:induction false} ValuesHeld(values: seq<int64>, k: nat, d: seq<byte>, i: nat)
    requires k <= |values| && At(d, i, ValueBytes(values[..k]))
    ensures forall j :: 0 <= j < k ==> Holds(d, i + 8 * j, 8, values[j], 0x1_0000_0000_0000_0000)
  {
    hide *;
    if k == 0 {
    } else {
      UnfoldValueBytes(values, k - 1);
      AtConcat(d, i, ValueBytes(values[..k - 1]), Word(values[k - 1]));
      ValuesHeld(values, k - 1, d, i);
      WordHeld(values[k - 1], d, i + 8 * (k - 1));
    }
  }

  lemma CountedHeld(values: seq<int64>, d: seq<byte>, i: nat)
    requires At(d, i, CountedValues(values))
    ensures Holds(d, i, 4, |values|, 0x1_0000_0000)
    ensures forall j :: 0 <= j < |values| ==> Holds(d, i + 4 + 8 * j, 8, values[j], 0x1_0000_0000_0000_0000)
  {
    AtConcat(d, i, BigEndian(|values|, 4), ValueBytes(values));
    hide *;
    assert values[..|values|] == values;
    LengthHeld(|values|, d, i);
    ValuesHeld(values, |values|, d, i + 4);
  }

  lemma TextHeld(t: seq<byte>, d: seq<byte>, i: nat)
    requires At(d, i, LenPrefixed(t))
    ensures Holds(d, i, 4, |t|, 0x1_0000_0000) && At(d, i + 4, t)
  {
    AtConcat(d, i, BigEndian(|t|, 4), t);
    hide *;
    LengthHeld(|t|, d, i);
  }

  /** What is signed, part by part: tenant and round behind their lengths, the time, and
      the values behind their count. */
  lemma SignDataLayout(c: Content)
    ensures
      var (d, r) := (SignData(c), 4 + |c.tenantID|);
      var w := r + 4 + |c.roundID|;
      && |d| == w + 12 + 8 * |c.values|
      && Holds(d, 0, 4, |c.tenantID|, 0x1_0000_0000) && At(d, 4, c.tenantID)
      && Holds(d, r, 4, |c.roundID|, 0x1_0000_0000) && At(d, r + 4, c.roundID)
      && Holds(d, w, 8, c.createdAt, 0x1_0000_0000_0000_0000)
      && Holds(d, w + 8, 4, |c.values|, 0x1_0000_0000)
      && forall j :: 0 <= j < |c.values| ==> Holds(d, w + 12 + 8 * j, 8, c.values[j], 0x1_0000_0000_0000_0000)
  {
    hide Word, ValueBytes, BigEndian, Holds;
    var d := SignData(c);
    assert At(d, 0, d);
    hide At;
    var (values, r) := (CountedValues(c.values), 4 + |c.tenantID|);
    var w := r + 4 + |c.roundID|;
    AtConcat(d, 0, LenPrefixed(c.tenantID), LenPrefixed(c.roundID) + (Word(c.createdAt) + values));
    AtConcat(d, r, LenPrefixed(c.roundID), Word(c.createdAt) + values);
    AtConcat(d, w, Word(c.createdAt), values);
    TextHeld(c.tenantID, d, 0);
    TextHeld(c.roundID, d, r);
    WordHeld(c.createdAt, d, w);
    CountedHeld(c.values, d, w + 8);
  }

  /** What is hashed: the previous hash, the time, tenant and round, the values, and the
      signature. */
  lemma HashDataLayout(prev: seq<byte>, c: Content, sig: seq<byte>)
    ensures
      var (d, t) := (HashData(prev, c, sig), |prev| + 8);
      var r := t + 4 + |c.tenantID|;
      var w := r + 4 + |c.roundID|;
      && |d| == w + 4 + 8 * |c.values| + |sig|
      && At(d, 0, prev) && Holds(d, |prev|, 8, c.createdAt, 0x1_0000_0000_0000_0000)
      && Holds(d, t, 4, |c.tenantID|, 0x1_0000_0000) && At(d, t + 4, c.tenantID)
      && Holds(d, r, 4, |c.roundID|, 0x1_0000_0000) && At(d, r + 4, c.roundID)
      && Holds(d, w, 4, |c.values|, 0x1_0000_0000)
      && (forall j :: 0 <= j < |c.values| ==> Holds(d, w + 4 + 8 * j, 8, c.values[j], 0x1_0000_0000_0000_0000))
      && At(d, w + 4 + 8 * |c.values|, sig)
  {
    hide Word, ValueBytes, BigEndian, Holds;
    var d := HashData(prev, c, sig);
    assert At(d, 0, d);
    hide At;
    var (values, t) := (CountedValues(c.values), |prev| + 8);
    var r := t + 4 + |c.tenantID|;
    var w := r + 4 + |c.roundID|;
    AtConcat(d, 0, prev, Word(c.createdAt) + (LenPrefixed(c.tenantID) + (LenPrefixed(c.roundID) + (values + sig))));
    AtConcat(d, |prev|, Word(c.createdAt), LenPrefixed(c.tenantID) + (LenPrefixed(c.roundID) + (values + sig)));
    AtConcat(d, t, LenPrefixed(c.tenantID), LenPrefixed(c.roundID) + (values + sig));
    AtConcat(d, r, LenPrefixed(c.roundID), values + sig);
    AtConcat(d, w, values, sig);
    WordHeld(c.createdAt, d, |prev|);
    TextHeld(c.tenantID, d, t);
    TextHeld(c.roundID, d, r);
    CountedHeld(c.values, d, w);
  }

  /* ---- Reading it back ---- */

  lemma SplitEqual(a: seq<byte>, x: seq<byte>, b: seq<byte>, y: seq<byte>)
    requires |a| == |b| && a + x == b + y
    ensures a == b && x == y
  {
    assert (a + x)[..|a|] == a && (b + y)[..|b|] == b;
    assert (a + x)[|a|..] == x && (b + y)[|b|..] == y;
  }

  lemma WordUnique(m: int64, n: int64)
    requires Word(m) == Word(n)
    ensures m == n
  {
    WordSizes();
    BigEndianRoundTrip(ToUint64(m), 8);
    BigEndianRoundTrip(ToUint64(n), 8);
  }

  lemma LengthUnique(m: nat, n: nat)
    requires m < W32 && n < W32 && BigEndian(m, 4) == BigEndian(n, 4)
    ensures m == n
  {
    WordSizes();
    BigEndianRoundTrip(m, 4);
    BigEndianRoundTrip(n, 4);
  }

  lemma LenPrefixedUnique(a: seq<byte>, x: seq<byte>, b: seq<byte>, y: seq<byte>)
    requires |a| < W32 && |b| < W32 && LenPrefixed(a) + x == LenPrefixed(b) + y
    ensures a == b && x == y
  {
    Regroup(BigEndian(|a|, 4), a, x);
    Regroup(BigEndian(|b|, 4), b, y);
    SplitEqual(BigEndian(|a|, 4), a + x, BigEndian(|b|, 4), b + y);
    LengthUnique(|a|, |b|);
    SplitEqual(a, x, b, y);
  }

  lemma {:induction false} ValueBytesUnique(a: seq<int64>, b: seq<int64>)
    requires |a| == |b| && ValueBytes(a) == ValueBytes(b)
    ensures a == b
  {
    if a == [] {
    } else {
      var n := |a| - 1;
      SplitEqual(ValueBytes(a[..n]), Word(a[n]), ValueBytes(b[..n]), Word(b[n]));
      ValueBytesUnique(a[..n], b[..n]);
      WordUnique(a[n], b[n]);
    }
  }

  lemma CountedValuesUnique(a: seq<int64>, x: seq<byte>, b: seq<int64>, y: seq<byte>)
    requires |a| < W32 && |b| < W32 && CountedValues(a) + x == CountedValues(b) + y
    ensures a == b && x == y
  {
    Regroup(BigEndian(|a|, 4), ValueBytes(a), x);
    Regroup(BigEndian(|b|, 4), ValueBytes(b), y);
    SplitEqual(BigEndian(|a|, 4), ValueBytes(a) + x, BigEndian(|b|, 4), ValueBytes(b) + y);
    LengthUnique(|a|, |b|);
    SplitEqual(ValueBytes(a), x, ValueBytes(b), y);
    ValueBytesUnique(a, b);
  }

  /** No length in the content is above `limit`. */
  predicate Fits(c: Content, limit: nat) {
    |c.tenantID| <= limit && |c.roundID| <= limit && |c.values| <= limit
  }

  /** The recorded content that is signed and hashed; game, request, bounds, count and
      reseed mark are not. */
  predicate SameSigned(c: Content, d: Content) {
    c.tenantID == d.tenantID && c.roundID == d.roundID && c.createdAt == d.createdAt && c.values == d.values
  }

  lemma SignDataUnique(c: Content, d: Content)
    requires Fits(c, W32 - 1) && Fits(d, W32 - 1) && SignData(c) == SignData(d)
    ensures SameSigned(c, d)
  {
    hide LenPrefixed, CountedValues, Word;
    var (x, y) := (Word(c.createdAt) + CountedValues(c.values), Word(d.createdAt) + CountedValues(d.values));
    LenPrefixedUnique(c.tenantID, LenPrefixed(c.roundID) + x, d.tenantID, LenPrefixed(d.roundID) + y);
    LenPrefixedUnique(c.roundID, x, d.roundID, y);
    SplitEqual(Word(c.createdAt), CountedValues(c.values), Word(d.createdAt), CountedValues(d.values));
    WordUnique(c.createdAt, d.createdAt);
    assert CountedValues(c.values) + [] == CountedValues(d.values) + [];
    CountedValuesUnique(c.values, [], d.values, []);
  }

  lemma HashDataUnique(p: seq<byte>, c: Content, s: seq<byte>, q: seq<byte>, d: Content, t: seq<byte>)
    requires Fits(c, W32 - 1) && Fits(d, W32 - 1) && |p| == |q|
    requires HashData(p, c, s) == HashData(q, d, t)
    ensures p == q && SameSigned(c, d) && s == t
  {
    hide LenPrefixed, CountedValues, Word;
    var (v, w) := (CountedValues(c.values) + s, CountedValues(d.values) + t);
    var (x, y) := (LenPrefixed(c.roundID) + v, LenPrefixed(d.roundID) + w);
    var (x', y') := (LenPrefixed(c.tenantID) + x, LenPrefixed(d.tenantID) + y);
    SplitEqual(p, Word(c.createdAt) + x', q, Word(d.createdAt) + y');
    SplitEqual(Word(c.createdAt), x', Word(d.createdAt), y');
    WordUnique(c.createdAt, d.createdAt);
    LenPrefixedUnique(c.tenantID, x, d.tenantID, y);
    LenPrefixedUnique(c.roundID, v, d.roundID, w);
    CountedValuesUnique(c.values, s, d.values, t);
  }

  /* ---- How long the parts may be ---- */

  ghost predicate SignedDetermines(limit: nat) {
    forall c, d :: Fits(c, limit) && Fits(d, limit) && SignData(c) == SignData(d) ==> SameSigned(c, d)
  }

  ghost predicate HashedDetermines(limit: nat) {
    forall p: seq<byte>, c: Content, s, q: seq<byte>, d: Content, t ::
      Fits(c, limit) && Fits(d, limit) && |p| == |q| && HashData(p, c, s) == HashData(q, d, t)
      ==> p == q && SameSigned(c, d) && s == t
  }

  const LONG: nat := W32 - 4

  function Plain(tenant: seq<byte>, round: seq<byte>, at: int64, values: seq<int64>): Content {
    Content(tenant, [], round, [], values, |values|, 0, 0, at, false)
  }

  lemma {:induction false} SmallWord(n: nat, w: nat)
    requires 0 < w && n < 256
    ensures BigEndian(n, w) == Zeros(w - 1) + [n]
  {
    if w > 1 {
      SmallWord(0, w - 1);
    }
  }

  lemma ShiftedByte(n: nat, w: nat)
    ensures BigEndian(256 * n, w + 1) == BigEndian(n, w) + [0]
  {
  }

  lemma TimesPower(n: nat, k: nat)
    requires k > 0
    ensures n * Pow256(k) == 256 * (n * Pow256(k - 1))
  {
    var p := Pow256(k - 1);
    assert n * (256 * p) == 256 * (n * p);
  }

  lemma {:induction false} Shifted(n: nat, w: nat, k: nat)
    ensures BigEndian(n * Pow256(k), w + k) == BigEndian(n, w) + Zeros(k)
  {
    if k == 0 {
    } else {
      Shifted(n, w, k - 1);
      ShiftedByte(n * Pow256(k - 1), w + k - 1);
      TimesPower(n, k);
      hide BigEndian, Pow256;
      assert Zeros(k - 1) + [0] == Zeros(k);
      Regroup(BigEndian(n, w), Zeros(k - 1), [0]);
    }
  }

  /** A small number of units of 2^32. */
  lemma HighWord(n: byte)
    requires n < 128
    ensures n * W32 < 0x8000_0000_0000_0000 && Word(n * W32) == BigEndian(n, 4) + Zeros(4)
  {
    WordSizes();
    Shifted(n, 4, 4);
  }

  /** A length of 2^32 is written as zero. */
  lemma LongLength()
    ensures BigEndian(W32, 4) == Zeros(4)
  {
    WordSizes();
    BigEndianModulo(W32, 4);
    SmallWord(0, 4);
    assert Zeros(3) + [0] == Zeros(4);
  }

  /** The tenant of 2^32 bytes that reads as an empty tenant and a round of zeros. */
  function LongTenant(): seq<byte> {
    BigEndian(LONG, 4) + Zeros(LONG)
  }

  lemma LongTenantReads(x: seq<byte>)
    ensures |LongTenant()| == W32
    ensures LenPrefixed(LongTenant()) + x == LenPrefixed([]) + (LenPrefixed(Zeros(LONG)) + x)
  {
    LongLength();
    SmallWord(0, 4);
    hide BigEndian, Zeros;
    Regroup(Zeros(4), LongTenant(), x);
  }

  lemma SignedTails()
    ensures LenPrefixed(Zeros(4)) + (Word(0x1_0000_0000) + CountedValues([]))
         == Word(0x4_0000_0000) + CountedValues([0])
  {
    HighWord(1);
    HighWord(4);
    HighWord(0);
    assert Word(0 * W32) == BigEndian(0, 4) + Zeros(4);
    assert ValueBytes([]) == [];
    assert ValueBytes([0]) == ValueBytes([]) + Word(0);
    SmallWord(0, 4);
    hide BigEndian, Word, ValueBytes;
    assert BigEndian(0, 4) == Zeros(4);
  }

  /** Signed data that do not determine the content. */
  lemma LongTenantSigned() returns (c: Content, d: Content)
    ensures Fits(c, W32) && Fits(d, W32) && SignData(c) == SignData(d) && !SameSigned(c, d)
  {
    c := Plain(LongTenant(), Zeros(4), 0x1_0000_0000, []);
    d := Plain([], Zeros(LONG), 0x4_0000_0000, [0]);
    LongTenantReads(LenPrefixed(Zeros(4)) + (Word(0x1_0000_0000) + CountedValues([])));
    SignedTails();
  }

  lemma HashedTails()
    ensures LenPrefixed(Zeros(4)) + CountedValues([0, 0, 0]) == CountedValues([3, 0, 0, 0])
  {
    SmallWord(0, 4);
    SmallWord(3, 4);
    SmallWord(0, 8);
    SmallWord(3, 8);
    Repeated(0);
    Repeated(3);
    Appended([3, 0, 0], 0);
    assert [3, 0, 0] + [0] == [3, 0, 0, 0];
    SmallWord(4, 4);
    hide BigEndian, Word, ValueBytes;
  }

  /** Hashed data that do not determine it, even with the same previous hash and the same
      signature. */
  lemma LongTenantHashed(p: seq<byte>, s: seq<byte>) returns (c: Content, d: Content)
    ensures Fits(c, W32) && Fits(d, W32) && HashData(p, c, s) == HashData(p, d, s) && !SameSigned(c, d)
  {
    c := Plain(LongTenant(), Zeros(4), 0, [0, 0, 0]);
    d := Plain([], Zeros(LONG), 0, [3, 0, 0, 0]);
    LongTenantReads(LenPrefixed(Zeros(4)) + (CountedValues([0, 0, 0]) + s));
    HashedTails();
    Regroup(LenPrefixed(Zeros(4)), CountedValues([0, 0, 0]), s);
  }

  lemma Appended(values: seq<int64>, n: int64)
    ensures ValueBytes(values + [n]) == ValueBytes(values) + Word(n)
  {
    assert (values + [n])[..|values|] == values;
  }

  lemma Repeated(n: int64)
    ensures ValueBytes([n, 0, 0]) == Word(n) + Word(0) + Word(0)
  {
    assert [] + [n] == [n] && [n] + [0] == [n, 0] && [n, 0] + [0] == [n, 0, 0];
    Appended([], n);
    Appended([n], 0);
    Appended([n, 0], 0);
  }

  /** Signed data determine the content exactly as long as no part reaches 2^32. */
  lemma SignedDeterminesBelow(limit: nat)
    ensures SignedDetermines(limit) <==> limit < W32
  {
    if limit < W32 {
      forall c, d | Fits(c, limit) && Fits(d, limit) && SignData(c) == SignData(d)
        ensures SameSigned(c, d)
      {
        SignDataUnique(c, d);
      }
    } else {
      var c, d := LongTenantSigned();
      assert Fits(c, limit) && Fits(d, limit);
    }
  }

  /** And so do hashed data. */
  lemma HashedDeterminesBelow(limit: nat)
    ensures HashedDetermines(limit) <==> limit < W32
  {
    hide HashData, SameSigned;
    if limit < W32 {
      forall p: seq<byte>, c: Content, s, q: seq<byte>, d: Content, t |
        Fits(c, limit) && Fits(d, limit) && |p| == |q| && HashData(p, c, s) == HashData(q, d, t)
        ensures p == q && SameSigned(c, d) && s == t
      {
        HashDataUnique(p, c, s, q, d, t);
      }
    } else {
      var c, d := LongTenantHashed([], []);
      assert Fits(c, limit) && Fits(d, limit);
    }
  }
}
