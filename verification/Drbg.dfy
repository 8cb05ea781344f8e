/** CTR_DRBG with AES-256 and without derivation function, after NIST SP 800-90A Rev.1,
    and the generator that implements it on byte buffers. */
module Drbg {
  import opened Bytes
  import opened Wrappers
  import opened Scaling
  const SEED_LEN := 48
  const W128: nat := 0x1_0000_0000_0000_0000_0000_0000_0000_0000
  type Key = s: seq<byte> | |s| == 32 witness seq(32, _ => 0)
  type Block = s: seq<byte> | |s| == 16 witness seq(16, _ => 0)

  /** Under each key, a block cipher never maps two blocks to the same one. */
  ghost predicate IsPermutation(encrypt: (Key, Block) -> Block) {
    forall k, x, y :: x != y ==> encrypt(k, x) != encrypt(k, y)
  }

  type Aes = e: (Key, Block) -> Block | IsPermutation(e) witness (k, x) => x

  /* ---- The standard ---- */

  datatype State = State(key: Key, v: Block)

  /** The counter block `i` steps behind `v`. */
  function Plus(v: Block, i: nat): Block {
    BigEndian((FromBigEndian(v) + i) % W128, 16)
  }

  /** The encrypted counter blocks behind `v`, `k` of them. */
  function Blocks(aes: Aes, s: State, k: nat): (t: seq<byte>)
    ensures |t| == 16 * k
  {
    if k == 0 then [] else Blocks(aes, s, k - 1) + aes(s.key, Plus(s.v, k))
  }

  function XorAll(a: seq<byte>, b: seq<byte>): (c: seq<byte>)
    requires |a| == |b|
    ensures |c| == |a|
  {
    seq(|a|, i requires 0 <= i < |a| => Xor(a[i], b[i]))
  }

  /** CTR_DRBG_Update, section 10.2.1.2. */
  function Update(aes: Aes, s: State, provided: seq<byte>): State
    requires |provided| == SEED_LEN
  {
    var temp := XorAll(Blocks(aes, s, 3), provided);
    State(temp[..32], temp[32..])
  }

  /** Section 10.2.1.3.1, without personalization string. */
  function Instantiate(aes: Aes, entropy: seq<byte>): State
    requires |entropy| == SEED_LEN
  {
    Update(aes, State(Zeros(32), Zeros(16)), entropy)
  }

  function BlocksFor(n: nat): (k: nat)
    ensures n <= 16 * k < n + 16
  {
    (n + 15) / 16
  }

  /** Section 10.2.1.5.1, without additional input: the bytes. */
  function Output(aes: Aes, s: State, n: nat): (t: seq<byte>)
    ensures |t| == n
  {
    Blocks(aes, s, BlocksFor(n))[..n]
  }

  /** Section 10.2.1.5.1: the state afterwards. */
  function Next(aes: Aes, s: State, n: nat): State {
    Update(aes, State(s.key, Plus(s.v, BlocksFor(n))), Zeros(SEED_LEN))
  }

  /* ---- Counters ---- */

  lemma PlusValue(v: Block, i: nat)
    ensures FromBigEndian(Plus(v, i)) == (FromBigEndian(v) + i) % W128
  {
    WordSizes();
    BigEndianRoundTrip((FromBigEndian(v) + i) % W128, 16);
  }

  lemma AddModulo(n: nat, j: nat)
    ensures (n % W128 + j) % W128 == (n + j) % W128
  {
    var c, s := Quotient(n, W128);
    var d, r := Quotient(s + j, W128);
    assert n + j == (c + d) * W128 + r;
    ModuloUnique(n + j, W128, c + d, r);
  }

  lemma PlusPlus(v: Block, i: nat, j: nat)
    ensures Plus(Plus(v, i), j) == Plus(v, i + j)
  {
    hide FromBigEndian, BigEndian;
    PlusValue(v, i);
    AddModulo(FromBigEndian(v) + i, j);
  }

  lemma PlusZero(v: Block)
    ensures Plus(v, 0) == v
  {
    WordSizes();
    hide FromBigEndian, BigEndian, Pow256;
    BigEndianOfBytes(v);
  }

  /** The counter does not come back within 2^128 steps. */
  lemma CountersDistinct(v: Block, i: nat, j: nat)
    requires i < j < i + W128
    ensures Plus(v, i) != Plus(v, j)
  {
    PlusValue(v, i);
    PlusValue(v, j);
    if Plus(v, i) == Plus(v, j) {
      SameRest(FromBigEndian(v) + i, FromBigEndian(v) + j, W128);
    }
  }

  lemma {:induction false} BlockAt(aes: Aes, s: State, k: nat, i: nat)
    requires i < k
    ensures Blocks(aes, s, k)[16 * i..16 * i + 16] == aes(s.key, Plus(s.v, i + 1))
  {
    var before, last := Blocks(aes, s, k - 1), aes(s.key, Plus(s.v, k));
    assert Blocks(aes, s, k) == before + last;
    hide Blocks, Plus;
    if i == k - 1 {
      assert (before + last)[16 * i..16 * i + 16] == last;
    } else {
      BlockAt(aes, s, k - 1, i);
      assert (before + last)[16 * i..16 * i + 16] == before[16 * i..16 * i + 16];
    }
  }

  lemma ByteOfBlocks(aes: Aes, s: State, k: nat, i: nat)
    requires i < 16 * k
    ensures Blocks(aes, s, k)[i] == aes(s.key, Plus(s.v, i / 16 + 1))[i % 16]
  {
    var t := Blocks(aes, s, k);
    BlockAt(aes, s, k, i / 16);
    assert t[16 * (i / 16)..16 * (i / 16) + 16][i % 16] == t[i];
  }

  /** Byte by byte: key and counter after an update are the three encrypted counter blocks
      behind the old counter, combined with the provided bytes. */
  lemma UpdateBytes(aes: Aes, s: State, provided: seq<byte>, i: nat)
    requires |provided| == 48 && i < 48
    ensures
      var t := Update(aes, s, provided);
      (t.key + t.v)[i] == Xor(aes(s.key, Plus(s.v, i / 16 + 1))[i % 16], provided[i])
  {
    var temp := XorAll(Blocks(aes, s, 3), provided);
    assert temp[..32] + temp[32..] == temp;
    ByteOfBlocks(aes, s, 3, i);
  }

  /** No two seeds lead to the same state. */
  lemma UpdateInjective(aes: Aes, s: State, p: seq<byte>, q: seq<byte>)
    requires |p| == |q| == 48
    ensures Update(aes, s, p) == Update(aes, s, q) <==> p == q
  {
    hide Update, Xor, Plus;
    if Update(aes, s, p) == Update(aes, s, q) {
      forall i | 0 <= i < 48 ensures p[i] == q[i] {
        UpdateBytes(aes, s, p, i);
        UpdateBytes(aes, s, q, i);
        XorInjective(aes(s.key, Plus(s.v, i / 16 + 1))[i % 16], p[i], q[i]);
      }
    }
  }

  /** An instance starts from the zero key and counter, and tells any two seeds apart. */
  lemma InstantiateBytes(aes: Aes, p: seq<byte>, q: seq<byte>, i: nat)
    requires |p| == |q| == 48 && i < 48
    ensures
      var t := Instantiate(aes, p);
      (t.key + t.v)[i] == Xor(aes(Zeros(32), Plus(Zeros(16), i / 16 + 1))[i % 16], p[i])
    ensures Instantiate(aes, p) == Instantiate(aes, q) <==> p == q
  {
    UpdateBytes(aes, State(Zeros(32), Zeros(16)), p, i);
    UpdateInjective(aes, State(Zeros(32), Zeros(16)), p, q);
  }

  lemma OutputBytes(aes: Aes, s: State, n: nat, i: nat)
    requires i < n
    ensures Output(aes, s, n)[i] == aes(s.key, Plus(s.v, i / 16 + 1))[i % 16]
  {
    ByteOfBlocks(aes, s, BlocksFor(n), i);
  }

  /** Key and counter behind an output are the encrypted counter blocks that follow those of
      the output. */
  lemma NextBytes(aes: Aes, s: State, n: nat, i: nat)
    requires i < 48
    ensures
      var t := Next(aes, s, n);
      (t.key + t.v)[i] == aes(s.key, Plus(s.v, (n + 15) / 16 + i / 16 + 1))[i % 16]
  {
    var s' := State(s.key, Plus(s.v, BlocksFor(n)));
    UpdateBytes(aes, s', Zeros(48), i);
    PlusPlus(s.v, BlocksFor(n), i / 16 + 1);
    XorZero(aes(s.key, Plus(s'.v, i / 16 + 1))[i % 16]);
  }

  lemma {:induction false} BlocksPrefix(aes: Aes, s: State, j: nat, k: nat)
    requires j <= k
    ensures Blocks(aes, s, k)[..16 * j] == Blocks(aes, s, j)
  {
    if j < k {
      BlocksPrefix(aes, s, j, k - 1);
      assert Blocks(aes, s, k)[..16 * j] == Blocks(aes, s, k - 1)[..16 * j];
    }
  }

  /** The blocks of one output never repeat. */
  lemma OutputBlocksDistinct(aes: Aes, s: State, n: u64, i: nat, j: nat)
    requires i < j && 16 * j + 16 <= n
    ensures Output(aes, s, n)[16 * i..16 * i + 16] != Output(aes, s, n)[16 * j..16 * j + 16]
  {
    var k := BlocksFor(n);
    BlockAt(aes, s, k, i);
    BlockAt(aes, s, k, j);
    var t := Blocks(aes, s, k);
    assert t[..n][16 * i..16 * i + 16] == t[16 * i..16 * i + 16];
    assert t[..n][16 * j..16 * j + 16] == t[16 * j..16 * j + 16];
    CountersDistinct(s.v, i + 1, j + 1);
  }

  /** From the same state, a shorter output is the beginning of a longer one. */
  lemma ShorterIsPrefix(aes: Aes, s: State, m: nat, n: nat)
    requires m <= n
    ensures Output(aes, s, m) == Output(aes, s, n)[..m]
  {
    var j, k := BlocksFor(m), BlocksFor(n);
    BlocksPrefix(aes, s, j, k);
    assert Blocks(aes, s, k)[..m] == Blocks(aes, s, k)[..16 * j][..m];
    assert Blocks(aes, s, k)[..n][..m] == Blocks(aes, s, k)[..m];
  }

  /* ---- Counter blocks in place ---- */

  lemma UnfoldBigEndian(s: seq<byte>)
    ensures FromBigEndian(s) ==
      if s == [] then 0 else 256 * FromBigEndian(s[..|s| - 1]) + s[|s| - 1]
  {
  }

  lemma MulShift(x: nat, n: nat)
    ensures 256 * (x * Pow256(n)) == x * Pow256(n + 1)
  {
    var p := Pow256(n);
    assert 256 * (x * p) == x * (256 * p);
  }

  lemma {:induction false} FromBigEndianConcat(a: seq<byte>, b: seq<byte>)
    ensures FromBigEndian(a + b) == FromBigEndian(a) * Pow256(|b|) + FromBigEndian(b)
  {
    hide FromBigEndian;
    UnfoldBigEndian(b);
    if b == [] {
      assert a + b == a;
    } else {
      hide Pow256;
      var n := |b| - 1;
      UnfoldBigEndian(a + b);
      FromBigEndianConcat(a, b[..n]);
      assert (a + b)[..|a| + n] == a + b[..n];
      MulShift(FromBigEndian(a), n);
    }
  }

  function Upper(v: Block): u64 {
    Value(v[..8])
  }

  function Lower(v: Block): u64 {
    Value(v[8..])
  }

  lemma Halves(v: Block)
    ensures FromBigEndian(v) == Upper(v) * W64 + Lower(v)
  {
    WordSizes();
    hide FromBigEndian, BigEndian, Pow256;
    assert v == v[..8] + v[8..];
    FromBigEndianConcat(v[..8], v[8..]);
  }

  lemma Carry(hi: u64, lo: u64)
    ensures (hi * W64 + lo + 1) % W128 ==
      (if lo == W64 - 1 then (hi + 1) % W64 else hi) * W64 + (lo + 1) % W64
  {
    if lo == W64 - 1 && hi == W64 - 1 {
      assert hi * W64 + lo + 1 == W128;
    } else if lo == W64 - 1 {
      assert hi * W64 + lo + 1 == (hi + 1) * W64 < W128;
    }
  }

  /** Two words, the lower one carrying into the upper one, count as one of 128 bits. */
  lemma CarryCounts(v: Block, w: Block)
    requires Lower(w) == (Lower(v) + 1) % W64
    requires Upper(w) == if Lower(w) == 0 then (Upper(v) + 1) % W64 else Upper(v)
    ensures w == Plus(v, 1)
  {
    hide FromBigEndian, BigEndian, Pow256, Upper, Lower;
    Halves(v);
    Halves(w);
    Carry(Upper(v), Lower(v));
    PlusZero(w);
  }

  method Copy(dst: array<byte>, start: nat, src: seq<byte>)
    requires start + |src| <= dst.Length
    modifies dst
    ensures dst[..] == old(dst[..start]) + src + old(dst[start + |src|..])
  {
    forall i | 0 <= i < |src| {
      dst[start + i] := src[i];
    }
  }

  method PutWords(v: array<byte>, hi: u64, lo: u64)
    requires v.Length == 16
    modifies v
    ensures Upper(v[..]) == hi && Lower(v[..]) == lo
  {
    hide ToWord, Value;
    WordValue(hi, ToWord(hi));
    WordValue(lo, ToWord(lo));
    Copy(v, 0, ToWord(hi));
    Copy(v, 8, ToWord(lo));
    assert v[..][..8] == ToWord(hi) && v[..][8..] == ToWord(lo);
  }

  method Increment(v: array<byte>)
    requires v.Length == 16
    modifies v
    ensures v[..] == Plus(old(v[..]), 1)
  {
    hide FromBigEndian, BigEndian, Upper, Lower, Plus;
    ghost var before := v[..];
    var hi := Upper(v[..]);
    var lo := Lower(v[..]);
    lo := (lo + 1) % W64;
    if lo == 0 {
      hi := (hi + 1) % W64;
    }
    PutWords(v, hi, lo);
    CarryCounts(before, v[..]);
  }

  /* ---- The generator ---- */

  datatype Encryption = Encryption(key: Key, counter: Block)

  /** The encryptions that make `k` blocks. */
  ghost function Encryptions(s: State, k: nat): (es: seq<Encryption>)
    ensures |es| == k
    ensures forall i :: 0 <= i < k ==> es[i] == Encryption(s.key, Plus(s.v, i + 1))
  {
    seq(k, i requires 0 <= i < k => Encryption(s.key, Plus(s.v, i + 1)))
  }

  lemma NoBlocks(aes: Aes, s: State)
    ensures Blocks(aes, s, 0) == [] && Encryptions(s, 0) == []
  {
  }

  /** The first bytes of `provided`, filled up with zeros. */
  function Filled(provided: seq<byte>): (s: seq<byte>)
    ensures |s| == SEED_LEN
    ensures |provided| == SEED_LEN ==> s == provided
    ensures provided == [] ==> s == Zeros(SEED_LEN)
  {
    seq(SEED_LEN, i requires 0 <= i < SEED_LEN => if i < |provided| then provided[i] else 0)
  }

  lemma UpdateFilled(aes: Aes, s: State, provided: seq<byte>)
    ensures
      var t := Update(aes, s, Filled(provided));
      forall i :: 0 <= i < 48 ==>
        (t.key + t.v)[i] ==
          Xor(aes(s.key, Plus(s.v, i / 16 + 1))[i % 16], if i < |provided| then provided[i] else 0)
  {
    hide Update, Xor, Plus;
    var t := Update(aes, s, Filled(provided));
    forall i | 0 <= i < 48
      ensures (t.key + t.v)[i] ==
        Xor(aes(s.key, Plus(s.v, i / 16 + 1))[i % 16], if i < |provided| then provided[i] else 0)
    {
      UpdateBytes(aes, s, Filled(provided), i);
    }
  }

  method XorInto(temp: array<byte>, provided: seq<byte>)
    requires temp.Length == SEED_LEN
    modifies temp
    ensures temp[..] == XorAll(old(temp[..]), Filled(provided))
  {
    hide Xor;
    var i := 0;
    while i < |provided| && i < SEED_LEN
      invariant 0 <= i <= SEED_LEN && (i <= |provided| || i == 0)
      invariant forall k :: 0 <= k < i ==> temp[k] == Xor(old(temp[k]), provided[k])
      invariant forall k :: i <= k < SEED_LEN ==> temp[k] == old(temp[k])
    {
      temp[i] := Xor(temp[i], provided[i]);
      i := i + 1;
    }
    forall k | i <= k < SEED_LEN ensures temp[k] == Xor(temp[k], 0) {
      XorZero(temp[k]);
    }
  }

  lemma MoreEncryptions(s: State, j: nat, k: nat)
    ensures Encryptions(s, j) + Encryptions(State(s.key, Plus(s.v, j)), k) == Encryptions(s, j + k)
  {
    hide Plus;
    forall i | 0 <= i < k ensures Encryptions(State(s.key, Plus(s.v, j)), k)[i] == Encryptions(s, j + k)[j + i] {
      PlusPlus(s.v, j, i + 1);
    }
  }

  class DRBG {
    const aes: Aes
    const key: array<byte>
    const v: array<byte>
    var outputBytes: u64
    ghost var encrypted: seq<Encryption>

    ghost predicate Valid()
      reads this
    {
      key.Length == 32 && v.Length == 16 && key != v
    }

    ghost function Current(): State
      reads this, key, v
      requires Valid()
    {
      State(key[..], v[..])
    }

    constructor Zero(aes: Aes)
      ensures Valid() && fresh(key) && fresh(v) && this.aes == aes
      ensures Current() == State(Zeros(32), Zeros(16)) && outputBytes == 0 && encrypted == []
    {
      this.aes := aes;
      key := new byte[32](_ => 0);
      v := new byte[16](_ => 0);
      outputBytes := 0;
      encrypted := [];
    }

    /** Counts on and encrypts the counter. */
    method NextBlock() returns (block: Block)
      requires Valid()
      modifies v, this`encrypted
      ensures Valid() && Current() == State(old(Current()).key, Plus(old(Current()).v, 1))
      ensures block == aes(Current().key, Current().v)
      ensures encrypted == old(encrypted) + [Encryption(Current().key, Current().v)]
    {
      Increment(v);
      block := aes(key[..], v[..]);
      encrypted := encrypted + [Encryption(key[..], v[..])];
    }

    /** Some of the blocks behind the state, one more than there were. */
    method MoreBlocks(ghost s: State, ghost k: nat, ghost log: seq<Encryption>)
      returns (block: Block)
      requires Valid() && Current() == State(s.key, Plus(s.v, k))
      requires encrypted == log + Encryptions(s, k)
      modifies v, this`encrypted
      ensures Valid() && Current() == State(s.key, Plus(s.v, k + 1))
      ensures Blocks(aes, s, k) + block == Blocks(aes, s, k + 1)
      ensures encrypted == log + Encryptions(s, k + 1)
    {
      PlusPlus(s.v, k, 1);
      block := NextBlock();
      assert Encryptions(s, k) + [Encryption(s.key, Plus(s.v, k + 1))] == Encryptions(s, k + 1);
    }

    /** Three more blocks. */
    method SeedBlocks() returns (temp: array<byte>)
      requires Valid()
      modifies v, this`encrypted
      ensures Valid() && Current() == State(old(Current()).key, Plus(old(Current()).v, 3))
      ensures fresh(temp) && temp.Length == SEED_LEN && temp[..] == Blocks(aes, old(Current()), 3)
      ensures encrypted == old(encrypted) + Encryptions(old(Current()), 3)
    {
      ghost var s, log := Current(), encrypted;
      PlusZero(s.v);
      hide Blocks, Plus, Encryptions;
      temp := new byte[SEED_LEN](_ => 0);
      NoBlocks(aes, s);
      assert encrypted == log + Encryptions(s, 0);
      for i := 0 to SEED_LEN / 16
        invariant Valid() && Current() == State(s.key, Plus(s.v, i))
        invariant encrypted == log + Encryptions(s, i)
        invariant temp[..16 * i] == Blocks(aes, s, i)
      {
        var block := MoreBlocks(s, i, log);
        Copy(temp, i * 16, block);
        assert temp[..16 * i + 16] == Blocks(aes, s, i) + block;
      }
      assert temp[..] == Blocks(aes, s, 3);
    }

    /** Replaces key and counter by three encrypted counter blocks, combined with what is
        provided; missing bytes of `provided` change nothing. */
    method UpdateLocked(provided: seq<byte>)
      requires Valid()
      modifies key, v, this`encrypted
      ensures Valid() && Current() == Update(aes, old(Current()), Filled(provided))
      ensures encrypted == old(encrypted) + Encryptions(old(Current()), 3)
      ensures forall i :: 0 <= i < 48 ==>
        (Current().key + Current().v)[i] ==
          Xor(aes(old(Current()).key, Plus(old(Current()).v, i / 16 + 1))[i % 16],
              if i < |provided| then provided[i] else 0)
    {
      hide Blocks, Plus, Encryptions, XorAll, Filled, Xor;
      ghost var s := Current();
      var temp := SeedBlocks();
      XorInto(temp, provided);
      Copy(key, 0, temp[..32]);
      Copy(v, 0, temp[32..]);
      assert Current().key == temp[..32] && Current().v == temp[32..];
      assert Current() == Update(aes, s, Filled(provided));
      hide Update;
      UpdateFilled(aes, s, provided);
    }

    /** Blocks until there are `n` bytes. */
    method Collect(n: u64) returns (buf: seq<byte>)
      requires Valid()
      modifies v, this`encrypted
      ensures Valid() && buf == Blocks(aes, old(Current()), BlocksFor(n))
      ensures Current() == State(old(Current()).key, Plus(old(Current()).v, BlocksFor(n)))
      ensures encrypted == old(encrypted) + Encryptions(old(Current()), BlocksFor(n))
    {
      ghost var s, log, k := Current(), encrypted, 0;
      PlusZero(s.v);
      NoBlocks(aes, s);
      hide Blocks, Plus, Encryptions;
      buf := [];
      while |buf| < n
        invariant Valid() && Current() == State(s.key, Plus(s.v, k))
        invariant encrypted == log + Encryptions(s, k)
        invariant buf == Blocks(aes, s, k) && |buf| < n + 16
        decreases n - |buf|
      {
        var block := MoreBlocks(s, k, log);
        buf := buf + block;
        k := k + 1;
      }
      assert k == BlocksFor(n);
    }

    /** The output and the next state of the standard; no bytes leave everything as it
        is. */
    method Generate(n: u64) returns (result: seq<byte>)
      requires Valid()
      modifies this`outputBytes, this`encrypted, key, v
      ensures Valid() && result == Output(aes, old(Current()), n)
      ensures n == 0 ==> Current() == old(Current()) && encrypted == old(encrypted)
      ensures n > 0 ==>
        && Current() == Next(aes, old(Current()), n)
        && encrypted == old(encrypted) + Encryptions(old(Current()), BlocksFor(n) + 3)
      ensures outputBytes == (old(outputBytes) + n) % W64
    {
      hide Blocks, Plus, Encryptions, Update, Filled, BlocksFor, Zeros;
      if n == 0 {
        return [];
      }
      MoreEncryptions(Current(), BlocksFor(n), 3);
      var buf := Collect(n);
      result := buf[..n];
      UpdateLocked([]);
      outputBytes := (outputBytes + n) % W64;
    }

    /** A new key and counter from fresh entropy; too little of it changes nothing. */
    method Reseed(entropy: seq<byte>) returns (ok: bool)
      requires Valid()
      modifies key, v, this`encrypted
      ensures Valid() && ok == (|entropy| >= SEED_LEN)
      ensures ok ==>
        && Current() == Update(aes, old(Current()), entropy[..SEED_LEN])
        && encrypted == old(encrypted) + Encryptions(old(Current()), 3)
      ensures !ok ==> Current() == old(Current()) && encrypted == old(encrypted)
      ensures outputBytes == old(outputBytes)
    {
      if |entropy| < SEED_LEN {
        return false;
      }
      UpdateLocked(entropy[..SEED_LEN]);
      ok := true;
    }
  }

  method New(aes: Aes, entropy: seq<byte>) returns (d: Option<DRBG>)
    ensures d.None? <==> |entropy| < SEED_LEN
    ensures d.Some? ==>
      && fresh(d.value) && d.value.Valid() && fresh(d.value.key) && fresh(d.value.v)
      && d.value.aes == aes && d.value.outputBytes == 0
      && d.value.Current() == Instantiate(aes, entropy[..SEED_LEN])
  {
    if |entropy| < SEED_LEN {
      return None;
    }
    var r := new DRBG.Zero(aes);
    r.UpdateLocked(entropy[..SEED_LEN]);
    d := Some(r);
  }

  /* ---- Whole runs ---- */

  datatype Call = Take(n: u64) | Refresh(entropy: seq<byte>)

  /** The standard's state after one call. */
  function Step(aes: Aes, s: State, c: Call): State {
    match c
    case Take(n) => if n == 0 then s else Next(aes, s, n)
    case Refresh(entropy) => if |entropy| < SEED_LEN then s else Update(aes, s, entropy[..SEED_LEN])
  }

  function Steps(aes: Aes, s: State, calls: seq<Call>): State {
    if calls == [] then s
    else Step(aes, Steps(aes, s, calls[..|calls| - 1]), calls[|calls| - 1])
  }

  /** How many blocks a call encrypts. */
  function Encrypted(c: Call): nat {
    match c
    case Take(n) => if n == 0 then 0 else BlocksFor(n) + 3
    case Refresh(entropy) => if |entropy| < SEED_LEN then 0 else 3
  }

  ghost function AllEncryptions(aes: Aes, s: State, calls: seq<Call>): seq<Encryption> {
    if calls == [] then []
    else
      var init, c := calls[..|calls| - 1], calls[|calls| - 1];
      AllEncryptions(aes, s, init) + Encryptions(Steps(aes, s, init), Encrypted(c))
  }

  /** What a call returns. */
  function Answer(aes: Aes, s: State, c: Call): Option<seq<byte>> {
    match c
    case Take(n) => Some(Output(aes, s, n))
    case Refresh(entropy) => if |entropy| < SEED_LEN then None else Some([])
  }

  function Answers(aes: Aes, s: State, calls: seq<Call>): (answers: seq<Option<seq<byte>>>)
    ensures |answers| == |calls|
  {
    if calls == [] then []
    else
      var init, c := calls[..|calls| - 1], calls[|calls| - 1];
      Answers(aes, s, init) + [Answer(aes, Steps(aes, s, init), c)]
  }

  lemma OneMore(aes: Aes, s: State, calls: seq<Call>, i: nat)
    requires i < |calls|
    ensures
      var now, c := Steps(aes, s, calls[..i]), calls[i];
      && Steps(aes, s, calls[..i + 1]) == Step(aes, now, c)
      && Answers(aes, s, calls[..i + 1]) == Answers(aes, s, calls[..i]) + [Answer(aes, now, c)]
      && AllEncryptions(aes, s, calls[..i + 1])
         == AllEncryptions(aes, s, calls[..i]) + Encryptions(now, Encrypted(c))
  {
    hide Step, Answer, Encryptions;
    assert calls[..i + 1][..i] == calls[..i];
  }

  lemma NoCalls(aes: Aes, s: State, calls: seq<Call>)
    ensures Steps(aes, s, calls[..0]) == s
    ensures AllEncryptions(aes, s, calls[..0]) == [] && Answers(aes, s, calls[..0]) == []
  {
  }

  method Perform(d: DRBG, c: Call) returns (answer: Option<seq<byte>>)
    requires d.Valid()
    modifies d, d.key, d.v
    ensures d.Valid() && d.Current() == Step(d.aes, old(d.Current()), c)
    ensures answer == Answer(d.aes, old(d.Current()), c)
    ensures d.encrypted == old(d.encrypted) + Encryptions(old(d.Current()), Encrypted(c))
  {
    NoBlocks(d.aes, d.Current());
    hide Output, Next, Update, Encryptions;
    match c {
      case Take(n) =>
        var bytes := d.Generate(n);
        answer := Some(bytes);
      case Refresh(entropy) =>
        var ok := d.Reseed(entropy);
        answer := if ok then Some([]) else None;
    }
  }

  method PerformNext(d: DRBG, calls: seq<Call>, i: nat, ghost s: State, ghost log: seq<Encryption>)
    returns (answer: Option<seq<byte>>)
    requires d.Valid() && i < |calls| && d.Current() == Steps(d.aes, s, calls[..i])
    requires d.encrypted == log + AllEncryptions(d.aes, s, calls[..i])
    modifies d, d.key, d.v
    ensures d.Valid() && d.Current() == Steps(d.aes, s, calls[..i + 1])
    ensures d.encrypted == log + AllEncryptions(d.aes, s, calls[..i + 1])
    ensures Answers(d.aes, s, calls[..i + 1]) == Answers(d.aes, s, calls[..i]) + [answer]
  {
    hide Steps, Step, Answers, Answer, AllEncryptions, Encryptions;
    OneMore(d.aes, s, calls, i);
    answer := Perform(d, calls[i]);
  }

  /** Every run gives the standard's answers, state and encryptions, call by call. */
  method Run(d: DRBG, calls: seq<Call>) returns (answers: seq<Option<seq<byte>>>)
    requires d.Valid()
    modifies d, d.key, d.v
    ensures d.Valid() && d.Current() == Steps(d.aes, old(d.Current()), calls)
    ensures d.encrypted == old(d.encrypted) + AllEncryptions(d.aes, old(d.Current()), calls)
    ensures answers == Answers(d.aes, old(d.Current()), calls)
  {
    ghost var s, log := d.Current(), d.encrypted;
    NoCalls(d.aes, s, calls);
    hide Steps, Answers, AllEncryptions;
    answers := [];
    for i := 0 to |calls|
      invariant d.Valid() && d.Current() == Steps(d.aes, s, calls[..i])
      invariant d.encrypted == log + AllEncryptions(d.aes, s, calls[..i])
      invariant answers == Answers(d.aes, s, calls[..i])
    {
      var answer := PerformNext(d, calls, i, s, log);
      answers := answers + [answer];
    }
    assert calls[..|calls|] == calls;
  }

  /** All that one call encrypts under one key are different counters, the three blocks
      that make the next key among them. */
  lemma CallEncryptsDistinct(s: State, c: Call, i: nat, j: nat)
    requires i < j < Encrypted(c)
    ensures Encryptions(s, Encrypted(c))[i].counter != Encryptions(s, Encrypted(c))[j].counter
  {
    CountersDistinct(s.v, i + 1, j + 1);
  }
}
