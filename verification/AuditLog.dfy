/** Signed entries linked into a hash chain: sealing, verifying, storing, and what an
    accepted list of entries is evidence of. */
module AuditLog {
  import opened Bytes
  import opened Wrappers
  import opened Hex
  import opened AuditLayout
  type text = seq<byte>
  type Digest = s: seq<byte> | |s| == 32 witness Zeros(32)
  type Hash = seq<byte> -> Digest
  type Mac = (seq<byte>, seq<byte>) -> Digest

  function Repeated(b: byte, n: nat): (s: text)
    ensures |s| == n
  {
    seq(n, _ => b)
  }

  /** Sixty-four zero digits. */
  const ZERO_HASH: text := Repeated(48, 64)

  lemma {:induction false} ZerosEncode(n: nat)
    ensures EncodeToString(Zeros(n)) == Repeated(48, 2 * n)
  {
    if n == 0 {
    } else {
      assert Zeros(n)[1..] == Zeros(n - 1);
      ZerosEncode(n - 1);
    }
  }

  lemma ZeroHashDecodes()
    ensures ZERO_HASH == EncodeToString(Zeros(32)) && DecodeString(ZERO_HASH) == Some(Zeros(32))
  {
    hide EncodeToString, DecodeString;
    ZerosEncode(32);
    DecodeEncodedString(Zeros(32));
  }

  /** An entry as it is stored and passed on. */
  datatype Record = Record(content: Content, signature: text, prevHash: text, entryHash: text)

  /* ---- Signatures ---- */

  predicate SignatureValid(mac: Mac, key: seq<byte>, r: Record) {
    r.signature != [] && DecodeString(r.signature) == Some(mac(key, SignData(r.content)))
  }

  method Verify(mac: Mac, key: seq<byte>, r: Record) returns (ok: bool)
    ensures ok == SignatureValid(mac, key, r)
  {
    if r.signature == [] {
      return false;
    }
    var got := DecodeString(r.signature);
    if got.None? {
      return false;
    }
    var data := WriteSignData(r.content);
    ok := mac(key, data) == got.value;
  }

  /* ---- Hashes ---- */

  /** The bytes that are hashed for a record; none if its hexadecimal fields are not. */
  function Hashed(r: Record): Option<seq<byte>> {
    var prev, sig := DecodeString(r.prevHash), DecodeString(r.signature);
    if prev.None? || sig.None? then None
    else Some(HashData(prev.value, r.content, sig.value))
  }

  predicate HashValid(h: Hash, r: Record) {
    Hashed(r).Some? && r.entryHash == EncodeToString(h(Hashed(r).value))
  }

  method ComputeHash(h: Hash, r: Record) returns (hash: Option<text>)
    ensures Hashed(r).None? ==> hash == None
    ensures Hashed(r).Some? ==> hash == Some(EncodeToString(h(Hashed(r).value)))
  {
    var prev := DecodeString(r.prevHash);
    if prev.None? {
      return None;
    }
    var sig := DecodeString(r.signature);
    if sig.None? {
      return None;
    }
    var data := WriteHashData(prev.value, r.content, sig.value);
    hash := Some(EncodeToString(h(data)));
  }

  class Entry {
    const content: Content
    var signature: text
    var prevHash: text
    var entryHash: text

    constructor (content: Content)
      ensures this.content == content && signature == [] && prevHash == [] && entryHash == []
    {
      this.content := content;
      signature, prevHash, entryHash := [], [], [];
    }

    function Value(): Record
      reads this
    {
      Record(content, signature, prevHash, entryHash)
    }

    method Sign(mac: Mac, key: seq<byte>)
      modifies this`signature
      ensures SignatureValid(mac, key, Value()) && |signature| == 64
    {
      var data := WriteSignData(content);
      signature := EncodeToString(mac(key, data));
      DecodeEncodedString(mac(key, data));
    }
  }

  /** The tip of the chain. */
  class Chain {
    var prevHash: text

    constructor ()
      ensures prevHash == ZERO_HASH
    {
      prevHash := ZERO_HASH;
    }

    /** Links an entry to the chain and makes it the tip; an unsigned entry is refused,
        and so is one whose hash cannot be computed. */
    method Seal(h: Hash, e: Entry) returns (ok: bool)
      modifies this, e`prevHash, e`entryHash
      ensures e.prevHash == if e.signature == [] then old(e.prevHash) else old(prevHash)
      ensures ok == (e.signature != [] && Hashed(e.Value()).Some?)
      ensures ok ==> HashValid(h, e.Value()) && prevHash == e.entryHash
      ensures !ok ==> prevHash == old(prevHash) && e.entryHash == old(e.entryHash)
    {
      if e.signature == [] {
        return false;
      }
      e.prevHash := prevHash;
      var hash := ComputeHash(h, e.Value());
      if hash.None? {
        return false;
      }
      e.entryHash := hash.value;
      prevHash := hash.value;
      ok := true;
    }
  }

  /** Resuming a chain: any text of 64 bytes is taken for a hash. */
  method LoadChain(lastHash: text) returns (c: Option<Chain>)
    ensures c.Some? <==> |lastHash| == 64
    ensures c.Some? ==> fresh(c.value) && c.value.prevHash == lastHash
  {
    if |lastHash| != 64 {
      return None;
    }
    var chain := new Chain();
    chain.prevHash := lastHash;
    c := Some(chain);
  }

  /** A signed record can be hashed exactly if its link is hexadecimal. */
  lemma SealableExactly(r: Record, mac: Mac, key: seq<byte>)
    requires SignatureValid(mac, key, r)
    ensures Hashed(r).Some? <==> DecodeString(r.prevHash).Some?
  {
  }

  method SealOne(h: Hash, c: Chain, e: Entry) returns (ok: bool)
    requires e.signature != [] && DecodeString(e.signature).Some?
    modifies c, e`prevHash, e`entryHash
    ensures ok <==> DecodeString(old(c.prevHash)).Some?
    ensures ok ==> DecodeString(c.prevHash).Some?
    ensures !ok ==> c.prevHash == old(c.prevHash)
  {
    ok := c.Seal(h, e);
    if ok {
      DecodeEncodedString(h(Hashed(e.Value()).value));
    }
  }

  /** Seals signed entries one after the other: all of them if the tip is hexadecimal;
      otherwise none, and the tip stays. */
  method SealAll(h: Hash, c: Chain, entries: seq<Entry>) returns (sealed: seq<bool>)
    requires forall e :: e in entries ==> e.signature != [] && DecodeString(e.signature).Some?
    modifies c, entries
    ensures |sealed| == |entries|
    ensures forall k :: 0 <= k < |sealed| ==> (sealed[k] <==> DecodeString(old(c.prevHash)).Some?)
    ensures DecodeString(old(c.prevHash)).None? ==> c.prevHash == old(c.prevHash)
  {
    hide DecodeString;
    ghost var tip := c.prevHash;
    sealed := [];
    for i := 0 to |entries|
      invariant |sealed| == i
      invariant forall e :: e in entries ==> e.signature != [] && DecodeString(e.signature).Some?
      invariant DecodeString(c.prevHash).Some? <==> DecodeString(tip).Some?
      invariant DecodeString(tip).None? ==> c.prevHash == tip
      invariant forall k :: 0 <= k < i ==> (sealed[k] <==> DecodeString(tip).Some?)
    {
      var ok := SealOne(h, c, entries[i]);
      sealed := sealed + [ok];
    }
  }

  /** After a restart from any text of 64 bytes, every entry can be sealed if the text is
      hexadecimal; if it is not, none can ever be, and the tip stays as it is. */
  method Resume(h: Hash, lastHash: text, entries: seq<Entry>) returns (c: Option<Chain>, sealed: seq<bool>)
    requires forall e :: e in entries ==> e.signature != [] && DecodeString(e.signature).Some?
    modifies entries
    ensures c.Some? <==> |lastHash| == 64
    ensures c.Some? ==>
      && |sealed| == |entries|
      && (DecodeString(lastHash).Some? ==> forall k :: 0 <= k < |sealed| ==> sealed[k])
      && (DecodeString(lastHash).None? ==>
            c.value.prevHash == lastHash && forall k :: 0 <= k < |sealed| ==> !sealed[k])
  {
    hide DecodeString;
    sealed := [];
    c := LoadChain(lastHash);
    if c.Some? {
      sealed := SealAll(h, c.value, entries);
    }
  }

  /** Sixty-four letters g are such a text. */
  lemma NotHexadecimal()
    ensures |Repeated(103, 64)| == 64 && DecodeString(Repeated(103, 64)).None?
  {
    assert !IsHex(Repeated(103, 64)[0]);
  }

  /* ---- Verifying a list ---- */

  function LinkBefore(rs: seq<Record>, i: nat, first: text): text
    requires i <= |rs|
  {
    if i == 0 then first else rs[i - 1].entryHash
  }

  predicate Intact(h: Hash, rs: seq<Record>, i: nat, first: text)
    requires i < |rs|
  {
    rs[i].prevHash == LinkBefore(rs, i, first) && HashValid(h, rs[i])
  }

  predicate Verifies(h: Hash, rs: seq<Record>, first: text) {
    forall i :: 0 <= i < |rs| ==> Intact(h, rs, i, first)
  }

  /** The least index that is not intact, or -1. */
  method VerifyEntries(h: Hash, rs: seq<Record>, first: text) returns (bad: int)
    ensures bad == -1 <==> Verifies(h, rs, first)
    ensures bad != -1 ==> 0 <= bad < |rs| && !Intact(h, rs, bad, first)
    ensures bad != -1 ==> forall i :: 0 <= i < bad ==> Intact(h, rs, i, first)
  {
    var prevHash := first;
    for i := 0 to |rs|
      invariant prevHash == LinkBefore(rs, i, first)
      invariant forall k :: 0 <= k < i ==> Intact(h, rs, k, first)
    {
      if rs[i].prevHash != prevHash {
        assert !Intact(h, rs, i, first);
        return i;
      }
      var computed := ComputeHash(h, rs[i]);
      if computed.None? || computed.value != rs[i].entryHash {
        assert !Intact(h, rs, i, first);
        return i;
      }
      prevHash := rs[i].entryHash;
    }
    bad := -1;
  }

  /* ---- Tamper evidence ---- */

  /** What the hashes protect in a record. */
  predicate Agree(r: Record, s: Record) {
    && SameSigned(r.content, s.content)
    && DecodeString(r.signature) == DecodeString(s.signature)
    && r.prevHash == s.prevHash && r.entryHash == s.entryHash
  }

  /** Two records for which different bytes were hashed to the same digest. */
  predicate Collide(h: Hash, r: Record, s: Record) {
    var x, y := Hashed(r), Hashed(s);
    x.Some? && y.Some? && x.value != y.value && h(x.value) == h(y.value)
  }

  predicate Collision(h: Hash, a: seq<Record>, b: seq<Record>) {
    exists i, j :: 0 <= i < |a| && 0 <= j < |b| && Collide(h, a[i], b[j])
  }

  predicate StartsAgain(r: Record, first: text) {
    DecodeString(r.entryHash) == DecodeString(first)
  }

  /** One of the records is hashed to the value the chain starts from. */
  predicate ComesBack(rs: seq<Record>, first: text) {
    exists i :: 0 <= i < |rs| && StartsAgain(rs[i], first)
  }

  predicate AllFit(rs: seq<Record>) {
    forall i :: 0 <= i < |rs| ==> Fits(rs[i].content, Scaling.W32 - 1)
  }

  /** Equal hashes are the hashes of equal bytes, or a collision. */
  lemma SameHash(h: Hash, r: Record, s: Record)
    requires HashValid(h, r) && HashValid(h, s) && r.entryHash == s.entryHash
    requires Fits(r.content, Scaling.W32 - 1) && Fits(s.content, Scaling.W32 - 1)
    requires |r.prevHash| == |s.prevHash|
    ensures Collide(h, r, s)
         || (&& SameSigned(r.content, s.content)
             && DecodeString(r.signature) == DecodeString(s.signature)
             && DecodeString(r.prevHash) == DecodeString(s.prevHash))
  {
    hide HashData, SameSigned;
    var x, y := Hashed(r).value, Hashed(s).value;
    DecodeEncodedString(h(x));
    DecodeEncodedString(h(y));
    if x == y {
      HashDataUnique(
        DecodeString(r.prevHash).value, r.content, DecodeString(r.signature).value,
        DecodeString(s.prevHash).value, s.content, DecodeString(s.signature).value);
    }
  }

  /** The links before two intact records with the same hash: unless there is a collision,
      they stand for the same digest, and are the same text between two records. */
  lemma SameLink(h: Hash, a: seq<Record>, i: nat, b: seq<Record>, j: nat, first: text)
    requires i < |a| && j < |b| && Verifies(h, a, first) && Verifies(h, b, first)
    requires AllFit(a) && AllFit(b) && a[i].entryHash == b[j].entryHash
    requires i == j || |first| == 64
    ensures Collision(h, a, b)
         || (&& SameSigned(a[i].content, b[j].content)
             && DecodeString(a[i].signature) == DecodeString(b[j].signature)
             && DecodeString(a[i].prevHash) == DecodeString(b[j].prevHash)
             && (0 < i && 0 < j ==> a[i].prevHash == b[j].prevHash))
  {
    hide Hashed, SameSigned, DecodeString;
    assert Intact(h, a, i, first) && Intact(h, b, j, first);
    if 0 < i {
      assert Intact(h, a, i - 1, first);
      DecodeEncodedString(h(Hashed(a[i - 1]).value));
    }
    if 0 < j {
      assert Intact(h, b, j - 1, first);
      DecodeEncodedString(h(Hashed(b[j - 1]).value));
    }
    SameHash(h, a[i], b[j]);
  }

  /** From two equal hashes back to the beginning of the lists. */
  lemma {:induction false} Unwind(h: Hash, a: seq<Record>, i: nat, b: seq<Record>, j: nat, first: text)
    requires i < |a| && j < |b| && Verifies(h, a, first) && Verifies(h, b, first)
    requires AllFit(a) && AllFit(b) && a[i].entryHash == b[j].entryHash
    requires i == j || |first| == 64
    ensures i == j ==> Collision(h, a, b) || forall k :: 0 <= k <= i ==> Agree(a[k], b[k])
    ensures i != j ==> Collision(h, a, b) || ComesBack(a, first) || ComesBack(b, first)
  {
    hide Hashed, SameSigned, DecodeString, HashValid, Collision;
    SameLink(h, a, i, b, j, first);
    assert Intact(h, a, i, first) && Intact(h, b, j, first);
    if !Collision(h, a, b) {
      if 0 < i && 0 < j {
        Unwind(h, a, i - 1, b, j - 1, first);
      }
    }
  }

  /** Two lists accepted from the same first hash with the same last hash agree in all
      that is protected, or two of their records collide; lists of different lengths
      collide, or hash a record to the first hash. */
  lemma TamperEvident(h: Hash, a: seq<Record>, b: seq<Record>, first: text)
    requires Verifies(h, a, first) && Verifies(h, b, first) && AllFit(a) && AllFit(b)
    requires LinkBefore(a, |a|, first) == LinkBefore(b, |b|, first)
    requires |a| == |b| || |first| == 64
    ensures |a| == |b| ==> Collision(h, a, b) || forall k :: 0 <= k < |a| ==> Agree(a[k], b[k])
    ensures |a| != |b| ==> Collision(h, a, b) || ComesBack(a, first) || ComesBack(b, first)
  {
    if a != [] && b != [] {
      Unwind(h, a, |a| - 1, b, |b| - 1, first);
    }
  }

  /** Nothing else is protected: a list that agrees with an accepted one is accepted,
      whatever its games, requests, bounds, counts, marks and cases of digits are. */
  lemma AgreeingIsAccepted(h: Hash, a: seq<Record>, b: seq<Record>, first: text)
    requires Verifies(h, a, first) && |a| == |b| && forall k :: 0 <= k < |a| ==> Agree(a[k], b[k])
    ensures Verifies(h, b, first)
  {
    hide DecodeString;
    forall i | 0 <= i < |b| ensures Intact(h, b, i, first) {
      assert Intact(h, a, i, first) && Agree(a[i], b[i]);
      assert i > 0 ==> Agree(a[i - 1], b[i - 1]);
    }
  }

  /** In an accepted list no hash occurs twice, unless there is a collision or the chain
      comes back to its start. */
  lemma HashesDistinct(h: Hash, rs: seq<Record>, i: nat, j: nat, first: text)
    requires i < j < |rs| && Verifies(h, rs, first) && AllFit(rs) && |first| == 64
    requires rs[i].entryHash == rs[j].entryHash
    ensures Collision(h, rs, rs) || ComesBack(rs, first)
  {
    Unwind(h, rs, i, rs, j, first);
  }
}
