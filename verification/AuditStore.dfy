/** The store of sealed entries, and what verifying a part of it says about the whole. */
module AuditStore {
  import opened Bytes
  import opened Hex
  import opened AuditLog

  /** The entries that are kept, in order. */
  function Filtered(rs: seq<Record>, keep: Record -> bool): (fs: seq<Record>)
    ensures |fs| <= |rs|
  {
    if rs == [] then []
    else
      var fs, last := Filtered(rs[..|rs| - 1], keep), rs[|rs| - 1];
      if keep(last) then fs + [last] else fs
  }

  lemma {:induction false} FilteredMembers(rs: seq<Record>, keep: Record -> bool)
    ensures forall r :: r in Filtered(rs, keep) <==> r in rs && keep(r)
  {
    if rs == [] {
    } else {
      FilteredMembers(rs[..|rs| - 1], keep);
      assert rs == rs[..|rs| - 1] + [rs[|rs| - 1]];
    }
  }

  method Select(rs: seq<Record>, keep: Record -> bool) returns (found: seq<Record>)
    ensures found == Filtered(rs, keep)
  {
    found := [];
    for i := 0 to |rs|
      invariant found == Filtered(rs[..i], keep)
    {
      assert rs[..i + 1][..i] == rs[..i];
      if keep(rs[i]) {
        found := found + [rs[i]];
      }
    }
    assert rs[..|rs|] == rs;
  }

  class InMemoryStore {
    var entries: seq<Record>

    constructor ()
      ensures entries == []
    {
      entries := [];
    }

    /** A copy of a sealed entry; an entry that was not sealed is refused. */
    method Append(e: Entry) returns (ok: bool)
      modifies this
      ensures ok == (e.entryHash != [] && e.prevHash != [])
      ensures entries == if ok then old(entries) + [e.Value()] else old(entries)
    {
      if e.entryHash == [] || e.prevHash == [] {
        return false;
      }
      entries := entries + [e.Value()];
      ok := true;
    }

    method LatestHash() returns (hash: text)
      ensures hash == LinkBefore(entries, |entries|, ZERO_HASH)
    {
      if |entries| == 0 {
        return ZERO_HASH;
      }
      hash := entries[|entries| - 1].entryHash;
    }

    method GetByRound(roundID: seq<byte>) returns (found: seq<Record>)
      ensures found == Filtered(entries, (r: Record) => r.content.roundID == roundID)
    {
      var keep := (r: Record) => r.content.roundID == roundID;
      found := Select(entries, keep);
    }

    method VerifyChain(h: Hash, tenantID: seq<byte>) returns (ok: bool)
      ensures ok == Verifies(h, Filtered(entries, (r: Record) => r.content.tenantID == tenantID), ZERO_HASH)
    {
      var keep := (r: Record) => r.content.tenantID == tenantID;
      var found := Select(entries, keep);
      if |found| == 0 {
        return true;
      }
      var bad := VerifyEntries(h, found, ZERO_HASH);
      ok := bad == -1;
    }
  }

  /* ---- What the verification of a part says ---- */

  /** `fs` stands in `rs` without a gap from position `p` on. */
  predicate Contiguous(rs: seq<Record>, p: nat, fs: seq<Record>) {
    p + |fs| <= |rs| && rs[p..p + |fs|] == fs
  }

  predicate Excused(h: Hash, rs: seq<Record>, first: text) {
    Collision(h, rs, rs) || ComesBack(rs, first)
  }

  /** A part without gaps of an accepted list is accepted from its own first link. */
  lemma ContiguousIsAccepted(h: Hash, rs: seq<Record>, first: text, p: nat, fs: seq<Record>)
    requires Verifies(h, rs, first) && Contiguous(rs, p, fs) && fs != []
    ensures Verifies(h, fs, fs[0].prevHash)
    ensures p == 0 ==> fs[0].prevHash == first
  {
    assert Intact(h, rs, p, first);
    forall i | 0 <= i < |fs| ensures Intact(h, fs, i, fs[0].prevHash) {
      assert fs[i] == rs[p + i] && Intact(h, rs, p + i, first);
      if i > 0 {
        assert fs[i - 1] == rs[p + i - 1];
      }
    }
  }

  lemma AcceptedInit(h: Hash, fs: seq<Record>, n: nat, first: text)
    requires n <= |fs| && Verifies(h, fs, first)
    ensures Verifies(h, fs[..n], first)
  {
    forall i | 0 <= i < n ensures Intact(h, fs[..n], i, first) {
      assert Intact(h, fs, i, first);
    }
  }

  /** A kept entry behind a gap links to two places of the list. */
  lemma GapExcused(h: Hash, rs: seq<Record>, first: text, i: nat, j: nat)
    requires i < j < |rs| && Verifies(h, rs, first) && AllFit(rs) && |first| == 64
    requires i + 1 < j && rs[j].prevHash == rs[i].entryHash
    ensures Excused(h, rs, first)
  {
    assert Intact(h, rs, j, first);
    HashesDistinct(h, rs, i, j - 1, first);
  }

  lemma LastLink(h: Hash, fs: seq<Record>, k: nat)
    requires 0 < k < |fs| && Verifies(h, fs, fs[0].prevHash)
    ensures fs[k].prevHash == fs[k - 1].entryHash
  {
    assert Intact(h, fs, k, fs[0].prevHash);
  }

  lemma {:induction false} AcceptedIsContiguous(
    h: Hash, rs: seq<Record>, first: text, keep: Record -> bool, n: nat) returns (p: nat)
    requires n <= |rs| && Verifies(h, rs, first) && AllFit(rs) && |first| == 64
    requires Filtered(rs[..n], keep) != []
    requires var fs := Filtered(rs[..n], keep); Verifies(h, fs, fs[0].prevHash)
    ensures Excused(h, rs, first)
         || (Contiguous(rs, p, Filtered(rs[..n], keep)) && p + |Filtered(rs[..n], keep)| <= n)
  {
    hide HashValid, Excused, Verifies, AllFit, Intact, Hashed, LinkBefore;
    var last, m := rs[n - 1], n - 1;
    assert rs[..n][..m] == rs[..m];
    var fs, before := Filtered(rs[..n], keep), Filtered(rs[..m], keep);
    if !keep(last) {
      p := AcceptedIsContiguous(h, rs, first, keep, m);
    } else if before == [] {
      p := m;
      assert rs[m..n] == [last];
    } else {
      var k := |before|;
      AcceptedInit(h, fs, k, fs[0].prevHash);
      assert fs[..k] == before;
      p := AcceptedIsContiguous(h, rs, first, keep, m);
      if Contiguous(rs, p, before) && p + k <= m {
        LastLink(h, fs, k);
        assert rs[p + k - 1] == before[k - 1];
        if p + k < m {
          GapExcused(h, rs, first, p + k - 1, m);
        } else {
          assert rs[p..n] == rs[p..m] + [last];
        }
      }
    }
  }

  /** A round's entries verify from the first one's link exactly when they stand in the
      chain without a gap, collisions and returns to the start apart. */
  lemma RoundVerifies(h: Hash, rs: seq<Record>, first: text, keep: Record -> bool)
    requires Verifies(h, rs, first) && AllFit(rs) && |first| == 64 && Filtered(rs, keep) != []
    ensures
      var fs := Filtered(rs, keep);
      Excused(h, rs, first)
      || (Verifies(h, fs, fs[0].prevHash) <==> exists p: nat :: Contiguous(rs, p, fs))
  {
    var fs := Filtered(rs, keep);
    assert rs[..|rs|] == rs;
    if Verifies(h, fs, fs[0].prevHash) {
      var p := AcceptedIsContiguous(h, rs, first, keep, |rs|);
    } else if p: nat :| Contiguous(rs, p, fs) {
      ContiguousIsAccepted(h, rs, first, p, fs);
    }
  }

  /** A tenant's chain verifies exactly when the tenant's entries are the beginning of the
      whole chain: with the entries of another tenant before or between them, it does
      not. */
  lemma TenantVerifies(h: Hash, rs: seq<Record>, first: text, keep: Record -> bool)
    requires Verifies(h, rs, first) && AllFit(rs) && |first| == 64
    ensures
      var fs := Filtered(rs, keep);
      Excused(h, rs, first) || (Verifies(h, fs, first) <==> Contiguous(rs, 0, fs))
  {
    var fs := Filtered(rs, keep);
    assert rs[..|rs|] == rs;
    if fs != [] {
      if Contiguous(rs, 0, fs) {
        ContiguousIsAccepted(h, rs, first, 0, fs);
      } else if Verifies(h, fs, first) {
        assert Intact(h, fs, 0, first);
        var p := AcceptedIsContiguous(h, rs, first, keep, |rs|);
        if p > 0 && Contiguous(rs, p, fs) {
          assert rs[p] == fs[0] && Intact(h, rs, p, first);
          assert StartsAgain(rs[p - 1], first);
        }
      }
    }
  }

  lemma OneVerifies(h: Hash, r: Record, first: text)
    ensures Verifies(h, [r], first) <==> r.prevHash == first && HashValid(h, r)
  {
    hide HashValid;
    assert Verifies(h, [r], first) <==> Intact(h, [r], 0, first);
  }

  lemma TwoVerify(h: Hash, a: Record, b: Record, first: text)
    requires Verifies(h, [a, b], first)
    ensures Hashed(a).Some? && HashValid(h, b) && b.prevHash == EncodeToString(h(Hashed(a).value))
  {
    hide Hashed;
    assert Intact(h, [a, b], 0, first) && Intact(h, [a, b], 1, first);
  }

  lemma ZeroDigest(d: Digest)
    ensures EncodeToString(d) == ZERO_HASH <==> d == Zeros(32)
  {
    DecodeEncodedString(d);
    ZeroHashDecodes();
  }

  /** With one entry of another tenant before a tenant's own, its chain does not verify,
      unless that entry is hashed to zeros. */
  lemma SecondTenantFails(h: Hash, a: Record, b: Record)
    requires Verifies(h, [a, b], ZERO_HASH)
    ensures Hashed(a).Some?
    ensures Verifies(h, [b], ZERO_HASH) <==> h(Hashed(a).value) == Zeros(32)
  {
    hide *;
    TwoVerify(h, a, b, ZERO_HASH);
    OneVerifies(h, b, ZERO_HASH);
    ZeroDigest(h(Hashed(a).value));
  }
}
