/** The token bucket of each tenant, and exactly which calls it lets through. Times are
    in seconds; seconds and tokens are real numbers. */
module RateLimiter {
  import opened Bytes

  datatype Bucket = Bucket(tokens: real, lastFill: real)

  /** A call, and the clock as it is read for a new bucket and for the decision. */
  datatype Call = Call(tenant: seq<byte>, created: real, now: real)

  type Buckets = map<seq<byte>, Bucket>

  /* ---- One call ---- */

  function Capacity(rps: real): real {
    rps * 2.0
  }

  /** What is filled in during a time. */
  function Gain(rps: real, time: real): real {
    time * rps
  }

  function Found(buckets: Buckets, rps: real, c: Call): Bucket {
    if c.tenant in buckets then buckets[c.tenant] else Bucket(Capacity(rps), c.created)
  }

  /** The tokens once the bucket is filled up, at most to its capacity. */
  function Filled(b: Bucket, rps: real, now: real): (tokens: real)
    ensures tokens <= Capacity(rps)
  {
    var tokens := b.tokens + Gain(rps, now - b.lastFill);
    if Capacity(rps) < tokens then Capacity(rps) else tokens
  }

  predicate Admits(buckets: Buckets, rps: real, c: Call) {
    Filled(Found(buckets, rps, c), rps, c.now) >= 1.0
  }

  function BucketAfter(b: Bucket, rps: real, now: real): Bucket {
    var tokens := Filled(b, rps, now);
    Bucket(if tokens < 1.0 then tokens else tokens - 1.0, now)
  }

  function After(rps: real, calls: seq<Call>): Buckets {
    if calls == [] then map[]
    else
      var before, c := After(rps, calls[..|calls| - 1]), calls[|calls| - 1];
      before[c.tenant := BucketAfter(Found(before, rps, c), rps, c.now)]
  }

  predicate Admitted(rps: real, calls: seq<Call>, k: nat)
    requires k < |calls|
  {
    Admits(After(rps, calls[..k]), rps, calls[k])
  }

  class Limiter {
    var buckets: Buckets
    const rate: real
    const capacity: real

    ghost predicate Valid()
      reads this
    {
      capacity == Capacity(rate)
    }

    constructor (rps: real)
      ensures Valid() && rate == rps && buckets == map[]
    {
      buckets := map[];
      rate, capacity := rps, rps * 2.0;
    }

    method Allow(c: Call) returns (ok: bool)
      requires Valid()
      modifies this
      ensures Valid()
      ensures ok == Admits(old(buckets), rate, c)
      ensures buckets == old(buckets)[c.tenant := BucketAfter(Found(old(buckets), rate, c), rate, c.now)]
    {
      if c.tenant !in buckets {
        buckets := buckets[c.tenant := Bucket(capacity, c.created)];
      }
      var b := buckets[c.tenant];
      var elapsed := c.now - b.lastFill;
      var tokens := b.tokens + elapsed * rate;
      b := Bucket(if capacity < tokens then capacity else tokens, c.now);
      ok := b.tokens >= 1.0;
      if ok {
        b := b.(tokens := b.tokens - 1.0);
      }
      assert b == BucketAfter(Found(old(buckets), rate, c), rate, c.now);
      buckets := buckets[c.tenant := b];
    }

    /** A run of calls, one after the other. */
    method Run(calls: seq<Call>) returns (decisions: seq<bool>)
      requires Valid() && buckets == map[]
      modifies this
      ensures Valid() && buckets == After(rate, calls)
      ensures |decisions| == |calls|
      ensures forall k :: 0 <= k < |calls| ==> decisions[k] == Admitted(rate, calls, k)
    {
      decisions := [];
      for k := 0 to |calls|
        invariant Valid() && buckets == After(rate, calls[..k]) && |decisions| == k
        invariant forall i :: 0 <= i < k ==> decisions[i] == Admitted(rate, calls, i)
      {
        assert calls[..k + 1][..k] == calls[..k];
        var ok := Allow(calls[k]);
        decisions := decisions + [ok];
      }
      assert calls[..|calls|] == calls;
    }
  }

  /* ---- Runs from the start ---- */

  /** The clock does not run backwards. */
  predicate Clocked(calls: seq<Call>) {
    && (forall i :: 0 <= i < |calls| ==> calls[i].created <= calls[i].now)
    && (forall i, j :: 0 <= i < j < |calls| ==> calls[i].now <= calls[j].created)
  }

  predicate Within(c: Call, tenant: seq<byte>, t1: real, t2: real) {
    c.tenant == tenant && t1 <= c.now <= t2
  }

  /** How many of a tenant's calls in a window are admitted. */
  function Count(rps: real, calls: seq<Call>, tenant: seq<byte>, t1: real, t2: real): nat {
    if calls == [] then 0
    else
      var init, c := calls[..|calls| - 1], calls[|calls| - 1];
      Count(rps, init, tenant, t1, t2)
      + (if Within(c, tenant, t1, t2) && Admits(After(rps, init), rps, c) then 1 else 0)
  }

  lemma Distribute(rps: real, a: real, b: real, c: real)
    ensures Gain(rps, a - b) + Gain(rps, b - c) == Gain(rps, a - c)
    ensures rps >= 0.0 && a >= b ==> Gain(rps, a - b) >= 0.0
    ensures Gain(rps, 0.0) == 0.0
  {
  }

  lemma ClockedInit(calls: seq<Call>, k: nat)
    requires Clocked(calls) && k <= |calls|
    ensures Clocked(calls[..k])
  {
  }

  /** A tenant's bucket was last filled at one of its calls. */
  lemma {:induction false} LastFill(rps: real, calls: seq<Call>, tenant: seq<byte>)
    requires Clocked(calls) && tenant in After(rps, calls)
    ensures calls != [] && After(rps, calls)[tenant].lastFill <= calls[|calls| - 1].now
  {
    var n := |calls| - 1;
    ClockedInit(calls, n);
    if calls[n].tenant != tenant {
      LastFill(rps, calls[..n], tenant);
    }
  }

  /** Tokens stay between zero and the capacity. */
  lemma {:induction false} TokensInRange(rps: real, calls: seq<Call>, tenant: seq<byte>)
    requires rps >= 0.0 && Clocked(calls) && tenant in After(rps, calls)
    ensures 0.0 <= After(rps, calls)[tenant].tokens <= 2.0 * rps
  {
    hide Gain;
    var n := |calls| - 1;
    var c := calls[n];
    var before := After(rps, calls[..n]);
    ClockedInit(calls, n);
    if tenant in before {
      TokensInRange(rps, calls[..n], tenant);
      LastFill(rps, calls[..n], tenant);
      Distribute(rps, c.now, before[tenant].lastFill, 0.0);
    } else {
      Distribute(rps, c.now, c.created, 0.0);
    }
  }

  /* ---- What the tokens count ---- */

  predicate AllBy(calls: seq<Call>, t: real) {
    forall i :: 0 <= i < |calls| ==> calls[i].now <= t
  }

  /** Admitted calls since `t1` and tokens left are at most what the window allows. */
  predicate Bounded(rps: real, calls: seq<Call>, tenant: seq<byte>, t1: real, t2: real) {
    var buckets, n := After(rps, calls), Count(rps, calls, tenant, t1, t2);
    if tenant in buckets && buckets[tenant].lastFill >= t1 then
      n as real + buckets[tenant].tokens <= Capacity(rps) + Gain(rps, buckets[tenant].lastFill - t1)
    else n == 0
  }

  lemma {:induction false} TokensBound(rps: real, calls: seq<Call>, tenant: seq<byte>, t1: real, t2: real)
    requires rps >= 0.0 && Clocked(calls) && AllBy(calls, t2)
    ensures Bounded(rps, calls, tenant, t1, t2)
  {
    hide Gain;
    if calls == [] {
    } else {
      var n := |calls| - 1;
      var c, before := calls[n], After(rps, calls[..n]);
      ClockedInit(calls, n);
      TokensBound(rps, calls[..n], tenant, t1, t2);
      if c.tenant == tenant {
        if tenant in before {
          LastFill(rps, calls[..n], tenant);
        }
        var last := Found(before, rps, c).lastFill;
        Distribute(rps, c.now, last, t1);
        Distribute(rps, c.now, t1, t1);
      }
    }
  }

  /** They are exactly that for the window since `s`. */
  predicate FullAt(rps: real, calls: seq<Call>, tenant: seq<byte>, t2: real, s: real) {
    var buckets, n := After(rps, calls), Count(rps, calls, tenant, s, t2);
    && tenant in buckets && s <= buckets[tenant].lastFill
    && n as real + buckets[tenant].tokens == Capacity(rps) + Gain(rps, buckets[tenant].lastFill - s)
  }

  lemma FullStays(rps: real, calls: seq<Call>, c: Call, tenant: seq<byte>, t2: real, s: real)
    requires FullAt(rps, calls, tenant, t2, s) && c.tenant != tenant
    ensures FullAt(rps, calls + [c], tenant, t2, s)
  {
    hide Gain;
    assert (calls + [c])[..|calls|] == calls;
  }

  predicate BecomesFull(b: Bucket, rps: real, now: real) {
    b.tokens + Gain(rps, now - b.lastFill) >= Capacity(rps)
  }

  lemma ClockedBefore(calls: seq<Call>, c: Call)
    requires Clocked(calls + [c])
    ensures Clocked(calls) && AllBy(calls, c.now) && c.created <= c.now
  {
    var all := calls + [c];
    assert all[..|calls|] == calls && all[|calls|] == c;
    ClockedInit(all, |calls|);
    forall i | 0 <= i < |calls| ensures calls[i].now <= c.now {
      assert all[i] == calls[i] && all[i].now <= all[|calls|].created;
    }
  }

  /** When a bucket is full at a call, no call was admitted at that moment before. */
  lemma NoneSince(rps: real, calls: seq<Call>, tenant: seq<byte>, c: Call, t2: real)
    requires rps >= 0.0 && Clocked(calls + [c]) && AllBy(calls, t2) && c.tenant == tenant
    requires BecomesFull(Found(After(rps, calls), rps, c), rps, c.now)
    ensures Count(rps, calls, tenant, c.now, t2) == 0
  {
    hide Gain;
    var buckets := After(rps, calls);
    ClockedBefore(calls, c);
    TokensBound(rps, calls, tenant, c.now, t2);
    if tenant in buckets && buckets[tenant].lastFill >= c.now {
      LastFill(rps, calls, tenant);
      Distribute(rps, c.now, c.now, c.now);
      assert c.now - buckets[tenant].lastFill == 0.0;
    }
  }

  lemma FullNow(rps: real, calls: seq<Call>, c: Call, t2: real)
    requires rps >= 0.0 && Clocked(calls + [c]) && AllBy(calls, t2) && c.now <= t2
    requires BecomesFull(Found(After(rps, calls), rps, c), rps, c.now)
    ensures FullAt(rps, calls + [c], c.tenant, t2, c.now)
  {
    hide Gain, Clocked, AllBy;
    assert (calls + [c])[..|calls|] == calls;
    NoneSince(rps, calls, c.tenant, c, t2);
    Distribute(rps, c.now, c.now, c.now);
    assert c.now - c.now == 0.0;
  }

  /** A new bucket is full. */
  lemma NotNew(rps: real, calls: seq<Call>, c: Call)
    requires rps >= 0.0 && Clocked(calls + [c])
    requires !BecomesFull(Found(After(rps, calls), rps, c), rps, c.now)
    ensures c.tenant in After(rps, calls)
  {
    hide Gain;
    ClockedBefore(calls, c);
    Distribute(rps, c.now, c.created, c.created);
  }

  lemma FullBefore(rps: real, calls: seq<Call>, c: Call, t2: real, s: real)
    requires rps >= 0.0 && Clocked(calls + [c]) && c.now <= t2
    requires FullAt(rps, calls, c.tenant, t2, s)
    requires !BecomesFull(Found(After(rps, calls), rps, c), rps, c.now)
    ensures FullAt(rps, calls + [c], c.tenant, t2, s)
  {
    hide Gain;
    assert (calls + [c])[..|calls|] == calls;
    ClockedBefore(calls, c);
    LastFill(rps, calls, c.tenant);
    Distribute(rps, c.now, After(rps, calls)[c.tenant].lastFill, s);
  }

  /** There is such a window: the one since the bucket was last full. */
  lemma {:induction false} LastFull(rps: real, calls: seq<Call>, tenant: seq<byte>, t2: real) returns (s: real)
    requires rps >= 0.0 && Clocked(calls) && AllBy(calls, t2) && tenant in After(rps, calls)
    ensures FullAt(rps, calls, tenant, t2, s)
  {
    hide Gain, FullAt, Clocked;
    var n := |calls| - 1;
    var c, before := calls[n], After(rps, calls[..n]);
    assert calls == calls[..n] + [c];
    ClockedInit(calls, n);
    if c.tenant != tenant {
      s := LastFull(rps, calls[..n], tenant, t2);
      FullStays(rps, calls[..n], c, tenant, t2, s);
    } else if BecomesFull(Found(before, rps, c), rps, c.now) {
      s := c.now;
      FullNow(rps, calls[..n], c, t2);
    } else {
      NotNew(rps, calls[..n], c);
      s := LastFull(rps, calls[..n], tenant, t2);
      FullBefore(rps, calls[..n], c, t2, s);
    }
  }

  /** With the call, the window that begins at `t1` holds no more than fills it. */
  predicate Fits(rps: real, calls: seq<Call>, c: Call, t1: real) {
    Count(rps, calls, c.tenant, t1, c.now) as real + 1.0 <= Capacity(rps) + Gain(rps, c.now - t1)
  }

  lemma AdmittedHasRoom(rps: real, calls: seq<Call>, c: Call, t1: real)
    requires rps >= 0.0 && Clocked(calls + [c]) && t1 <= c.now
    requires Admits(After(rps, calls), rps, c)
    ensures Fits(rps, calls, c, t1)
  {
    hide Gain;
    ClockedBefore(calls, c);
    TokensBound(rps, calls, c.tenant, t1, c.now);
    Distribute(rps, c.now, Found(After(rps, calls), rps, c).lastFill, t1);
    Distribute(rps, c.now, t1, t1);
  }

  lemma RefusedHasNone(rps: real, calls: seq<Call>, c: Call) returns (t1: real)
    requires rps >= 0.0 && Clocked(calls + [c])
    requires !Admits(After(rps, calls), rps, c)
    ensures t1 <= c.now && !Fits(rps, calls, c, t1)
  {
    hide Gain;
    ClockedBefore(calls, c);
    var b := Found(After(rps, calls), rps, c);
    if BecomesFull(b, rps, c.now) {
      t1 := c.now;
      Distribute(rps, c.now, c.now, c.now);
      assert c.now - c.now == 0.0;
    } else {
      NotNew(rps, calls, c);
      LastFill(rps, calls, c.tenant);
      t1 := LastFull(rps, calls, c.tenant, c.now);
      Distribute(rps, c.now, b.lastFill, t1);
    }
  }

  /** The same, in burst and rate. */
  predicate RoomFor(rps: real, calls: seq<Call>, c: Call, t1: real) {
    Count(rps, calls, c.tenant, t1, c.now) as real + 1.0 <= 2.0 * rps + rps * (c.now - t1)
  }

  lemma RoomIsFit(rps: real, calls: seq<Call>, c: Call, t1: real)
    ensures RoomFor(rps, calls, c, t1) <==> Fits(rps, calls, c, t1)
  {
  }

  /** A call is admitted exactly when, with it, no window that ends now holds more calls
      than the burst and the rate allow. */
  lemma AdmittedExactly(rps: real, calls: seq<Call>, c: Call)
    requires rps >= 0.0 && Clocked(calls + [c])
    ensures Admits(After(rps, calls), rps, c) <==> forall t1 :: t1 <= c.now ==> RoomFor(rps, calls, c, t1)
  {
    hide Admits, RoomFor, Fits;
    if Admits(After(rps, calls), rps, c) {
      forall t1 | t1 <= c.now ensures RoomFor(rps, calls, c, t1) {
        AdmittedHasRoom(rps, calls, c, t1);
        RoomIsFit(rps, calls, c, t1);
      }
    } else {
      var t1 := RefusedHasNone(rps, calls, c);
      RoomIsFit(rps, calls, c, t1);
    }
  }

  lemma {:induction false} SameCount(rps: real, calls: seq<Call>, tenant: seq<byte>, t1: real, a: real, b: real)
    requires AllBy(calls, a) && AllBy(calls, b)
    ensures Count(rps, calls, tenant, t1, a) == Count(rps, calls, tenant, t1, b)
  {
    if calls == [] {
    } else {
      SameCount(rps, calls[..|calls| - 1], tenant, t1, a, b);
    }
  }

  lemma OneMoreInWindow(rps: real, calls: seq<Call>, c: Call, t1: real, t2: real)
    requires rps >= 0.0 && Clocked(calls + [c]) && t1 <= c.now <= t2 && Admits(After(rps, calls), rps, c)
    ensures Count(rps, calls, c.tenant, t1, t2) as real + 1.0 <= Capacity(rps) + Gain(rps, t2 - t1)
  {
    AdmittedHasRoom(rps, calls, c, t1);
    hide Gain, After, Admits, Clocked, Count;
    ClockedBefore(calls, c);
    assert AllBy(calls, t2);
    SameCount(rps, calls, c.tenant, t1, c.now, t2);
    Distribute(rps, t2, c.now, t1);
  }

  lemma {:induction false} WindowCount(rps: real, calls: seq<Call>, tenant: seq<byte>, t1: real, t2: real)
    requires rps >= 0.0 && Clocked(calls) && t1 <= t2
    ensures Count(rps, calls, tenant, t1, t2) as real <= Capacity(rps) + Gain(rps, t2 - t1)
  {
    hide Gain;
    Distribute(rps, t2, t1, t1);
    if calls == [] {
    } else {
      var n := |calls| - 1;
      var init, c := calls[..n], calls[n];
      ClockedInit(calls, n);
      WindowCount(rps, init, tenant, t1, t2);
      if Within(c, tenant, t1, t2) && Admits(After(rps, init), rps, c) {
        assert calls == init + [c];
        OneMoreInWindow(rps, init, c, t1, t2);
      }
    }
  }

  /** In any window of any run, the calls admitted for a tenant number at most the burst of
      two seconds and the rate times the length of the window. */
  lemma WindowBound(rps: real, calls: seq<Call>, tenant: seq<byte>, t1: real, t2: real)
    requires rps >= 0.0 && Clocked(calls) && t1 <= t2
    ensures Count(rps, calls, tenant, t1, t2) as real <= 2.0 * rps + rps * (t2 - t1)
  {
    WindowCount(rps, calls, tenant, t1, t2);
  }

  /** Below half a call per second no call is ever admitted. */
  lemma TooSlowForAny(rps: real, buckets: Buckets, c: Call)
    requires rps < 0.5
    ensures !Admits(buckets, rps, c)
  {
  }

  /** A tenant's first call is admitted exactly if the rate is half a call per second or
      more, which makes the capacity one token. */
  lemma FirstCall(rps: real, buckets: Buckets, c: Call)
    requires c.tenant !in buckets && c.created <= c.now
    ensures Admits(buckets, rps, c) <==> rps >= 0.5
  {
    hide Gain;
    Distribute(rps, c.now, c.created, c.created);
    if rps < 0.5 {
      TooSlowForAny(rps, buckets, c);
    }
  }

  /* ---- Tenants do not disturb each other ---- */

  function CallsOf(calls: seq<Call>, tenant: seq<byte>): seq<Call> {
    if calls == [] then []
    else
      var own, c := CallsOf(calls[..|calls| - 1], tenant), calls[|calls| - 1];
      if c.tenant == tenant then own + [c] else own
  }

  /** A tenant's bucket, and so the decision on its next call, is what it would be if no
      other tenant had called. */
  lemma {:induction false} Isolated(rps: real, calls: seq<Call>, tenant: seq<byte>)
    ensures
      var all, own := After(rps, calls), After(rps, CallsOf(calls, tenant));
      && (tenant in all <==> tenant in own)
      && (tenant in all ==> all[tenant] == own[tenant])
    ensures forall c: Call :: c.tenant == tenant ==>
      (Admits(After(rps, calls), rps, c) <==> Admits(After(rps, CallsOf(calls, tenant)), rps, c))
  {
    if calls == [] {
    } else {
      var n := |calls| - 1;
      Isolated(rps, calls[..n], tenant);
      if calls[n].tenant == tenant {
        var own := CallsOf(calls[..n], tenant);
        assert (own + [calls[n]])[..|own|] == own;
      }
    }
  }
}
