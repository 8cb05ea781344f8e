/** The gateway's request handlers over one generator, one chain and one store, and what
    every sequential run of requests keeps. */
module Service {
  import opened Bytes
  import opened Wrappers
  import opened Scaling
  import Hex
  import opened AuditLayout
  import opened AuditLog
  import opened AuditStore
  import opened Requests
  import Shuffle

  /* ---- Values ---- */

  lemma {:induction false} SampledFails(tape: seq<Draw>, span: u64, i: nat, count: nat)
    requires i <= count && Sampled(tape, span, i).values.None?
    ensures Sampled(tape, span, count) == Sampled(tape, span, i)
  {
    hide InRange, Words;
    if i == count {
    } else {
      SampledFails(tape, span, i, count - 1);
      assert Sampled(tape, span, count) == Sampled(tape, span, count - 1);
    }
  }

  /** `make` and the loop that fills it. */
  method SampleValues(rng: Rng, count: nat, min: int64, max: int64) returns (values: Option<seq<int64>>)
    requires rng.Valid()
    modifies rng
    ensures rng.Valid() && rng.Promised() == old(rng.Promised())
    ensures
      var s := Sampled(old(rng.tape), Span(min, max), count);
      && rng.tape == s.rest
      && values == (if s.values.Some? then Some(Offsets(min, s.values.value)) else None)
  {
    hide InRange, Span, ScaledValue, Words;
    ghost var tape := rng.tape;
    var span := Span(min, max);
    ghost var ns := [];
    var filled: seq<int64> := [];
    for i := 0 to count
      invariant rng.Valid() && rng.Promised() == old(rng.Promised())
      invariant Sampled(tape, span, i) == Samples(Some(ns), rng.tape)
      invariant filled == Offsets(min, ns)
    {
      var n := RandRange(rng, span);
      if n.None? {
        SampledFails(tape, span, i + 1, count);
        return None;
      }
      ns := ns + [n.value];
      filled := filled + [ScaledValue(min, n.value)];
    }
    values := Some(filled);
  }

  method MinInt64(s: seq<int64>) returns (m: int64)
    ensures s == [] ==> m == 0
    ensures s != [] ==> m in s && forall v :: v in s ==> m <= v
  {
    if |s| == 0 {
      return 0;
    }
    m := s[0];
    for i := 1 to |s|
      invariant m in s[..i] && forall v :: v in s[..i] ==> m <= v
    {
      if s[i] < m {
        m := s[i];
      }
      assert s[..i + 1] == s[..i] + [s[i]];
    }
    assert s[..|s|] == s;
  }

  method MaxInt64(s: seq<int64>) returns (m: int64)
    ensures s == [] ==> m == 0
    ensures s != [] ==> m in s && forall v :: v in s ==> v <= m
  {
    if |s| == 0 {
      return 0;
    }
    m := s[0];
    for i := 1 to |s|
      invariant m in s[..i] && forall v :: v in s[..i] ==> v <= m
    {
      if s[i] > m {
        m := s[i];
      }
      assert s[..i + 1] == s[..i] + [s[i]];
    }
    assert s[..|s|] == s;
  }

  method NewDeck(items: seq<int64>) returns (deck: array<int>)
    ensures fresh(deck) && deck.Length == |items| && deck[..] == items
  {
    deck := new int[|items|](i requires 0 <= i < |items| => items[i]);
  }

  /** The cards of a deck as values again. */
  method FromDeck(deck: array<int>, ghost items: seq<int64>) returns (values: seq<int64>)
    requires multiset(deck[..]) == multiset(items)
    ensures values == CardsOf(deck[..], items)
  {
    hide ToInt64;
    values := [];
    for i := 0 to deck.Length
      invariant |values| == i && forall k :: 0 <= k < i ==> values[k] == ToInt64(deck[k])
    {
      values := values + [ToInt64(deck[i])];
    }
  }

  method ShuffleCards(rng: Rng, cards: seq<int64>) returns (ok: bool, shuffled: seq<int64>)
    requires 0 < |cards| < W64 && rng.Valid()
    modifies rng
    ensures rng.Valid() && rng.Promised() == old(rng.Promised())
    ensures
      var s := ShuffledCards(cards, old(rng.tape));
      ok == s.ok && (ok ==> shuffled == CardsOf(s.deck, cards)) && rng.tape == s.rest
  {
    ghost var s := ShuffledCards(cards, rng.tape);
    hide Shuffle.Shuffled, CardsOf, Words;
    var deck := NewDeck(cards);
    ok := Shuffle.Shuffle(rng, deck);
    shuffled := [];
    if ok {
      assert deck[..] == s.deck;
      shuffled := FromDeck(deck, cards);
    }
  }

  predicate GoodContent(c: Content) {
    c.valueCount == |c.values| && forall v :: v in c.values ==> c.minValue <= v <= c.maxValue
  }

  /** The least and the greatest value are recorded with the cards. */
  method DescribeCards(n: Names, e: Environment, id: seq<byte>, values: seq<int64>) returns (c: Content)
    requires values != []
    ensures RecordsCards(c, n, e, id, values) && GoodContent(c)
  {
    var min := MinInt64(values);
    var max := MaxInt64(values);
    c := Content(n.tenantID, n.gameID, n.roundID, id, values, |values|, min, max, e.now, false);
  }

  /* ---- What is kept ---- */

  /** The signature is the tenant's, the count is right, the values lie in the bounds. */
  predicate GoodRecord(mac: Mac, keys: StaticKeyStore, r: Record) {
    var key := keys.SigningKey(r.content.tenantID);
    && key.Some? && SignatureValid(mac, key.value, r)
    && GoodContent(r.content)
  }

  /** The entries verify from the zero hash, and every one of them is good. */
  ghost predicate StoreValid(h: Hash, mac: Mac, keys: StaticKeyStore, rs: seq<Record>) {
    && Verifies(h, rs, ZERO_HASH)
    && forall i :: 0 <= i < |rs| ==> GoodRecord(mac, keys, rs[i])
  }

  /** Every tip is the text of a hash. */
  lemma TipDecodes(h: Hash, mac: Mac, keys: StaticKeyStore, rs: seq<Record>)
    requires StoreValid(h, mac, keys, rs)
    ensures
      var tip := LinkBefore(rs, |rs|, ZERO_HASH);
      Hex.DecodeString(tip).Some? && |tip| == 64
  {
    ZeroHashDecodes();
    if rs != [] {
      assert Intact(h, rs, |rs| - 1, ZERO_HASH);
      Hex.DecodeEncodedString(h(Hashed(rs[|rs| - 1]).value));
    }
  }

  lemma StoreAppend(h: Hash, mac: Mac, keys: StaticKeyStore, rs: seq<Record>, r: Record)
    requires StoreValid(h, mac, keys, rs) && GoodRecord(mac, keys, r)
    requires r.prevHash == LinkBefore(rs, |rs|, ZERO_HASH) && HashValid(h, r)
    ensures StoreValid(h, mac, keys, rs + [r])
    ensures LinkBefore(rs + [r], |rs| + 1, ZERO_HASH) == r.entryHash
  {
    hide HashValid, GoodRecord;
    var all := rs + [r];
    forall i | 0 <= i < |all| ensures Intact(h, all, i, ZERO_HASH) {
      if i < |rs| {
        assert Intact(h, rs, i, ZERO_HASH);
      }
    }
  }

  /** Signed as a good record, and not yet sealed, perhaps. */
  predicate SignedGood(mac: Mac, keys: StaticKeyStore, r: Record) {
    GoodRecord(mac, keys, r) && |r.signature| == 64
  }

  lemma SignedIsGood(mac: Mac, keys: StaticKeyStore, r: Record, key: seq<byte>)
    requires keys.SigningKey(r.content.tenantID) == Some(key) && SignatureValid(mac, key, r)
    requires GoodContent(r.content) && |r.signature| == 64
    ensures SignedGood(mac, keys, r)
  {
  }

  lemma SignedNotEmpty(mac: Mac, keys: StaticKeyStore, r: Record)
    requires SignedGood(mac, keys, r)
    ensures r.signature != []
  {
  }

  /** A signed record that is linked to the tip can be hashed; hashed and appended, it
      keeps the store valid. */
  lemma SealedKeeps(h: Hash, mac: Mac, keys: StaticKeyStore, rs: seq<Record>, r: Record, s: Record)
    requires StoreValid(h, mac, keys, rs) && SignedGood(mac, keys, r)
    requires s.content == r.content && s.signature == r.signature
    requires s.prevHash == LinkBefore(rs, |rs|, ZERO_HASH)
    ensures Hashed(s).Some? && s.prevHash != []
    ensures HashValid(h, s) ==>
      && StoreValid(h, mac, keys, rs + [s]) && s.entryHash != []
      && LinkBefore(rs + [s], |rs| + 1, ZERO_HASH) == s.entryHash
  {
    TipDecodes(h, mac, keys, rs);
    var key := keys.SigningKey(s.content.tenantID).value;
    assert SignatureValid(mac, key, r);
    SealableExactly(s, mac, key);
    if HashValid(h, s) {
      StoreAppend(h, mac, keys, rs, s);
      assert StoreValid(h, mac, keys, rs + [s]);
      TipDecodes(h, mac, keys, rs + [s]);
    }
  }

  /** What is recorded for an item is good. */
  lemma MadeIsGood(p: Policy, g: Gen, n: Names, e: Environment, item: BatchItem)
    requires 0 <= item.count && item.min <= item.max
    ensures
      var values := ValuesMade(p, g, e, item).values;
      values.Some? && e.requestID.Some? ==> GoodContent(ItemContent(n, e, e.requestID.value, item, values.value))
  {
    hide Sampled;
    SampledInBounds(Refreshed(p, g, e).tape, item.min, item.max, item.count);
  }

  function Contents(rs: seq<Record>): (cs: seq<Content>)
    ensures |cs| == |rs|
  {
    seq(|rs|, i requires 0 <= i < |rs| => rs[i].content)
  }

  lemma EachContent(rs: seq<Record>)
    ensures forall i :: 0 <= i < |rs| ==> Contents(rs)[i] == rs[i].content
  {
  }

  lemma OneMore(rs: seq<Record>, r: Record)
    ensures Contents(rs + [r]) == Contents(rs) + [r.content]
  {
  }

  lemma NoContents()
    ensures Contents([]) == []
  {
  }

  lemma OneContent(rs: seq<Record>)
    requires |rs| == 1
    ensures Contents(rs) == [rs[0].content]
  {
  }

  lemma ContentsConcat(rs: seq<Record>, more: seq<Record>)
    ensures Contents(rs + more) == Contents(rs) + Contents(more)
  {
  }

  lemma OnlyOfContents(rs: seq<Record>, tenantID: seq<byte>, roundID: seq<byte>)
    ensures OnlyOf(Contents(rs), tenantID, roundID) <==>
      forall r :: r in rs && r.content.roundID == roundID ==> r.content.tenantID == tenantID
  {
    assert forall i :: 0 <= i < |rs| ==> Contents(rs)[i] == rs[i].content;
    forall r | r in rs ensures r.content in Contents(rs) {
      var i :| 0 <= i < |rs| && rs[i] == r;
      assert Contents(rs)[i] == r.content;
    }
  }

  predicate AllMadeBy(rs: seq<Record>, r: Request)
    requires r.Complete()
  {
    forall i :: 0 <= i < |rs| ==> Tells(rs[i].content, r)
  }

  lemma RecordedFor(rs: seq<Record>, r: Request)
    requires r.Complete() && AllTell(Contents(rs), r)
    ensures AllMadeBy(rs, r)
  {
    hide Tells;
    forall i | 0 <= i < |rs| ensures Tells(rs[i].content, r) {
      assert Contents(rs)[i] == rs[i].content;
    }
  }

  predicate MadeBy(r: Record, requests: seq<Request>)
    requires AllComplete(requests)
  {
    exists i :: 0 <= i < |requests| && Tells(r.content, requests[i])
  }

  /** From `start` on, every entry tells of one of the first `n` requests. */
  predicate Authored(rs: seq<Record>, start: nat, requests: seq<Request>, n: nat)
    requires AllComplete(requests)
  {
    n <= |requests| && forall k :: start <= k < |rs| ==> MadeBy(rs[k], requests[..n])
  }

  lemma NoneAuthored(rs: seq<Record>, requests: seq<Request>)
    requires AllComplete(requests)
    ensures Authored(rs, |rs|, requests, 0)
  {
  }

  lemma AuthoredStep(rs: seq<Record>, rs': seq<Record>, start: nat, requests: seq<Request>, n: nat)
    requires AllComplete(requests) && n < |requests|
    requires rs <= rs' && start <= |rs| && Authored(rs, start, requests, n)
    requires AllMadeBy(rs'[|rs|..], requests[n])
    ensures Authored(rs', start, requests, n + 1)
  {
    hide Tells;
    forall k | start <= k < |rs'| ensures MadeBy(rs'[k], requests[..n + 1]) {
      if k < |rs| {
        assert MadeBy(rs[k], requests[..n]);
        var i :| 0 <= i < n && Tells(rs[k].content, requests[..n][i]);
        assert requests[..n + 1][i] == requests[i];
      } else {
        assert rs'[|rs|..][k - |rs|] == rs'[k];
        assert requests[..n + 1][n] == requests[n];
      }
    }
  }

  lemma AllAuthored(rs: seq<Record>, start: nat, requests: seq<Request>)
    requires AllComplete(requests) && Authored(rs, start, requests, |requests|)
    ensures forall i :: start <= i < |rs| ==> MadeBy(rs[i], requests)
  {
    hide MadeBy;
    assert requests[..|requests|] == requests;
  }

  /** Every entry is signed by its tenant's own key if there is one, and else by that of
      any tenant, in hexadecimal digits of the code over what is signed. */
  lemma SignedByTenants(h: Hash, mac: Mac, keys: StaticKeyStore, rs: seq<Record>)
    requires StoreValid(h, mac, keys, rs)
    ensures forall r :: r in rs ==>
      if r.content.tenantID in keys.keys then SignatureValid(mac, keys.keys[r.content.tenantID], r)
      else [42] in keys.keys && SignatureValid(mac, keys.keys[[42]], r)
  {
    hide SignatureValid, GoodContent, Verifies;
  }

  /* ---- The server ---- */

  /** The answer to a request, with the entries it tells of. */
  datatype Reply = Reply(status: Status, entries: seq<Record>)

  class Server {
    const h: Hash
    const mac: Mac
    const keys: StaticKeyStore
    const policy: Policy
    const rng: Rng
    const chain: Chain
    const store: InMemoryStore
    var lastReseed: int
    ghost var reseededAt: nat

    /** The store is valid, and its last entry is the tip of the chain. */
    ghost predicate Linked()
      reads chain, store
    {
      && StoreValid(h, mac, keys, store.entries)
      && chain.prevHash == LinkBefore(store.entries, |store.entries|, ZERO_HASH)
    }

    ghost predicate Valid()
      reads this`reseededAt, rng, chain, store
    {
      Linked() && rng.Valid() && reseededAt <= rng.words
    }

    ghost function Current(): Gen
      reads this`lastReseed, this`reseededAt, rng
    {
      Gen(rng.tape, rng.words, lastReseed, reseededAt)
    }

    constructor (h: Hash, mac: Mac, keys: StaticKeyStore, policy: Policy, tape: seq<Draw>, now: int)
      ensures Valid() && store.entries == [] && fresh(rng) && fresh(chain) && fresh(store)
      ensures this.h == h && this.keys == keys && this.policy == policy && Current() == Gen(tape, 0, now, 0)
    {
      this.h, this.mac, this.keys, this.policy := h, mac, keys, policy;
      rng := new Rng(tape);
      chain := new Chain();
      store := new InMemoryStore();
      lastReseed, reseededAt := now, 0;
    }

    method ReseedIfNeeded(e: Environment) returns (ok: bool)
      requires Valid()
      modifies this`lastReseed, this`reseededAt, rng
      ensures Valid() && Current() == Refreshed(policy, old(Current()), e)
      ensures ok <==> Due(policy, old(Current()), e) ==> e.reseeded.Some?
    {
      if rng.outputBytes < policy.intervalOutputs && e.clock1 - lastReseed < policy.intervalSeconds {
        return true;
      }
      if rng.outputBytes < policy.intervalOutputs && e.clock2 - lastReseed < policy.intervalSeconds {
        return true;
      }
      if e.reseeded.None? {
        return false;
      }
      rng.Reseed(e.reseeded.value);
      lastReseed, reseededAt := e.clock3, rng.words;
      ok := true;
    }

    /** Signs, seals and stores one entry, if there is a key for it. */
    method SignSealAppend(content: Content) returns (r: Option<Record>)
      requires Linked() && GoodContent(content)
      modifies chain, store
      ensures Linked()
      ensures r.Some? <==> keys.SigningKey(content.tenantID).Some?
      ensures r.Some? ==> r.value.content == content && store.entries == old(store.entries) + [r.value]
      ensures r.None? ==> store.entries == old(store.entries)
    {
      var key := keys.SigningKey(content.tenantID);
      if key.None? {
        return None;
      }
      var entry := new Entry(content);
      entry.Sign(mac, key.value);
      SignedIsGood(mac, keys, entry.Value(), key.value);
      hide *;
      r := SealAppend(entry);
    }

    method SealAppend(entry: Entry) returns (r: Option<Record>)
      requires Linked() && SignedGood(mac, keys, entry.Value())
      modifies chain, store, entry
      ensures Linked()
      ensures r.Some? && r.value.content == entry.content
      ensures store.entries == old(store.entries) + [r.value]
    {
      hide SignedGood, StoreValid, LinkBefore, Hashed, HashValid;
      ghost var signed, rs := entry.Value(), store.entries;
      assert entry.signature != [] by { SignedNotEmpty(mac, keys, signed); }
      var sealed := chain.Seal(h, entry);
      r := Some(entry.Value());
      SealedKeeps(h, mac, keys, rs, signed, r.value);
      var appended := store.Append(entry);
    }

    /** The values for an item, after a reseed if one is due. */
    method MakeValues(e: Environment, item: BatchItem) returns (values: Option<seq<int64>>)
      requires Valid() && item.count >= 0
      modifies this`lastReseed, this`reseededAt, rng
      ensures Valid() && Made(values, Current()) == ValuesMade(policy, old(Current()), e, item)
    {
      hide Linked, Sampled, Offsets, Span, Due, Words;
      var ok := ReseedIfNeeded(e);
      if !ok {
        return None;
      }
      values := SampleValues(rng, item.count, item.min, item.max);
    }

    /** Stores the requested values, signed and sealed, or nothing. */
    method Generate(n: Names, e: Environment, item: BatchItem) returns (r: Option<Record>)
      requires Valid() && 0 <= item.count && item.min <= item.max
      modifies this`lastReseed, this`reseededAt, rng, chain, store
      ensures Valid()
      ensures
        var f := ItemEffect(policy, keys, old(Current()), n, e, item);
        && Current() == f.g
        && (r.Some? <==> f.status == Done)
        && (r.Some? ==> [r.value.content] == f.contents)
      ensures store.entries == old(store.entries) + (if r.Some? then [r.value] else [])
    {
      ghost var m := ValuesMade(policy, Current(), e, item);
      MadeIsGood(policy, Current(), n, e, item);
      hide ValuesMade, Linked, GoodContent;
      var values := MakeValues(e, item);
      if values.None? || e.requestID.None? {
        return None;
      }
      r := SignSealAppend(ItemContent(n, e, e.requestID.value, item, values.value));
    }

    method HandleGenerate(n: Names, e: Environment, item: BatchItem) returns (reply: Reply)
      requires Valid()
      modifies this`lastReseed, this`reseededAt, rng, chain, store
      ensures Valid() && Current() == GenerateEffect(policy, keys, old(Current()), n, e, item).g
      ensures reply.status == BadRequest <==>
        || n.tenantID == [] || n.gameID == [] || n.roundID == []
        || item.count <= 0 || item.count > 10000 || item.min > item.max
      ensures reply.status == Forbidden <==>
        && n.tenantID != [] && n.gameID != [] && n.roundID != []
        && 0 < item.count <= 10000 && item.min <= item.max && n.ctx != n.tenantID
      ensures reply.status == Done <==>
        && n.ctx == n.tenantID != [] && n.gameID != [] && n.roundID != []
        && 0 < item.count <= 10000 && item.min <= item.max
        && ValuesMade(policy, old(Current()), e, item).values.Some?
        && e.requestID.Some? && (n.tenantID in keys.keys || [42] in keys.keys)
      ensures reply.status == Done ==>
        && |reply.entries| == 1
        && var c := reply.entries[0].content;
        && c.tenantID == n.tenantID && c.gameID == n.gameID && c.roundID == n.roundID
        && c.requestID == e.requestID.value && c.createdAt == e.now && !c.reseedEvent
        && c.values == ValuesMade(policy, old(Current()), e, item).values.value
        && |c.values| == c.valueCount == item.count && c.minValue == item.min && c.maxValue == item.max
        && forall v :: v in c.values ==> item.min <= v <= item.max
      ensures reply.status == Done ==>
        Contents(reply.entries) == GenerateEffect(policy, keys, old(Current()), n, e, item).contents
      ensures reply.status != Done ==> reply.entries == []
      ensures store.entries == old(store.entries) + reply.entries
    {
      ghost var g := Current();
      if n.Given() && n.Allowed() && ItemValid(item) {
        ItemTold(policy, keys, g, n, e, item);
      }
      hide Valid, ItemEffect;
      if !n.Given() || !ItemValid(item) {
        return Reply(BadRequest, []);
      }
      if !n.Allowed() {
        return Reply(Forbidden, []);
      }
      var r := Generate(n, e, item);
      reply := if r.None? then Reply(InternalError, []) else Reply(Done, [r.value]);
    }

    /** The items one after the other; those before the first that is invalid or fails stay
        stored. */
    method HandleGenerateBatch(n: Names, es: seq<Environment>, items: seq<BatchItem>) returns (reply: Reply)
      requires Valid() && |es| == |items|
      modifies this`lastReseed, this`reseededAt, rng, chain, store
      ensures Valid()
      ensures
        var f := BatchEffect(policy, keys, old(Current()), n, es, items);
        && Current() == f.g && reply.status == f.status
        && old(store.entries) <= store.entries
        && Contents(store.entries[|old(store.entries)|..]) == f.contents
        && reply.entries == (if reply.status == Done then store.entries[|old(store.entries)|..] else [])
      ensures reply.status == Forbidden <==>
        n.tenantID != [] && n.gameID != [] && n.roundID != [] && n.ctx != n.tenantID
      ensures n.tenantID == [] || n.gameID == [] || n.roundID == [] ==> reply.status == BadRequest
      ensures n.ctx == n.tenantID && (|items| == 0 || |items| > 100) ==> reply.status == BadRequest
      ensures
        var stored := store.entries[|old(store.entries)|..];
        && |stored| <= |items|
        && (stored != [] ==>
             n.ctx == n.tenantID != [] && n.gameID != [] && n.roundID != [] && |items| <= 100)
        && forall i :: 0 <= i < |stored| ==>
             var c := stored[i].content;
             && c.tenantID == n.tenantID && c.gameID == n.gameID && c.roundID == n.roundID
             && es[i].requestID == Some(c.requestID) && c.createdAt == es[i].now && !c.reseedEvent
             && 0 < |c.values| == c.valueCount == items[i].count <= 10000
             && c.minValue == items[i].min && c.maxValue == items[i].max
             && forall v :: v in c.values ==> items[i].min <= v <= items[i].max
    {
      hide Valid, ItemsEffect, ItemEffect, Contents;
      ghost var g, before := Current(), store.entries;
      NoContents();
      assert before[|before|..] == [];
      if !n.Given() {
        return Reply(BadRequest, []);
      }
      if !n.Allowed() {
        return Reply(Forbidden, []);
      }
      if |items| == 0 || |items| > 100 {
        return Reply(BadRequest, []);
      }
      reply := AnswerItems(n, es, items);
      ItemsTold(policy, keys, g, n, es, items);
      ItemsStatus(policy, keys, g, n, es, items);
      EachContent(store.entries[|before|..]);
    }

    method AnswerItems(n: Names, es: seq<Environment>, items: seq<BatchItem>) returns (reply: Reply)
      requires Valid() && |es| == |items|
      modifies this`lastReseed, this`reseededAt, rng, chain, store
      ensures Valid()
      ensures
        var f := ItemsEffect(policy, keys, old(Current()), n, es, items);
        && Current() == f.g && reply.status == f.status
        && old(store.entries) <= store.entries
        && Contents(store.entries[|old(store.entries)|..]) == f.contents
        && reply.entries == (if reply.status == Done then store.entries[|old(store.entries)|..] else [])
    {
      hide Valid, ItemsEffect, ItemEffect, Contents;
      ghost var g, before := Current(), store.entries;
      var results: seq<Record> := [];
      NoneAnswered(policy, keys, g, n, es, items);
      for i := 0 to |items|
        invariant Valid() && store.entries == before + results
        invariant Answered(policy, keys, g, n, es, items, i, Current(), Contents(results))
      {
        Answering(policy, keys, g, n, es, items, i, Current(), Contents(results));
        if !ItemValid(items[i]) {
          return Reply(BadRequest, []);
        }
        var r := Generate(n, es[i], items[i]);
        if r.None? {
          assert store.entries[|before|..] == results;
          return Reply(InternalError, []);
        }
        OneMore(results, r.value);
        results := results + [r.value];
      }
      AllAnswered(policy, keys, g, n, es, items, Current(), Contents(results));
      reply := Reply(Done, results);
    }

    method HandleShuffle(n: Names, e: Environment, cards: seq<int64>) returns (reply: Reply)
      requires Valid()
      modifies this`lastReseed, this`reseededAt, rng, chain, store
      ensures Valid() && Current() == GenAfter(policy, keys, old(Current()), ShuffleRequest(n, cards, e))
      ensures reply.status == BadRequest <==>
        || n.tenantID == [] || n.gameID == [] || n.roundID == []
        || (n.ctx == n.tenantID && (cards == [] || |cards| > 10000))
      ensures reply.status == Forbidden <==>
        n.tenantID != [] && n.gameID != [] && n.roundID != [] && n.ctx != n.tenantID
      ensures reply.status == Done <==>
        && n.ctx == n.tenantID != [] && n.gameID != [] && n.roundID != [] && 0 < |cards| <= 10000
        && CardsMade(policy, old(Current()), e, cards).values.Some?
        && e.requestID.Some? && (n.tenantID in keys.keys || [42] in keys.keys)
      ensures reply.status == Done ==>
        && |reply.entries| == 1
        && var c := reply.entries[0].content;
        && c.tenantID == n.tenantID && c.gameID == n.gameID && c.roundID == n.roundID
        && c.requestID == e.requestID.value && c.createdAt == e.now && !c.reseedEvent
        && c.values == CardsMade(policy, old(Current()), e, cards).values.value
        && multiset(c.values) == multiset(cards) && c.valueCount == |cards|
        && c.minValue in cards && c.maxValue in cards && forall v :: v in cards ==> c.minValue <= v <= c.maxValue
      ensures reply.status == Done ==>
        Contents(reply.entries) == Stored(policy, keys, old(Current()), ShuffleRequest(n, cards, e))
      ensures reply.status != Done ==> reply.entries == []
      ensures store.entries == old(store.entries) + reply.entries
    {
      ghost var g := Current();
      CardsAnswered(policy, keys, g, n, e, cards);
      hide Linked, GoodContent, CardsMade, Stored, CardsContent, Contents;
      if !n.Given() {
        return Reply(BadRequest, []);
      }
      if !n.Allowed() {
        return Reply(Forbidden, []);
      }
      if |cards| == 0 || |cards| > 10000 {
        return Reply(BadRequest, []);
      }
      var values := MakeCards(e, cards);
      if values.None? || e.requestID.None? {
        return Reply(InternalError, []);
      }
      var content := DescribeCards(n, e, e.requestID.value, values.value);
      CardsContentOnly(content, n, e, e.requestID.value, values.value);
      var r := SignSealAppend(content);
      reply := if r.None? then Reply(InternalError, []) else Reply(Done, [r.value]);
      if r.Some? {
        OneContent(reply.entries);
      }
    }

    /** The cards in a new order, after a reseed if one is due. */
    method MakeCards(e: Environment, cards: seq<int64>) returns (values: Option<seq<int64>>)
      requires Valid() && 0 < |cards| < W64
      modifies this`lastReseed, this`reseededAt, rng
      ensures Valid() && Made(values, Current()) == CardsMade(policy, old(Current()), e, cards)
      ensures values.Some? ==> values.value != []
    {
      hide Linked, Shuffle.Shuffled, ShuffledCards, CardsOf, Due, Words;
      var ok := ReseedIfNeeded(e);
      if !ok {
        return None;
      }
      var done, shuffled := ShuffleCards(rng, cards);
      values := if done then Some(shuffled) else None;
    }

    /** The entries of a round, whoever asks, and whether they verify from the first one's
        link: they do exactly when no other round's entry stands between them. */
    method HandleAuditRound(ctx: seq<byte>, roundID: seq<byte>) returns (found: seq<Record>, chainValid: bool)
      requires Valid()
      ensures forall r :: r in found <==> r in store.entries && r.content.roundID == roundID
      ensures found == Filtered(store.entries, (r: Record) => r.content.roundID == roundID)
      ensures (forall r :: r in found ==> r.content.tenantID == ctx) <==>
        !exists r :: r in store.entries && r.content.roundID == roundID && r.content.tenantID != ctx
      ensures AllFit(store.entries) && !Excused(h, store.entries, ZERO_HASH) ==>
        (chainValid <==> found != [] && exists p: nat :: Contiguous(store.entries, p, found))
    {
      found := store.GetByRound(roundID);
      FilteredMembers(store.entries, (r: Record) => r.content.roundID == roundID);
      chainValid := false;
      if |found| > 0 {
        var bad := VerifyEntries(h, found, found[0].prevHash);
        chainValid := bad == -1;
        if AllFit(store.entries) {
          assert |ZERO_HASH| == 64;
          RoundVerifies(h, store.entries, ZERO_HASH, (r: Record) => r.content.roundID == roundID);
        }
      }
    }

    method Handle(r: Request)
      requires Valid() && r.Complete()
      modifies this`lastReseed, this`reseededAt, rng, chain, store
      ensures Valid() && Current() == GenAfter(policy, keys, old(Current()), r)
      ensures old(store.entries) <= store.entries
      ensures Contents(store.entries[|old(store.entries)|..]) == Stored(policy, keys, old(Current()), r)
    {
      hide Valid, BatchEffect, CardsMade, ValuesMade, Contents;
      ghost var before := store.entries;
      match r {
        case GenerateRequest(n, item, e) =>
          var reply := HandleGenerate(n, e, item);
          NoContents();
          assert store.entries[|before|..] == reply.entries;
        case BatchRequest(n, items, es) =>
          var reply := HandleGenerateBatch(n, es, items);
        case ShuffleRequest(n, cards, e) =>
          ghost var g := Current();
          var reply := HandleShuffle(n, e, cards);
          NoContents();
          assert store.entries[|before|..] == reply.entries;
          CardsAnswered(policy, keys, g, n, e, cards);
        case AuditRequest(ctx, roundID) =>
          var found, valid := HandleAuditRound(ctx, roundID);
          NoContents();
          assert store.entries[|before|..] == [];
      }
    }

    /** Any run of requests from a valid state, so from genesis: the entries verify from
        the zero hash, each is signed by its tenant's key with its count and bounds, the
        store's latest hash is the tip of the chain, nothing stored is ever lost, and
        generator and stored contents are those specified. */
    method Serve(requests: seq<Request>) returns (latest: text)
      requires Valid() && AllComplete(requests)
      modifies this`lastReseed, this`reseededAt, rng, chain, store
      ensures Valid() && old(store.entries) <= store.entries
      ensures StoreValid(h, mac, keys, store.entries)
      ensures latest == chain.prevHash == LinkBefore(store.entries, |store.entries|, ZERO_HASH)
      ensures forall i :: |old(store.entries)| <= i < |store.entries| ==> MadeBy(store.entries[i], requests)
      ensures forall r :: r in store.entries ==>
        if r.content.tenantID in keys.keys then SignatureValid(mac, keys.keys[r.content.tenantID], r)
        else [42] in keys.keys && SignatureValid(mac, keys.keys[[42]], r)
      ensures Current() == GenAfterAll(policy, keys, old(Current()), requests)
      ensures Contents(store.entries[|old(store.entries)|..]) == AllStored(policy, keys, old(Current()), requests)
    {
      hide StoreValid, Verifies, LinkBefore, Authored, AllMadeBy, MadeBy, SignatureValid, GenAfter, Stored, Contents;
      ghost var start, g := |store.entries|, Current();
      NoneAuthored(store.entries, requests);
      NoContents();
      assert requests[..0] == [] && store.entries[start..] == [];
      for k := 0 to |requests|
        invariant Valid() && old(store.entries) <= store.entries
        invariant Authored(store.entries, start, requests, k)
        invariant Current() == GenAfterAll(policy, keys, g, requests[..k])
        invariant Contents(store.entries[start..]) == AllStored(policy, keys, g, requests[..k])
      {
        ghost var before, now := store.entries, Current();
        Handle(requests[k]);
        ghost var more := store.entries[|before|..];
        StoredTells(policy, keys, now, requests[k]);
        RecordedFor(more, requests[k]);
        AuthoredStep(before, store.entries, start, requests, k);
        assert requests[..k + 1][..k] == requests[..k];
        assert store.entries[start..] == before[start..] + more;
        ContentsConcat(before[start..], more);
      }
      assert requests[..|requests|] == requests;
      AllAuthored(store.entries, start, requests);
      SignedByTenants(h, mac, keys, store.entries);
      latest := store.LatestHash();
    }

    /** After any run from genesis, the answer to a question for a round holds only entries
        of the tenant that asks exactly if no request of another tenant for this round has
        stored anything. */
    method ServeThenAudit(requests: seq<Request>, ctx: seq<byte>, roundID: seq<byte>)
      returns (found: seq<Record>, chainValid: bool)
      requires Valid() && store.entries == [] && AllComplete(requests)
      modifies this`lastReseed, this`reseededAt, rng, chain, store
      ensures Valid()
      ensures (forall r :: r in found ==> r.content.tenantID == ctx) <==>
        forall i :: 0 <= i < |requests| && requests[i].Round() == roundID && requests[i].Ctx() != ctx ==>
          StoresNothing(policy, keys, old(Current()), requests, i)
    {
      ghost var g := Current();
      hide Valid, Contents, StoresNothing, StoreValid, Verifies, MadeBy, SignatureValid;
      var latest := Serve(requests);
      assert store.entries[0..] == store.entries;
      found, chainValid := HandleAuditRound(ctx, roundID);
      OnlyOfContents(store.entries, ctx, roundID);
      OnlyOfExactly(policy, keys, g, requests, ctx, roundID);
    }
  }
}
