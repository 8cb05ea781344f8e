/** Runs of the server on which its documentation is not met, or that a caller may not
    expect. */
module Counterexamples {
  import opened Bytes
  import opened Wrappers
  import opened Scaling
  import opened AuditLayout
  import opened AuditLog
  import opened AuditStore
  import opened Requests
  import opened Service

  /** A tenant that asks for itself. */
  function Of(tenantID: seq<byte>): Names {
    Names(tenantID, tenantID, [71], [82])
  }

  /** At second `s`, with entropy for a reseed that brings no words. */
  function At(s: int): Environment {
    Environment(s, s, s, Some([]), Some([49]), 0)
  }

  /* ---- The interval between reseeds ---- */

  const EIGHT: Policy := Policy(8, 1000)
  const ONE_WORD: Draw := Word([0, 0, 0, 0, 0, 0, 0, 0])
  const START: Gen := Gen([ONE_WORD], 0, 0, 0)

  lemma {:induction false} ZeroBytes(k: nat)
    ensures FromBigEndian(Zeros(k)) == 0
  {
    if k == 0 {
    } else {
      ZeroBytes(k - 1);
      assert Zeros(k)[..k - 1] == Zeros(k - 1);
    }
  }

  /** A coin takes the word that there is. */
  lemma CoinTakesWord()
    ensures Sampled([ONE_WORD], Span(0, 1), 1) == Samples(Some([0]), [])
    ensures Words([ONE_WORD]) == 1 && Words([]) == 0
  {
    SpanCounts(0, 1);
    ThresholdIsRest(2);
    ZeroBytes(8);
    assert ONE_WORD.bytes == Zeros(8);
    assert Value(ONE_WORD.bytes) == 0;
    assert Sampled([ONE_WORD], 2, 0) == Samples(Some([]), [ONE_WORD]);
    assert InRange([ONE_WORD], 2) == Drawn(Some(0), 1);
    assert [] + [0] == [0] && [ONE_WORD][1..] == [];
  }

  lemma CoinMade()
    ensures ValuesMade(EIGHT, START, FIRST, BatchItem(1, 0, 1)) == Made(Some(Offsets(0, [0])), Gen([], 1, 0, 0))
  {
    CoinTakesWord();
    hide Sampled, Span, Offsets, Words;
    assert !Due(EIGHT, START, FIRST);
  }

  /** The coin is answered with the word and without a reseed. */
  lemma CoinEffect(n: Names)
    requires n.Given() && n.Allowed()
    ensures
      var f := GenerateEffect(EIGHT, ANY_TENANT, START, n, FIRST, BatchItem(1, 0, 1));
      f.status == Done && f.g == Gen([], 1, 0, 0)
  {
    CoinMade();
    hide ValuesMade, Words;
    ItemDone(EIGHT, START, n, FIRST, BatchItem(1, 0, 1));
  }

  /** After that a request for a single possible value takes no word, but reseeds. */
  lemma SingleReseeds(n: Names, last: int, at: nat, s: int)
    requires n.Given() && n.Allowed()
    ensures
      var f := GenerateEffect(EIGHT, ANY_TENANT, Gen([], 1, last, at), n, At(s), BatchItem(1, 5, 5));
      f.status == Done && f.g == Gen([], 1, s, 1)
  {
    var g := Gen([], 1, last, at);
    assert OutputBytes(g) == 8;
    assert Refreshed(EIGHT, g, At(s)) == Gen([], 1, s, 1);
    hide Due, Refreshed, ValuesMade, OutputBytes;
    SingleMade(EIGHT, g, At(s), 5);
    ItemDone(EIGHT, g, n, At(s), BatchItem(1, 5, 5));
  }

  /** One value that takes a word, then two that take none, a second apart. */
  function ThreeRequests(n: Names): (rs: seq<Request>)
    ensures |rs| == 3 && AllComplete(rs)
  {
    [GenerateRequest(n, BatchItem(1, 0, 1), FIRST),
     GenerateRequest(n, BatchItem(1, 5, 5), At(1)),
     GenerateRequest(n, BatchItem(1, 5, 5), At(2))]
  }

  lemma Steps(n: Names)
    requires n.Given() && n.Allowed()
    ensures GenAfter(EIGHT, ANY_TENANT, START, ThreeRequests(n)[0]) == Gen([], 1, 0, 0)
    ensures GenAfter(EIGHT, ANY_TENANT, Gen([], 1, 0, 0), ThreeRequests(n)[1]) == Gen([], 1, 1, 1)
    ensures GenAfter(EIGHT, ANY_TENANT, Gen([], 1, 1, 1), ThreeRequests(n)[2]) == Gen([], 1, 2, 1)
  {
    CoinEffect(n);
    SingleReseeds(n, 0, 0, 1);
    SingleReseeds(n, 1, 1, 2);
    hide GenerateEffect;
  }

  lemma OneMoreRequest(p: Policy, keys: StaticKeyStore, g: Gen, rs: seq<Request>, k: nat)
    requires AllComplete(rs) && k < |rs|
    ensures GenAfterAll(p, keys, g, rs[..k + 1]) == GenAfter(p, keys, GenAfterAll(p, keys, g, rs[..k]), rs[k])
    ensures k == 0 ==> GenAfterAll(p, keys, g, rs[..k]) == g
  {
    assert rs[..k + 1][..k] == rs[..k];
  }

  lemma ThreeInARow(p: Policy, keys: StaticKeyStore, g: Gen, rs: seq<Request>)
    requires |rs| == 3 && AllComplete(rs)
    ensures
      var g2 := GenAfter(p, keys, GenAfter(p, keys, g, rs[0]), rs[1]);
      GenAfterAll(p, keys, g, rs[..2]) == g2 && GenAfterAll(p, keys, g, rs) == GenAfter(p, keys, g2, rs[2])
  {
    hide GenAfter, GenAfterAll;
    OneMoreRequest(p, keys, g, rs, 0);
    OneMoreRequest(p, keys, g, rs, 1);
    OneMoreRequest(p, keys, g, rs, 2);
    assert rs[..3] == rs;
  }

  /** With an interval of eight bytes and of a thousand seconds both later requests
      reseed, the second one although nothing has been generated since the first did. */
  lemma IntervalOfEight(n: Names)
    requires n.Given() && n.Allowed()
    ensures
      var g := GenAfterAll(EIGHT, ANY_TENANT, START, ThreeRequests(n)[..2]);
      g == Gen([], 1, 1, 1) && !DocumentedDue(EIGHT, g) && Reseeds(EIGHT, g, At(2))
    ensures GenAfterAll(EIGHT, ANY_TENANT, START, ThreeRequests(n)).lastReseed == 2
  {
    hide GenAfter, GenAfterAll, ThreeRequests;
    Steps(n);
    ThreeInARow(EIGHT, ANY_TENANT, START, ThreeRequests(n));
  }

  method AskOnce(server: Server, n: Names, e: Environment, item: BatchItem) returns (lastReseed: int)
    requires server.Valid()
    modifies server, server.rng, server.chain, server.store
    ensures server.Valid() && lastReseed == server.Current().lastReseed
    ensures server.Current() == GenerateEffect(server.policy, server.keys, old(server.Current()), n, e, item).g
  {
    hide GenerateEffect;
    var reply := server.HandleGenerate(n, e, item);
    lastReseed := server.lastReseed;
  }

  /** The same on the server. */
  method ReseedsAgain(h: Hash, mac: Mac) returns (reseeds: seq<int>)
    ensures reseeds == [0, 1, 2]
  {
    var server := new Server(h, mac, ANY_TENANT, EIGHT, [ONE_WORD], 0);
    var n := Of([65]);
    CoinEffect(n);
    SingleReseeds(n, 0, 0, 1);
    SingleReseeds(n, 1, 1, 2);
    hide GenerateEffect;
    var first := AskOnce(server, n, FIRST, BatchItem(1, 0, 1));
    var second := AskOnce(server, n, At(1), BatchItem(1, 5, 5));
    var third := AskOnce(server, n, At(2), BatchItem(1, 5, 5));
    reseeds := [first, second, third];
  }

  /* ---- A batch that is refused and stored ---- */

  method RefusedButStored(h: Hash, mac: Mac) returns (status: Status, entries: seq<Record>)
    ensures status == BadRequest && |entries| == 1 && entries[0].content.values == [5]
  {
    var server := new Server(h, mac, ANY_TENANT, EIGHT, [], 0);
    var n := Of([65]);
    TwoItemBatch(n);
    hide BatchEffect;
    var reply := server.HandleGenerateBatch(n, [FIRST, FIRST], [BatchItem(1, 5, 5), BatchItem(0, 5, 5)]);
    status, entries := reply.status, server.store.entries;
    assert entries == entries[0..];
    assert Contents(entries)[0] == entries[0].content;
  }

  /* ---- Two tenants in one round ---- */

  const LONG: Policy := Policy(0x1_0000, 1000)

  lemma SingleEffect(n: Names, g: Gen)
    requires n.Given() && n.Allowed() && g.words == 0 && g.lastReseed == 0
    ensures GenerateEffect(LONG, ANY_TENANT, g, n, FIRST, BatchItem(1, 5, 5)).g == g
    ensures ValuesMade(LONG, g, FIRST, BatchItem(1, 5, 5)).values == Some([5])
  {
    assert OutputBytes(g) == 0;
    assert Refreshed(LONG, g, FIRST) == g && !Due(LONG, g, FIRST);
    hide Due, Refreshed, ValuesMade, OutputBytes;
    SingleMade(LONG, g, FIRST, 5);
    ItemDone(LONG, g, n, FIRST, BatchItem(1, 5, 5));
  }

  lemma CanAsk(tenantID: seq<byte>)
    requires tenantID != []
    ensures
      var n := Of(tenantID);
      n.ctx == n.tenantID == tenantID && n.gameID != [] && n.roundID == [82] && n.Given() && n.Allowed()
    ensures [42] in ANY_TENANT.keys && FIRST.requestID == Some([49])
  {
  }

  method AskForValue(server: Server, tenantID: seq<byte>) returns (r: Record)
    requires server.Valid() && tenantID != [] && server.policy == LONG && server.keys == ANY_TENANT
    requires server.Current() == Gen([], 0, 0, 0)
    modifies server, server.rng, server.chain, server.store
    ensures server.Valid() && server.Current() == Gen([], 0, 0, 0)
    ensures r.content.tenantID == tenantID && r.content.roundID == [82]
    ensures server.store.entries == old(server.store.entries) + [r]
  {
    hide *;
    CanAsk(tenantID);
    SingleEffect(Of(tenantID), Gen([], 0, 0, 0));
    var reply := server.HandleGenerate(Of(tenantID), FIRST, BatchItem(1, 5, 5));
    r := reply.entries[0];
  }

  lemma KeepsBoth(a: Record, b: Record, keep: Record -> bool)
    requires keep(a) && keep(b)
    ensures Filtered([a, b], keep) == [a, b]
  {
    assert [a, b][..1] == [a] && [a][..0] == [];
  }

  lemma KeepsSecond(a: Record, b: Record, keep: Record -> bool)
    requires !keep(a) && keep(b)
    ensures Filtered([a, b], keep) == [b]
  {
    assert [a, b][..1] == [a] && [a][..0] == [];
  }

  /** Tenant 65 asks for the round and is given the entry of tenant 66 as well; the chain
      of tenant 66 does not verify, unless the first entry is hashed to zeros. */
  method TwoTenants(h: Hash, mac: Mac) returns (found: seq<Record>, verified: bool)
    ensures |found| == 2 && found[0].content.tenantID == [65] && found[1].content.tenantID == [66]
    ensures Hashed(found[0]).Some? && (verified <==> h(Hashed(found[0]).value) == Zeros(32))
  {
    var server := new Server(h, mac, ANY_TENANT, LONG, [], 0);
    var first := AskForValue(server, [65]);
    var second := AskForValue(server, [66]);
    assert server.store.entries == [first, second];
    var valid;
    found, valid := server.HandleAuditRound([65], [82]);
    KeepsBoth(first, second, (r: Record) => r.content.roundID == [82]);
    verified := server.store.VerifyChain(h, [66]);
    KeepsSecond(first, second, (r: Record) => r.content.tenantID == [66]);
    SecondTenantFails(h, first, second);
  }

  /* ---- A change that is not detected ---- */

  /** The one entry that a new server has stored is given another game: what was stored
      verifies, and so does what is there now. */
  method GameChanged(h: Hash, mac: Mac) returns (stored: seq<Record>, changed: seq<Record>)
    ensures |stored| == |changed| == 1 && stored != changed
    ensures Verifies(h, stored, ZERO_HASH) && Verifies(h, changed, ZERO_HASH)
    ensures stored[0].content.gameID != changed[0].content.gameID
  {
    var server := new Server(h, mac, ANY_TENANT, LONG, [], 0);
    var r := AskForValue(server, [65]);
    stored := server.store.entries;
    assert stored == [r];
    var r' := r.(content := r.content.(gameID := r.content.gameID + [71]));
    changed := [r'];
    assert |r'.content.gameID| == |r.content.gameID| + 1;
    AgreeingIsAccepted(h, stored, changed, ZERO_HASH);
  }
}
