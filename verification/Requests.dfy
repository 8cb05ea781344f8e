/** What a request finds and what it does: when the generator is reseeded, which values
    come out of it, and which entries are stored, with the reply. */
module Requests {
  import opened Bytes
  import opened Wrappers
  import opened Scaling
  import opened AuditLayout
  import Shuffle

  /* ---- Keys ---- */

  const WILDCARD: seq<byte> := [42]

  /** Signing keys by tenant, with a wildcard to fall back on. */
  datatype StaticKeyStore = StaticKeyStore(keys: map<seq<byte>, seq<byte>>)
  {
    function SigningKey(tenantID: seq<byte>): Option<seq<byte>> {
      if tenantID in keys then Some(keys[tenantID])
      else if WILDCARD in keys then Some(keys[WILDCARD])
      else None
    }
  }

  /* ---- Values ---- */

  /** The int64 with the same bits. */
  function ToInt64(n: int): int64 {
    (n + 0x8000_0000_0000_0000) % W64 - 0x8000_0000_0000_0000
  }

  function Span(min: int64, max: int64): u64 {
    (ToUint64(ToInt64(max - min)) + 1) % W64
  }

  function ScaledValue(min: int64, n: u64): int64 {
    ToInt64(min + ToInt64(n))
  }

  /** Despite the wrap-around, the span is the number of values between the bounds, or
      zero if that is 2^64. */
  lemma SpanCounts(min: int64, max: int64)
    requires min <= max
    ensures Span(min, max) == if max - min == W64 - 1 then 0 else max - min + 1
  {
  }

  /** And adding the minimum back wraps to the value itself. */
  lemma ScaledInBounds(min: int64, max: int64, n: u64)
    requires min <= max && n <= max - min
    ensures ScaledValue(min, n) == min + n
  {
  }

  /** Results of a number of samplings in a row, unless one failed, and the rest of the
      tape. */
  datatype Samples = Samples(values: Option<seq<u64>>, rest: seq<Draw>)

  function Sampled(tape: seq<Draw>, span: u64, count: nat): (s: Samples)
    ensures s.values.Some? ==> |s.values.value| == count
    ensures s.values.Some? ==> forall i :: 0 <= i < count ==> s.values.value[i] < span
    ensures Words(s.rest) <= Words(tape)
  {
    if count == 0 then Samples(Some([]), tape)
    else
      var s := Sampled(tape, span, count - 1);
      if s.values.None? then s
      else
        var d := InRange(s.rest, span);
        var values := if d.value.None? then None else Some(s.values.value + [d.value.value]);
        WordsOfRest(s.rest, d.used);
        Samples(values, s.rest[d.used..])
  }

  function Offsets(min: int64, ns: seq<u64>): (values: seq<int64>)
    ensures |values| == |ns|
  {
    seq(|ns|, i requires 0 <= i < |ns| => ScaledValue(min, ns[i]))
  }

  /** All values lie between the bounds; over all int64 values none is returned. */
  lemma SampledInBounds(tape: seq<Draw>, min: int64, max: int64, count: nat)
    requires min <= max
    ensures
      var s := Sampled(tape, Span(min, max), count);
      s.values.Some? ==>
        forall i :: 0 <= i < count ==>
          Offsets(min, s.values.value)[i] == min + s.values.value[i] <= max
    ensures count > 0 && max - min == W64 - 1 ==> Sampled(tape, Span(min, max), count).values.None?
  {
    SpanCounts(min, max);
    var s := Sampled(tape, Span(min, max), count);
    if s.values.Some? {
      forall i | 0 <= i < count ensures Offsets(min, s.values.value)[i] == min + s.values.value[i] <= max {
        assert s.values.value[i] < Span(min, max);
        ScaledInBounds(min, max, s.values.value[i]);
      }
    }
  }

  /* ---- The generator between requests ---- */

  /** What one request finds: the clock each time it is read, what the generator returns
      after a reseed if there is entropy for one, and a request identifier if there is
      one. */
  datatype Environment = Environment(
    clock1: int, clock2: int, clock3: int, reseeded: Option<seq<Draw>>, requestID: Option<seq<byte>>, now: int64)

  datatype Policy = Policy(intervalOutputs: u64, intervalSeconds: int)

  /** The generator's future, the words it has generated so far, and when it was reseeded
      last, by the clock and in words. */
  datatype Gen = Gen(tape: seq<Draw>, words: nat, lastReseed: int, reseededAt: nat)

  /** The count of bytes that the generator keeps. */
  function OutputBytes(g: Gen): u64 {
    8 * g.words % W64
  }

  predicate CountDue(p: Policy, g: Gen) {
    OutputBytes(g) >= p.intervalOutputs
  }

  predicate TimeDue(p: Policy, g: Gen, clock: int) {
    clock - g.lastReseed >= p.intervalSeconds
  }

  predicate Due(p: Policy, g: Gen, e: Environment) {
    && (CountDue(p, g) || TimeDue(p, g, e.clock1))
    && (CountDue(p, g) || TimeDue(p, g, e.clock2))
  }

  predicate Reseeds(p: Policy, g: Gen, e: Environment) {
    Due(p, g, e) && e.reseeded.Some?
  }

  /** The generator once the request has reseeded it, if it does. */
  function Refreshed(p: Policy, g: Gen, e: Environment): Gen {
    if Reseeds(p, g, e) then Gen(e.reseeded.value, g.words, e.clock3, g.words) else g
  }

  /** The generator when only `rest` is left of its tape. */
  function Spent(g: Gen, rest: seq<Draw>): (g': Gen)
    requires Words(rest) <= Words(g.tape)
    ensures g'.words + Words(g'.tape) == g.words + Words(g.tape)
  {
    g.(tape := rest, words := g.words + Words(g.tape) - Words(rest))
  }

  /* ---- Requests ---- */

  datatype BatchItem = BatchItem(count: int, min: int64, max: int64)

  predicate ItemValid(item: BatchItem) {
    0 < item.count <= 10000 && item.min <= item.max
  }

  /** Who asks, for which tenant, game and round. */
  datatype Names = Names(ctx: seq<byte>, tenantID: seq<byte>, gameID: seq<byte>, roundID: seq<byte>)
  {
    predicate Given() {
      tenantID != [] && gameID != [] && roundID != []
    }

    predicate Allowed() {
      ctx == tenantID
    }
  }

  datatype Status = Done | BadRequest | Forbidden | InternalError

  /** What a request leads to: its status, the contents it stores, and the generator. */
  datatype Effect = Effect(status: Status, contents: seq<Content>, g: Gen)

  /** Values, if nothing failed, and the generator. */
  datatype Made = Made(values: Option<seq<int64>>, g: Gen)

  function ValuesMade(p: Policy, g: Gen, e: Environment, item: BatchItem): Made
    requires item.count >= 0
  {
    if Due(p, g, e) && e.reseeded.None? then Made(None, g)
    else
      var g1 := Refreshed(p, g, e);
      var s := Sampled(g1.tape, Span(item.min, item.max), item.count);
      Made(if s.values.None? then None else Some(Offsets(item.min, s.values.value)), Spent(g1, s.rest))
  }

  /** When a reseed is due, and what the generator is then. */
  lemma DueMeans(p: Policy, g: Gen, e: Environment)
    ensures
      var due :=
        || 8 * g.words % 0x1_0000_0000_0000_0000 >= p.intervalOutputs
        || (e.clock1 - g.lastReseed >= p.intervalSeconds && e.clock2 - g.lastReseed >= p.intervalSeconds);
      && (Due(p, g, e) <==> due)
      && (Reseeds(p, g, e) <==> due && e.reseeded.Some?)
      && (Reseeds(p, g, e) ==> Refreshed(p, g, e) == Gen(e.reseeded.value, g.words, e.clock3, g.words))
      && (!Reseeds(p, g, e) ==> Refreshed(p, g, e) == g)
  {
  }

  /** What is drawn for an item, each number added to its least value. */
  lemma DrawnFor(tape: seq<Draw>, min: int64, max: int64, count: nat)
    requires min <= max
    ensures
      var s := Sampled(tape, (max - min + 1) % 0x1_0000_0000_0000_0000, count);
      && Sampled(tape, Span(min, max), count) == s
      && (s.values.Some? ==>
           var values := Offsets(min, s.values.value);
           |values| == count && forall i :: 0 <= i < count ==> values[i] == min + s.values.value[i] <= max)
  {
    hide Sampled, Offsets, Span, ScaledValue, InRange, Words;
    SpanCounts(min, max);
    SampledInBounds(tape, min, max, count);
    assert Span(min, max) == (max - min + 1) % 0x1_0000_0000_0000_0000;
  }

  /** The values of an item are its least value plus numbers drawn for the count of values
      between its bounds: from what entropy gave if a reseed was due, and else from where
      the generator was left. */
  lemma ValuesFrom(p: Policy, g: Gen, e: Environment, item: BatchItem)
    requires 0 <= item.count && item.min <= item.max
    ensures
      var m := ValuesMade(p, g, e, item);
      var due :=
        || 8 * g.words % 0x1_0000_0000_0000_0000 >= p.intervalOutputs
        || (e.clock1 - g.lastReseed >= p.intervalSeconds && e.clock2 - g.lastReseed >= p.intervalSeconds);
      if due && e.reseeded.None? then m == Made(None, g)
      else
        var tape := if due then e.reseeded.value else g.tape;
        var s := Sampled(tape, (item.max - item.min + 1) % 0x1_0000_0000_0000_0000, item.count);
        && (m.values.Some? <==> s.values.Some?)
        && (m.values.Some? ==>
             && |m.values.value| == item.count
             && forall i :: 0 <= i < item.count ==>
                  m.values.value[i] == item.min + s.values.value[i] <= item.max)
        && m.g.tape == s.rest && m.g.words == g.words + Words(tape) - Words(s.rest)
        && m.g.lastReseed == (if due then e.clock3 else g.lastReseed)
        && m.g.reseededAt == (if due then g.words else g.reseededAt)
  {
    DueMeans(p, g, e);
    DrawnFor(Refreshed(p, g, e).tape, item.min, item.max, item.count);
    hide Sampled, Offsets, Span, Words, Due, Reseeds, Refreshed;
  }

  /** The values as they are recorded for an item. */
  function ItemContent(n: Names, e: Environment, id: seq<byte>, item: BatchItem, values: seq<int64>): Content {
    Content(n.tenantID, n.gameID, n.roundID, id, values, |values|, item.min, item.max, e.now, false)
  }

  /** One item: an entry if there are values, an identifier and a key. */
  function ItemEffect(p: Policy, keys: StaticKeyStore, g: Gen, n: Names, e: Environment, item: BatchItem): Effect
    requires item.count >= 0
  {
    var m := ValuesMade(p, g, e, item);
    if m.values.None? || e.requestID.None? || keys.SigningKey(n.tenantID).None? then Effect(InternalError, [], m.g)
    else Effect(Done, [ItemContent(n, e, e.requestID.value, item, m.values.value)], m.g)
  }

  function GenerateEffect(p: Policy, keys: StaticKeyStore, g: Gen, n: Names, e: Environment, item: BatchItem): Effect {
    if !n.Given() || !ItemValid(item) then Effect(BadRequest, [], g)
    else if !n.Allowed() then Effect(Forbidden, [], g)
    else ItemEffect(p, keys, g, n, e, item)
  }

  /** The items one after the other, up to the first that is invalid or fails. */
  function ItemsEffect(p: Policy, keys: StaticKeyStore, g: Gen, n: Names, es: seq<Environment>, items: seq<BatchItem>)
    : (f: Effect)
    requires |es| == |items|
    ensures |f.contents| <= |items| && (f.status == Done <==> |f.contents| == |items|)
    decreases |items|
  {
    if items == [] then Effect(Done, [], g)
    else if !ItemValid(items[0]) then Effect(BadRequest, [], g)
    else
      var first := ItemEffect(p, keys, g, n, es[0], items[0]);
      if first.status != Done then first
      else
        var more := ItemsEffect(p, keys, first.g, n, es[1..], items[1..]);
        Effect(more.status, first.contents + more.contents, more.g)
  }

  /** A batch that is looked at item by item. */
  predicate BatchTaken(n: Names, items: seq<BatchItem>) {
    n.Given() && n.Allowed() && 0 < |items| <= 100
  }

  function BatchEffect(p: Policy, keys: StaticKeyStore, g: Gen, n: Names, es: seq<Environment>, items: seq<BatchItem>)
    : Effect
    requires |es| == |items|
  {
    if !n.Given() then Effect(BadRequest, [], g)
    else if !n.Allowed() then Effect(Forbidden, [], g)
    else if !BatchTaken(n, items) then Effect(BadRequest, [], g)
    else ItemsEffect(p, keys, g, n, es, items)
  }

  lemma CardsAreValues(deck: seq<int>, cards: seq<int64>)
    requires multiset(deck) == multiset(cards)
    ensures forall i :: 0 <= i < |deck| ==> ToInt64(deck[i]) == deck[i]
  {
    forall i | 0 <= i < |deck| ensures ToInt64(deck[i]) == deck[i] {
      assert deck[i] in multiset(deck);
      assert deck[i] in cards;
    }
  }

  /** The deck after the shuffle holds the same cards, so they are values again. */
  function CardsOf(deck: seq<int>, cards: seq<int64>): (values: seq<int64>)
    requires multiset(deck) == multiset(cards)
    ensures values == deck
  {
    CardsAreValues(deck, cards);
    seq(|deck|, i requires 0 <= i < |deck| => ToInt64(deck[i]))
  }

  function ShuffledCards(cards: seq<int>, tape: seq<Draw>): (s: Shuffle.Outcome)
    requires 0 < |cards| < W64
    ensures multiset(s.deck) == multiset(cards) && Words(s.rest) <= Words(tape)
  {
    hide Words;
    Shuffle.ShuffledKeeps(cards, tape, |cards| - 1);
    Shuffle.Shuffled(cards, tape, |cards| - 1)
  }

  /** The cards in the order of the shuffle. */
  function CardsMade(p: Policy, g: Gen, e: Environment, cards: seq<int64>): (m: Made)
    requires 0 < |cards| < W64
    ensures m.values.Some? ==> m.values.value != []
  {
    if Due(p, g, e) && e.reseeded.None? then Made(None, g)
    else
      var g1 := Refreshed(p, g, e);
      var s := ShuffledCards(cards, g1.tape);
      assert multiset(s.deck) == multiset(cards) && cards[0] in multiset(cards);
      Made(if s.ok then Some(CardsOf(s.deck, cards)) else None, Spent(g1, s.rest))
  }

  /** The cards come in the order in which they are shuffled by what entropy gave if a
      reseed was due, and else from where the generator was left. */
  lemma CardsFrom(p: Policy, g: Gen, e: Environment, cards: seq<int64>)
    requires 0 < |cards| < W64
    ensures
      var m := CardsMade(p, g, e, cards);
      var due :=
        || 8 * g.words % 0x1_0000_0000_0000_0000 >= p.intervalOutputs
        || (e.clock1 - g.lastReseed >= p.intervalSeconds && e.clock2 - g.lastReseed >= p.intervalSeconds);
      if due && e.reseeded.None? then m == Made(None, g)
      else
        var tape := if due then e.reseeded.value else g.tape;
        var s := ShuffledCards(cards, tape);
        && (m.values.Some? <==> s.ok)
        && (m.values.Some? ==> m.values.value == s.deck && multiset(s.deck) == multiset(cards))
        && m.g.tape == s.rest && m.g.words == g.words + Words(tape) - Words(s.rest)
        && m.g.lastReseed == (if due then e.clock3 else g.lastReseed)
        && m.g.reseededAt == (if due then g.words else g.reseededAt)
  {
    DueMeans(p, g, e);
    hide ShuffledCards, Words, Due, Reseeds, Refreshed;
  }

  /* ---- Which items of a batch are stored ---- */

  predicate ItemFails(p: Policy, keys: StaticKeyStore, g: Gen, n: Names, e: Environment, item: BatchItem) {
    !ItemValid(item) || ItemEffect(p, keys, g, n, e, item).status != Done
  }

  /** The generator before item `i`, the items before it having been answered. */
  function Before(
    p: Policy, keys: StaticKeyStore, g: Gen, n: Names, es: seq<Environment>, items: seq<BatchItem>, i: nat)
    : Gen
    requires |es| == |items| && i <= |items|
    decreases i
  {
    if i == 0 then g
    else
      var g1 := if ItemValid(items[0]) then ItemEffect(p, keys, g, n, es[0], items[0]).g else g;
      Before(p, keys, g1, n, es[1..], items[1..], i - 1)
  }

  lemma FailedItem(p: Policy, keys: StaticKeyStore, g: Gen, n: Names, e: Environment, item: BatchItem)
    requires item.count >= 0
    ensures
      var f := ItemEffect(p, keys, g, n, e, item);
      if f.status == Done then |f.contents| == 1 else f.status == InternalError && f.contents == []
  {
  }

  /** Exactly the items before the first that is invalid or fails are stored, and that one
      decides the status. */
  lemma {:induction false} StoredUpToFirstFailing(
    p: Policy, keys: StaticKeyStore, g: Gen, n: Names, es: seq<Environment>, items: seq<BatchItem>)
    requires |es| == |items|
    ensures
      var f := ItemsEffect(p, keys, g, n, es, items);
      var k := |f.contents|;
      && (forall i :: 0 <= i < k ==>
           var gi := Before(p, keys, g, n, es, items, i);
           && !ItemFails(p, keys, gi, n, es[i], items[i])
           && ItemEffect(p, keys, gi, n, es[i], items[i]).contents == [f.contents[i]])
      && (k < |items| ==>
           && ItemFails(p, keys, Before(p, keys, g, n, es, items, k), n, es[k], items[k])
           && f.status == (if ItemValid(items[k]) then InternalError else BadRequest))
    decreases |items|
  {
    hide ItemEffect;
    if items == [] {
    } else if !ItemValid(items[0]) {
    } else if ItemFails(p, keys, g, n, es[0], items[0]) {
      FailedItem(p, keys, g, n, es[0], items[0]);
    } else {
      var g1 := ItemEffect(p, keys, g, n, es[0], items[0]).g;
      FailedItem(p, keys, g, n, es[0], items[0]);
      StoredUpToFirstFailing(p, keys, g1, n, es[1..], items[1..]);
      var f, more := ItemsEffect(p, keys, g, n, es, items), ItemsEffect(p, keys, g1, n, es[1..], items[1..]);
      forall i | 0 < i <= |more.contents| && i < |items|
        ensures Before(p, keys, g, n, es, items, i) == Before(p, keys, g1, n, es[1..], items[1..], i - 1)
        ensures i < |f.contents| ==> f.contents[i] == more.contents[i - 1]
      {
      }
    }
  }

  lemma AtFirst(p: Policy, keys: StaticKeyStore, g: Gen, n: Names, es: seq<Environment>, items: seq<BatchItem>)
    requires |es| == |items|
    ensures Before(p, keys, g, n, es, items, 0) == g
  {
  }

  /** A batch is all or nothing exactly if it is refused before its items are looked at,
      or its first item fails, or none does. */
  lemma AllOrNothing(p: Policy, keys: StaticKeyStore, g: Gen, n: Names, es: seq<Environment>, items: seq<BatchItem>)
    requires |es| == |items|
    ensures
      var f := BatchEffect(p, keys, g, n, es, items);
      f.status == Done || f.contents == []
      <==>
      || !BatchTaken(n, items)
      || ItemFails(p, keys, g, n, es[0], items[0])
      || forall i :: 0 <= i < |items| ==>
           !ItemFails(p, keys, Before(p, keys, g, n, es, items, i), n, es[i], items[i])
  {
    hide ItemEffect, ItemFails, Before, ItemsEffect;
    if BatchTaken(n, items) {
      StoredUpToFirstFailing(p, keys, g, n, es, items);
      AtFirst(p, keys, g, n, es, items);
    }
  }

  /** After `i` items the generator is `now`, `stored` has been stored, and what the rest
      of the items leads to makes the whole. */
  predicate Answered(p: Policy, keys: StaticKeyStore, g: Gen, n: Names, es: seq<Environment>, items: seq<BatchItem>,
                     i: nat, now: Gen, stored: seq<Content>)
  {
    && |es| == |items| && i <= |items|
    && var rest := ItemsEffect(p, keys, now, n, es[i..], items[i..]);
    ItemsEffect(p, keys, g, n, es, items) == Effect(rest.status, stored + rest.contents, rest.g)
  }

  lemma NoneAnswered(p: Policy, keys: StaticKeyStore, g: Gen, n: Names, es: seq<Environment>, items: seq<BatchItem>)
    requires |es| == |items|
    ensures Answered(p, keys, g, n, es, items, 0, g, [])
  {
    assert es[0..] == es && items[0..] == items;
    var f := ItemsEffect(p, keys, g, n, es, items);
    assert [] + f.contents == f.contents;
  }

  lemma Answering(p: Policy, keys: StaticKeyStore, g: Gen, n: Names, es: seq<Environment>, items: seq<BatchItem>,
                  i: nat, now: Gen, stored: seq<Content>)
    requires i < |items| && Answered(p, keys, g, n, es, items, i, now, stored)
    ensures
      var f := ItemsEffect(p, keys, g, n, es, items);
      if !ItemValid(items[i]) then f == Effect(BadRequest, stored, now)
      else
        var first := ItemEffect(p, keys, now, n, es[i], items[i]);
        if first.status != Done then f == Effect(InternalError, stored, first.g)
        else Answered(p, keys, g, n, es, items, i + 1, first.g, stored + first.contents)
  {
    hide ItemEffect;
    assert es[i..][1..] == es[i + 1..] && items[i..][1..] == items[i + 1..];
    if ItemValid(items[i]) {
      FailedItem(p, keys, now, n, es[i], items[i]);
      var first := ItemEffect(p, keys, now, n, es[i], items[i]);
      var more := ItemsEffect(p, keys, first.g, n, es[i + 1..], items[i + 1..]);
      assert stored + (first.contents + more.contents) == stored + first.contents + more.contents;
    }
  }

  lemma AllAnswered(p: Policy, keys: StaticKeyStore, g: Gen, n: Names, es: seq<Environment>, items: seq<BatchItem>,
                    now: Gen, stored: seq<Content>)
    requires Answered(p, keys, g, n, es, items, |items|, now, stored)
    ensures ItemsEffect(p, keys, g, n, es, items) == Effect(Done, stored, now)
  {
  }

  const ZERO_KEY: seq<byte> := Zeros(32)

  /** Every tenant signs with the zero key. */
  const ANY_TENANT: StaticKeyStore := StaticKeyStore(map[WILDCARD := ZERO_KEY])

  lemma AnyTenantHasKey(tenantID: seq<byte>)
    ensures ANY_TENANT.SigningKey(tenantID).Some?
  {
    assert WILDCARD in ANY_TENANT.keys;
  }

  const FIRST: Environment := Environment(0, 0, 0, None, Some([49]), 0)

  /** A range of one value takes no word. */
  lemma OnlyValue(tape: seq<Draw>, v: int64)
    ensures Span(v, v) == 1
    ensures Sampled(tape, 1, 1) == Samples(Some([0]), tape)
    ensures Offsets(v, [0]) == [v]
  {
    SpanCounts(v, v);
    ScaledInBounds(v, v, 0);
    hide Span, ScaledValue;
    assert Sampled(tape, 1, 0) == Samples(Some([]), tape);
    assert InRange(tape, 1) == Drawn(Some(0), 0);
    assert tape[0..] == tape && [] + [0] == [0];
  }

  lemma SingleMade(p: Policy, g: Gen, e: Environment, v: int64)
    requires Due(p, g, e) ==> e.reseeded.Some?
    ensures ValuesMade(p, g, e, BatchItem(1, v, v)) == Made(Some([v]), Refreshed(p, g, e))
  {
    OnlyValue(Refreshed(p, g, e).tape, v);
    hide Sampled, Span, Offsets, Words, Due, Refreshed;
  }

  /** A valid item for which there are values is answered with them. */
  lemma ItemDone(p: Policy, g: Gen, n: Names, e: Environment, item: BatchItem)
    requires n.Given() && n.Allowed() && ItemValid(item) && e.requestID.Some?
    requires ValuesMade(p, g, e, item).values.Some?
    ensures
      var m := ValuesMade(p, g, e, item);
      var f := Effect(Done, [ItemContent(n, e, e.requestID.value, item, m.values.value)], m.g);
      ItemEffect(p, ANY_TENANT, g, n, e, item) == f && GenerateEffect(p, ANY_TENANT, g, n, e, item) == f
  {
    AnyTenantHasKey(n.tenantID);
    hide ValuesMade, ItemContent;
  }

  lemma ThenInvalid(p: Policy, keys: StaticKeyStore, g: Gen, n: Names, e: Environment, item: BatchItem,
                    e': Environment, item': BatchItem)
    requires n.Given() && n.Allowed() && ItemValid(item) && !ItemValid(item')
    requires ItemEffect(p, keys, g, n, e, item).status == Done
    ensures
      var f := ItemEffect(p, keys, g, n, e, item);
      BatchEffect(p, keys, g, n, [e, e'], [item, item']) == Effect(BadRequest, f.contents, f.g)
  {
    hide ItemEffect;
    assert [e, e'][1..] == [e'] && [item, item'][1..] == [item'];
    var f := ItemEffect(p, keys, g, n, e, item);
    assert ItemsEffect(p, keys, f.g, n, [e'], [item']) == Effect(BadRequest, [], f.g);
    assert f.contents + [] == f.contents;
  }

  /** A valid item and one of no values: the batch is refused, and the first stays stored. */
  lemma ValidThenEmpty(p: Policy, g: Gen, n: Names, e: Environment, v: int64)
    requires n.Given() && n.Allowed() && !Due(p, g, e) && e.requestID.Some?
    ensures
      var f := BatchEffect(p, ANY_TENANT, g, n, [e, e], [BatchItem(1, v, v), BatchItem(0, v, v)]);
      f.status == BadRequest && |f.contents| == 1 && f.contents[0].values == [v]
  {
    var item, item' := BatchItem(1, v, v), BatchItem(0, v, v);
    assert ItemValid(item) && !ItemValid(item');
    SingleMade(p, g, e, v);
    hide Due, BatchEffect, ItemEffect, ValuesMade, ItemValid;
    ItemDone(p, g, n, e, item);
    ThenInvalid(p, ANY_TENANT, g, n, e, item, e, item');
  }

  lemma TwoItemBatch(n: Names)
    requires n.Given() && n.Allowed()
    ensures
      var f := BatchEffect(Policy(8, 1000), ANY_TENANT, Gen([], 0, 0, 0), n, [FIRST, FIRST],
                           [BatchItem(1, 5, 5), BatchItem(0, 5, 5)]);
      f.status == BadRequest && |f.contents| == 1 && f.contents[0].values == [5]
  {
    assert !Due(Policy(8, 1000), Gen([], 0, 0, 0), FIRST);
    hide Due, BatchEffect;
    ValidThenEmpty(Policy(8, 1000), Gen([], 0, 0, 0), n, FIRST, 5);
  }

  /* ---- Requests in a row ---- */

  datatype Request =
    | GenerateRequest(n: Names, item: BatchItem, e: Environment)
    | BatchRequest(n: Names, items: seq<BatchItem>, es: seq<Environment>)
    | ShuffleRequest(n: Names, cards: seq<int64>, e: Environment)
    | AuditRequest(ctx: seq<byte>, roundID: seq<byte>)
  {
    predicate Complete() {
      BatchRequest? ==> |es| == |items|
    }

    /** The round it is about. */
    function Round(): seq<byte> {
      if AuditRequest? then roundID else n.roundID
    }

    /** The tenant that is authenticated. */
    function Ctx(): seq<byte> {
      if AuditRequest? then ctx else n.ctx
    }
  }

  predicate ShuffleTaken(n: Names, cards: seq<int64>) {
    n.Given() && n.Allowed() && 0 < |cards| <= 10000
  }

  /** The cards as they are recorded, with their least and their greatest value. */
  predicate RecordsCards(c: Content, n: Names, e: Environment, id: seq<byte>, values: seq<int64>) {
    && c == Content(n.tenantID, n.gameID, n.roundID, id, values, |values|, c.minValue, c.maxValue, e.now, false)
    && c.minValue in values && c.maxValue in values
    && forall v :: v in values ==> c.minValue <= v <= c.maxValue
  }

  /** The generator after a request. */
  function GenAfter(p: Policy, keys: StaticKeyStore, g: Gen, r: Request): Gen
    requires r.Complete()
  {
    match r
    case GenerateRequest(n, item, e) => GenerateEffect(p, keys, g, n, e, item).g
    case BatchRequest(n, items, es) => BatchEffect(p, keys, g, n, es, items).g
    case ShuffleRequest(n, cards, e) => if ShuffleTaken(n, cards) then CardsMade(p, g, e, cards).g else g
    case AuditRequest(_, _) => g
  }

  /** The least of some values. */
  function Least(s: seq<int64>): (m: int64)
    requires s != []
    ensures m in s && forall v :: v in s ==> m <= v
  {
    if |s| == 1 then s[0]
    else
      assert forall v :: v in s <==> v == s[0] || v in s[1..];
      var m := Least(s[1..]);
      if s[0] < m then s[0] else m
  }

  function Greatest(s: seq<int64>): (m: int64)
    requires s != []
    ensures m in s && forall v :: v in s ==> v <= m
  {
    if |s| == 1 then s[0]
    else
      assert forall v :: v in s <==> v == s[0] || v in s[1..];
      var m := Greatest(s[1..]);
      if s[0] > m then s[0] else m
  }

  function CardsContent(n: Names, e: Environment, id: seq<byte>, values: seq<int64>): (c: Content)
    requires values != []
    ensures RecordsCards(c, n, e, id, values)
  {
    Content(n.tenantID, n.gameID, n.roundID, id, values, |values|, Least(values), Greatest(values), e.now, false)
  }

  /** There is only one way to record cards. */
  lemma CardsContentOnly(c: Content, n: Names, e: Environment, id: seq<byte>, values: seq<int64>)
    requires values != [] && RecordsCards(c, n, e, id, values)
    ensures c == CardsContent(n, e, id, values)
  {
  }

  /** What a request stores. */
  function Stored(p: Policy, keys: StaticKeyStore, g: Gen, r: Request): (cs: seq<Content>)
    requires r.Complete()
  {
    match r
    case GenerateRequest(n, item, e) => GenerateEffect(p, keys, g, n, e, item).contents
    case BatchRequest(n, items, es) => BatchEffect(p, keys, g, n, es, items).contents
    case ShuffleRequest(n, cards, e) =>
      if !ShuffleTaken(n, cards) then []
      else
        var values := CardsMade(p, g, e, cards).values;
        if values.None? || e.requestID.None? || keys.SigningKey(n.tenantID).None? then []
        else [CardsContent(n, e, e.requestID.value, values.value)]
    case AuditRequest(_, _) => []
  }

  predicate AllComplete(rs: seq<Request>) {
    forall i :: 0 <= i < |rs| ==> rs[i].Complete()
  }

  function GenAfterAll(p: Policy, keys: StaticKeyStore, g: Gen, rs: seq<Request>): Gen
    requires AllComplete(rs)
  {
    if rs == [] then g
    else GenAfter(p, keys, GenAfterAll(p, keys, g, rs[..|rs| - 1]), rs[|rs| - 1])
  }

  /* ---- What a run stores ---- */

  function AllStored(p: Policy, keys: StaticKeyStore, g: Gen, rs: seq<Request>): seq<Content>
    requires AllComplete(rs)
  {
    if rs == [] then []
    else
      var init, r := rs[..|rs| - 1], rs[|rs| - 1];
      AllStored(p, keys, g, init) + Stored(p, keys, GenAfterAll(p, keys, g, init), r)
  }

  /** Request `i` of a run stores nothing. */
  predicate StoresNothing(p: Policy, keys: StaticKeyStore, g: Gen, rs: seq<Request>, i: nat)
    requires AllComplete(rs) && i < |rs|
  {
    Stored(p, keys, GenAfterAll(p, keys, g, rs[..i]), rs[i]) == []
  }

  /** An entry of the request, with what was asked for. */
  predicate Tells(c: Content, r: Request)
    requires r.Complete()
  {
    match r
    case GenerateRequest(n, item, e) => TellsOfItem(c, n, item, e)
    case BatchRequest(n, items, es) => exists i :: 0 <= i < |items| && TellsOfItem(c, n, items[i], es[i])
    case ShuffleRequest(n, cards, e) => TellsOfCards(c, n, cards, e)
    case AuditRequest(_, _) => false
  }

  predicate TellsOf(c: Content, n: Names, e: Environment) {
    && n.ctx == c.tenantID
    && c.tenantID == n.tenantID && c.gameID == n.gameID && c.roundID == n.roundID
    && e.requestID == Some(c.requestID) && c.createdAt == e.now && !c.reseedEvent
  }

  predicate TellsOfItem(c: Content, n: Names, item: BatchItem, e: Environment) {
    && TellsOf(c, n, e)
    && 0 < |c.values| == c.valueCount == item.count <= 10000
    && c.minValue == item.min && c.maxValue == item.max
    && forall v :: v in c.values ==> item.min <= v <= item.max
  }

  predicate TellsOfCards(c: Content, n: Names, cards: seq<int64>, e: Environment) {
    && TellsOf(c, n, e)
    && multiset(c.values) == multiset(cards) && c.valueCount == |cards|
    && c.minValue in cards && c.maxValue in cards && forall v :: v in cards ==> c.minValue <= v <= c.maxValue
  }

  predicate AllTell(cs: seq<Content>, r: Request)
    requires r.Complete()
  {
    forall c :: c in cs ==> Tells(c, r)
  }

  lemma ValuesBetween(p: Policy, g: Gen, e: Environment, item: BatchItem)
    requires 0 <= item.count && item.min <= item.max
    ensures
      var values := ValuesMade(p, g, e, item).values;
      values.Some? ==> |values.value| == item.count && forall v :: v in values.value ==> item.min <= v <= item.max
  {
    hide Sampled, ValuesMade, Words;
    ValuesFrom(p, g, e, item);
    var values := ValuesMade(p, g, e, item).values;
    if values.Some? {
      forall v | v in values.value ensures item.min <= v <= item.max {
        var i :| 0 <= i < |values.value| && values.value[i] == v;
      }
    }
  }

  /** What is stored for one item, in each of its fields. */
  lemma ItemTold(p: Policy, keys: StaticKeyStore, g: Gen, n: Names, e: Environment, item: BatchItem)
    requires n.Allowed() && ItemValid(item)
    ensures
      var f := ItemEffect(p, keys, g, n, e, item);
      && (f.status == Done <==>
           && ValuesMade(p, g, e, item).values.Some? && e.requestID.Some?
           && (n.tenantID in keys.keys || [42] in keys.keys))
      && (f.status == Done ==> |f.contents| == 1 && TellsOfItem(f.contents[0], n, item, e))
      && (f.status == Done ==> f.contents[0].values == ValuesMade(p, g, e, item).values.value)
      && (f.status != Done ==> f.contents == [])
  {
    ValuesBetween(p, g, e, item);
    hide ValuesMade;
  }

  /** Every item that is stored, in each of its fields. */
  lemma {:induction false} ItemsTold(
    p: Policy, keys: StaticKeyStore, g: Gen, n: Names, es: seq<Environment>, items: seq<BatchItem>)
    requires |es| == |items| && n.Allowed()
    ensures
      var cs := ItemsEffect(p, keys, g, n, es, items).contents;
      forall i :: 0 <= i < |cs| ==> TellsOfItem(cs[i], n, items[i], es[i])
    decreases |items|
  {
    hide ItemEffect, TellsOfItem;
    if items == [] || !ItemValid(items[0]) {
    } else {
      var first := ItemEffect(p, keys, g, n, es[0], items[0]);
      ItemTold(p, keys, g, n, es[0], items[0]);
      ItemsTold(p, keys, first.g, n, es[1..], items[1..]);
      var cs := ItemsEffect(p, keys, g, n, es, items).contents;
      forall i | 0 < i < |cs| ensures TellsOfItem(cs[i], n, items[i], es[i]) {
        assert cs[i] == ItemsEffect(p, keys, first.g, n, es[1..], items[1..]).contents[i - 1];
      }
    }
  }

  /** A batch that is looked at is not forbidden. */
  lemma {:induction false} ItemsStatus(
    p: Policy, keys: StaticKeyStore, g: Gen, n: Names, es: seq<Environment>, items: seq<BatchItem>)
    requires |es| == |items|
    ensures ItemsEffect(p, keys, g, n, es, items).status != Forbidden
    decreases |items|
  {
    hide ValuesMade;
    if items == [] || !ItemValid(items[0]) {
    } else {
      ItemsStatus(p, keys, ItemEffect(p, keys, g, n, es[0], items[0]).g, n, es[1..], items[1..]);
    }
  }

  lemma ValuesRecorded(n: Names, e: Environment, id: seq<byte>, values: seq<int64>)
    requires values != []
    ensures CardsContent(n, e, id, values).values == values
  {
  }

  /** When a shuffle is stored, and as what. */
  lemma CardsAnswered(p: Policy, keys: StaticKeyStore, g: Gen, n: Names, e: Environment, cards: seq<int64>)
    ensures
      var r := ShuffleRequest(n, cards, e);
      if ShuffleTaken(n, cards)
         && CardsMade(p, g, e, cards).values.Some? && e.requestID.Some?
         && (n.tenantID in keys.keys || [42] in keys.keys)
      then
        var c := CardsContent(n, e, e.requestID.value, CardsMade(p, g, e, cards).values.value);
        && Stored(p, keys, g, r) == [c]
        && TellsOfCards(c, n, cards, e)
        && c.values == CardsMade(p, g, e, cards).values.value
      else Stored(p, keys, g, r) == []
  {
    hide CardsMade, CardsContent, TellsOfCards;
    if ShuffleTaken(n, cards) && e.requestID.Some? && CardsMade(p, g, e, cards).values.Some? {
      var values := CardsMade(p, g, e, cards).values.value;
      CardsFrom(p, g, e, cards);
      CardsTold(n, e, values, cards);
      ValuesRecorded(n, e, e.requestID.value, values);
    }
  }

  lemma SameCards(values: seq<int64>, cards: seq<int64>)
    requires multiset(values) == multiset(cards)
    ensures |values| == |cards| && forall v: int64 :: v in values <==> v in cards
  {
    assert |multiset(values)| == |values| && |multiset(cards)| == |cards|;
    forall v: int64 ensures v in values <==> v in cards {
      assert v in values <==> v in multiset(values);
      assert v in cards <==> v in multiset(cards);
    }
  }

  lemma CardsTold(n: Names, e: Environment, values: seq<int64>, cards: seq<int64>)
    requires n.Allowed() && e.requestID.Some? && values != [] && multiset(values) == multiset(cards)
    ensures TellsOfCards(CardsContent(n, e, e.requestID.value, values), n, cards, e)
  {
    SameCards(values, cards);
    hide Least, Greatest;
  }

  lemma UnfoldGenerate(p: Policy, keys: StaticKeyStore, g: Gen, n: Names, item: BatchItem, e: Environment)
    ensures
      var f := GenerateEffect(p, keys, g, n, e, item);
      if n.Given() && ItemValid(item) && n.Allowed() then f == ItemEffect(p, keys, g, n, e, item)
      else f.contents == []
  {
    hide ItemEffect;
  }

  lemma OneTells(cs: seq<Content>, n: Names, item: BatchItem, e: Environment)
    requires cs == [] || (|cs| == 1 && TellsOfItem(cs[0], n, item, e))
    ensures AllTell(cs, GenerateRequest(n, item, e))
  {
    hide TellsOfItem;
  }

  lemma GenerateTells(p: Policy, keys: StaticKeyStore, g: Gen, n: Names, item: BatchItem, e: Environment)
    ensures AllTell(GenerateEffect(p, keys, g, n, e, item).contents, GenerateRequest(n, item, e))
  {
    hide *;
    UnfoldGenerate(p, keys, g, n, item, e);
    if n.Allowed() && ItemValid(item) {
      ItemTold(p, keys, g, n, e, item);
    }
    OneTells(GenerateEffect(p, keys, g, n, e, item).contents, n, item, e);
  }

  lemma BatchTells(p: Policy, keys: StaticKeyStore, g: Gen, n: Names, items: seq<BatchItem>, es: seq<Environment>)
    requires |es| == |items|
    ensures AllTell(BatchEffect(p, keys, g, n, es, items).contents, BatchRequest(n, items, es))
  {
    hide ItemsEffect, TellsOfItem;
    if n.Allowed() {
      ItemsTold(p, keys, g, n, es, items);
    }
  }

  lemma ShuffleTells(p: Policy, keys: StaticKeyStore, g: Gen, n: Names, cards: seq<int64>, e: Environment)
    ensures AllTell(Stored(p, keys, g, ShuffleRequest(n, cards, e)), ShuffleRequest(n, cards, e))
  {
    CardsAnswered(p, keys, g, n, e, cards);
    hide Stored, CardsMade, CardsContent, TellsOfCards;
  }

  /** What a request stores tells of the request. */
  lemma StoredTells(p: Policy, keys: StaticKeyStore, g: Gen, r: Request)
    requires r.Complete()
    ensures AllTell(Stored(p, keys, g, r), r)
  {
    hide GenerateEffect, BatchEffect, CardsMade, CardsContent, Tells;
    match r
    case GenerateRequest(n, item, e) => GenerateTells(p, keys, g, n, item, e);
    case BatchRequest(n, items, es) => BatchTells(p, keys, g, n, items, es);
    case ShuffleRequest(n, cards, e) => ShuffleTells(p, keys, g, n, cards, e);
    case AuditRequest(_, _) =>
  }

  predicate AllNamed(cs: seq<Content>, tenantID: seq<byte>, roundID: seq<byte>) {
    forall c :: c in cs ==> c.tenantID == tenantID && c.roundID == roundID
  }

  /** So it is of the tenant that asked, and in its round. */
  lemma StoredNamed(p: Policy, keys: StaticKeyStore, g: Gen, r: Request)
    requires r.Complete()
    ensures AllNamed(Stored(p, keys, g, r), r.Ctx(), r.Round())
  {
    StoredTells(p, keys, g, r);
    hide Stored;
    forall c | c in Stored(p, keys, g, r) ensures c.tenantID == r.Ctx() && c.roundID == r.Round() {
      assert Tells(c, r);
    }
  }

  predicate OnlyOf(cs: seq<Content>, tenantID: seq<byte>, roundID: seq<byte>) {
    forall c :: c in cs && c.roundID == roundID ==> c.tenantID == tenantID
  }

  lemma OnlyOfConcat(a: seq<Content>, b: seq<Content>, tenantID: seq<byte>, roundID: seq<byte>)
    ensures OnlyOf(a + b, tenantID, roundID) <==> OnlyOf(a, tenantID, roundID) && OnlyOf(b, tenantID, roundID)
  {
    if OnlyOf(a + b, tenantID, roundID) {
      assert forall c :: c in a || c in b ==> c in a + b;
    }
  }

  lemma OnlyOfNamed(cs: seq<Content>, owner: seq<byte>, round: seq<byte>, tenantID: seq<byte>, roundID: seq<byte>)
    requires AllNamed(cs, owner, round)
    ensures OnlyOf(cs, tenantID, roundID) <==> (round == roundID && owner != tenantID ==> cs == [])
  {
    if cs != [] {
      assert cs[0] in cs;
    }
  }

  /** A round holds entries of one tenant only exactly if no request of another one for this
      round has stored anything. */
  lemma {:induction false} OnlyOfExactly(
    p: Policy, keys: StaticKeyStore, g: Gen, rs: seq<Request>, tenantID: seq<byte>, roundID: seq<byte>)
    requires AllComplete(rs)
    ensures OnlyOf(AllStored(p, keys, g, rs), tenantID, roundID) <==>
      forall i :: 0 <= i < |rs| && rs[i].Round() == roundID && rs[i].Ctx() != tenantID ==>
        StoresNothing(p, keys, g, rs, i)
  {
    hide Stored, GenAfter, OnlyOf;
    if rs == [] {
      OnlyOfNamed([], tenantID, roundID, tenantID, roundID);
    } else {
      var init, last := rs[..|rs| - 1], |rs| - 1;
      var r, g1 := rs[last], GenAfterAll(p, keys, g, init);
      OnlyOfExactly(p, keys, g, init, tenantID, roundID);
      OnlyOfConcat(AllStored(p, keys, g, init), Stored(p, keys, g1, r), tenantID, roundID);
      StoredNamed(p, keys, g1, r);
      OnlyOfNamed(Stored(p, keys, g1, r), r.Ctx(), r.Round(), tenantID, roundID);
      assert forall i :: 0 <= i < last ==> init[i] == rs[i] && init[..i] == rs[..i];
      assert forall i :: 0 <= i < last ==> (StoresNothing(p, keys, g, init, i) <==> StoresNothing(p, keys, g, rs, i));
    }
  }

  /* ---- When the generator is reseeded ---- */

  /** Where a request asks whether a reseed is due: the generator then, and what the
      request finds. */
  datatype Ask = Ask(g: Gen, e: Environment)

  function ItemsAsked(p: Policy, keys: StaticKeyStore, g: Gen, n: Names, es: seq<Environment>, items: seq<BatchItem>)
    : seq<Ask>
    requires |es| == |items|
    decreases |items|
  {
    if items == [] || !ItemValid(items[0]) then []
    else
      var first := ItemEffect(p, keys, g, n, es[0], items[0]);
      [Ask(g, es[0])]
      + (if first.status != Done then [] else ItemsAsked(p, keys, first.g, n, es[1..], items[1..]))
  }

  function Asked(p: Policy, keys: StaticKeyStore, g: Gen, r: Request): seq<Ask>
    requires r.Complete()
  {
    match r
    case GenerateRequest(n, item, e) => if n.Given() && n.Allowed() && ItemValid(item) then [Ask(g, e)] else []
    case BatchRequest(n, items, es) => if BatchTaken(n, items) then ItemsAsked(p, keys, g, n, es, items) else []
    case ShuffleRequest(n, cards, e) => if ShuffleTaken(n, cards) then [Ask(g, e)] else []
    case AuditRequest(_, _) => []
  }

  /** All of them in a run, in order. */
  function AllAsked(p: Policy, keys: StaticKeyStore, g: Gen, rs: seq<Request>): seq<Ask>
    requires AllComplete(rs)
  {
    if rs == [] then []
    else
      var init, r := rs[..|rs| - 1], rs[|rs| - 1];
      AllAsked(p, keys, g, init) + Asked(p, keys, GenAfterAll(p, keys, g, init), r)
  }

  /** The words generated so far never become fewer, from `low` to `high`. */
  predicate Growing(asks: seq<Ask>, low: nat, high: nat) {
    && low <= high
    && (forall i :: 0 <= i < |asks| ==> low <= asks[i].g.words <= high)
    && (forall i, j :: 0 <= i <= j < |asks| ==> asks[i].g.words <= asks[j].g.words)
  }

  lemma GrowingConcat(a: seq<Ask>, b: seq<Ask>, low: nat, mid: nat, high: nat)
    requires Growing(a, low, mid) && Growing(b, mid, high)
    ensures Growing(a + b, low, high)
  {
  }

  lemma ItemGrows(p: Policy, keys: StaticKeyStore, g: Gen, n: Names, e: Environment, item: BatchItem)
    requires item.count >= 0
    ensures g.words <= ItemEffect(p, keys, g, n, e, item).g.words
  {
  }

  lemma {:induction false} ItemsGrow(
    p: Policy, keys: StaticKeyStore, g: Gen, n: Names, es: seq<Environment>, items: seq<BatchItem>)
    requires |es| == |items|
    ensures Growing(ItemsAsked(p, keys, g, n, es, items), g.words, ItemsEffect(p, keys, g, n, es, items).g.words)
    decreases |items|
  {
    hide ItemEffect;
    if items == [] || !ItemValid(items[0]) {
    } else {
      ItemGrows(p, keys, g, n, es[0], items[0]);
      var first := ItemEffect(p, keys, g, n, es[0], items[0]);
      if first.status == Done {
        ItemsGrow(p, keys, first.g, n, es[1..], items[1..]);
        GrowingConcat([Ask(g, es[0])], ItemsAsked(p, keys, first.g, n, es[1..], items[1..]),
                      g.words, first.g.words, ItemsEffect(p, keys, g, n, es, items).g.words);
      }
    }
  }

  lemma RequestGrows(p: Policy, keys: StaticKeyStore, g: Gen, r: Request)
    requires r.Complete()
    ensures Growing(Asked(p, keys, g, r), g.words, GenAfter(p, keys, g, r).words)
  {
    hide ItemsAsked, ItemsEffect, ItemEffect, Sampled;
    match r
    case GenerateRequest(n, item, e) =>
      if n.Given() && n.Allowed() && ItemValid(item) {
        ItemGrows(p, keys, g, n, e, item);
      }
    case BatchRequest(n, items, es) =>
      ItemsGrow(p, keys, g, n, es, items);
    case ShuffleRequest(n, cards, e) =>
    case AuditRequest(_, _) =>
  }

  lemma NothingAsked(words: nat)
    ensures Growing([], words, words)
  {
  }

  lemma {:induction false} RunGrows(p: Policy, keys: StaticKeyStore, g: Gen, rs: seq<Request>)
    requires AllComplete(rs)
    ensures Growing(AllAsked(p, keys, g, rs), g.words, GenAfterAll(p, keys, g, rs).words)
  {
    hide Asked, GenAfter, Growing;
    if rs == [] {
      NothingAsked(g.words);
    } else {
      var init, r := rs[..|rs| - 1], rs[|rs| - 1];
      var g1 := GenAfterAll(p, keys, g, init);
      RunGrows(p, keys, g, init);
      RequestGrows(p, keys, g1, r);
      GrowingConcat(AllAsked(p, keys, g, init), Asked(p, keys, g1, r),
                    g.words, g1.words, GenAfter(p, keys, g1, r).words);
    }
  }

  /** When the generator was reseeded last: in words, and by the clock. */
  datatype Stamp = Stamp(words: nat, clock: int)

  function StampOf(g: Gen): Stamp {
    Stamp(g.reseededAt, g.lastReseed)
  }

  /** What a question leaves as the mark of the last reseed. */
  function Mark(p: Policy, a: Ask): Stamp {
    if Reseeds(p, a.g, a.e) then Stamp(a.g.words, a.e.clock3) else StampOf(a.g)
  }

  /** Every question finds the mark that the one before left; the first finds `first`, and
      the last leaves `last`. */
  predicate Marked(p: Policy, asks: seq<Ask>, first: Stamp, last: Stamp) {
    && (asks == [] ==> first == last)
    && (asks != [] ==> StampOf(asks[0].g) == first && Mark(p, asks[|asks| - 1]) == last)
    && forall k :: 0 < k < |asks| ==> StampOf(asks[k].g) == Mark(p, asks[k - 1])
  }

  lemma MarkedConcat(p: Policy, a: seq<Ask>, b: seq<Ask>, first: Stamp, mid: Stamp, last: Stamp)
    requires Marked(p, a, first, mid) && Marked(p, b, mid, last)
    ensures Marked(p, a + b, first, last)
  {
    hide Mark, StampOf;
  }

  lemma ItemMarks(p: Policy, keys: StaticKeyStore, g: Gen, n: Names, e: Environment, item: BatchItem)
    requires item.count >= 0
    ensures StampOf(ItemEffect(p, keys, g, n, e, item).g) == Mark(p, Ask(g, e))
  {
    hide Sampled;
  }

  lemma {:induction false} ItemsMark(
    p: Policy, keys: StaticKeyStore, g: Gen, n: Names, es: seq<Environment>, items: seq<BatchItem>)
    requires |es| == |items|
    ensures Marked(p, ItemsAsked(p, keys, g, n, es, items),
                   StampOf(g), StampOf(ItemsEffect(p, keys, g, n, es, items).g))
    decreases |items|
  {
    hide ItemEffect, Mark, StampOf;
    if items == [] || !ItemValid(items[0]) {
    } else {
      ItemMarks(p, keys, g, n, es[0], items[0]);
      var first := ItemEffect(p, keys, g, n, es[0], items[0]);
      if first.status == Done {
        ItemsMark(p, keys, first.g, n, es[1..], items[1..]);
        MarkedConcat(p, [Ask(g, es[0])], ItemsAsked(p, keys, first.g, n, es[1..], items[1..]),
                     StampOf(g), StampOf(first.g), StampOf(ItemsEffect(p, keys, g, n, es, items).g));
      }
    }
  }

  lemma CardsMark(p: Policy, g: Gen, e: Environment, cards: seq<int64>)
    requires 0 < |cards| < W64
    ensures StampOf(CardsMade(p, g, e, cards).g) == Mark(p, Ask(g, e))
  {
  }

  lemma RequestMarks(p: Policy, keys: StaticKeyStore, g: Gen, r: Request)
    requires r.Complete()
    ensures Marked(p, Asked(p, keys, g, r), StampOf(g), StampOf(GenAfter(p, keys, g, r)))
  {
    hide ItemsAsked, ItemsEffect, ItemEffect, CardsMade, Mark;
    match r
    case GenerateRequest(n, item, e) =>
      if n.Given() && n.Allowed() && ItemValid(item) {
        ItemMarks(p, keys, g, n, e, item);
      }
    case BatchRequest(n, items, es) =>
      ItemsMark(p, keys, g, n, es, items);
    case ShuffleRequest(n, cards, e) =>
      if ShuffleTaken(n, cards) {
        CardsMark(p, g, e, cards);
      }
    case AuditRequest(_, _) =>
  }

  lemma NoneMarked(p: Policy, at: Stamp)
    ensures Marked(p, [], at, at)
  {
  }

  lemma {:induction false} RunMarks(p: Policy, keys: StaticKeyStore, g: Gen, rs: seq<Request>)
    requires AllComplete(rs)
    ensures Marked(p, AllAsked(p, keys, g, rs), StampOf(g), StampOf(GenAfterAll(p, keys, g, rs)))
  {
    hide Asked, GenAfter, Marked;
    if rs == [] {
      NoneMarked(p, StampOf(g));
    } else {
      var init, r := rs[..|rs| - 1], rs[|rs| - 1];
      var g1 := GenAfterAll(p, keys, g, init);
      RunMarks(p, keys, g, init);
      RequestMarks(p, keys, g1, r);
      MarkedConcat(p, AllAsked(p, keys, g, init), Asked(p, keys, g1, r),
                   StampOf(g), StampOf(g1), StampOf(GenAfter(p, keys, g1, r)));
    }
  }

  /** The mark at question `k` is where the last question before it that reseeded stood. */
  predicate MarkOfLast(p: Policy, asks: seq<Ask>, k: nat, mark: nat)
    requires k <= |asks|
  {
    && (forall j :: 0 <= j < k && Reseeds(p, asks[j].g, asks[j].e) ==> asks[j].g.words <= mark)
    && (mark > 0 ==> exists j :: 0 <= j < k && Reseeds(p, asks[j].g, asks[j].e) && asks[j].g.words == mark)
  }

  lemma {:induction false} LastMark(
    p: Policy, asks: seq<Ask>, first: Stamp, last: Stamp, low: nat, high: nat, k: nat)
    requires Growing(asks, low, high) && Marked(p, asks, first, last) && first.words == 0 && k < |asks|
    ensures MarkOfLast(p, asks, k, asks[k].g.reseededAt)
    decreases k
  {
    hide Reseeds;
    if k == 0 {
    } else {
      LastMark(p, asks, first, last, low, high, k - 1);
    }
  }

  /** The clock at the last of some questions that reseeded, `start` if none did, told from
      clocks, entropy and words alone. */
  function LastReseed(p: Policy, start: int, asks: seq<Ask>): int {
    if asks == [] then start
    else
      var a, last := asks[|asks| - 1], LastReseed(p, start, asks[..|asks| - 1]);
      if a.e.reseeded.Some?
         && (|| 8 * a.g.words % 0x1_0000_0000_0000_0000 >= p.intervalOutputs
             || (a.e.clock1 - last >= p.intervalSeconds && a.e.clock2 - last >= p.intervalSeconds))
      then a.e.clock3
      else last
  }

  lemma {:induction false} LastReseedIn(p: Policy, asks: seq<Ask>, first: Stamp, last: Stamp, k: nat)
    requires Marked(p, asks, first, last) && k < |asks|
    ensures asks[k].g.lastReseed == LastReseed(p, first.clock, asks[..k])
    decreases k
  {
    if k == 0 {
    } else {
      LastReseedIn(p, asks, first, last, k - 1);
      assert asks[..k][..k - 1] == asks[..k - 1];
      assert StampOf(asks[k].g) == Mark(p, asks[k - 1]);
    }
  }

  /** In any run, with any clocks and any failures of the entropy source, a question is
      answered by a reseed exactly if there is entropy and the count has reached its
      interval or, whenever the clock was looked at, the time since the last reseed had. */
  lemma ReseedSchedule(p: Policy, keys: StaticKeyStore, g: Gen, rs: seq<Request>, k: nat)
    requires AllComplete(rs) && k < |AllAsked(p, keys, g, rs)|
    ensures
      var asks := AllAsked(p, keys, g, rs);
      var (a, last) := (asks[k], LastReseed(p, g.lastReseed, asks[..k]));
      && a.g.lastReseed == last
      && (Reseeds(p, a.g, a.e) <==>
           && a.e.reseeded.Some?
           && (|| 8 * a.g.words % 0x1_0000_0000_0000_0000 >= p.intervalOutputs
               || (a.e.clock1 - last >= p.intervalSeconds && a.e.clock2 - last >= p.intervalSeconds)))
  {
    RunMarks(p, keys, g, rs);
    hide AllAsked, GenAfterAll, LastReseed, Marked;
    LastReseedIn(p, AllAsked(p, keys, g, rs), StampOf(g), StampOf(GenAfterAll(p, keys, g, rs)), k);
  }

  /** So a generator that is never refused entropy is never used when its last reseed is
      the interval ago or more, as long as the clock does not run back. */
  lemma NeverOverdue(p: Policy, keys: StaticKeyStore, g: Gen, rs: seq<Request>, k: nat)
    requires AllComplete(rs) && k < |AllAsked(p, keys, g, rs)| && p.intervalSeconds > 0
    requires
      var e := AllAsked(p, keys, g, rs)[k].e;
      e.reseeded.Some? && e.clock1 <= e.clock2 <= e.clock3
    ensures
      var asks := AllAsked(p, keys, g, rs);
      asks[k].e.clock1 - LastReseed(p, g.lastReseed, asks[..k + 1]) < p.intervalSeconds
  {
    ReseedSchedule(p, keys, g, rs, k);
    var asks := AllAsked(p, keys, g, rs);
    assert asks[..k + 1][..k] == asks[..k];
    hide AllAsked;
  }

  /** In any run, wherever no time is due, the generator is reseeded exactly if there is
      entropy and eight times all the words generated since the start, modulo 2^64, has
      reached the interval; before the count wraps, exactly if it had at any question so
      far, whatever has been reseeded since. */
  lemma ReseedsExactly(p: Policy, keys: StaticKeyStore, g: Gen, rs: seq<Request>, k: nat)
    requires AllComplete(rs) && k < |AllAsked(p, keys, g, rs)|
    requires
      var a := AllAsked(p, keys, g, rs)[k];
      !TimeDue(p, a.g, a.e.clock1) && !TimeDue(p, a.g, a.e.clock2)
    ensures
      var asks := AllAsked(p, keys, g, rs);
      var a := asks[k];
      && g.words <= a.g.words
      && (Reseeds(p, a.g, a.e) <==> 8 * a.g.words % W64 >= p.intervalOutputs && a.e.reseeded.Some?)
      && (8 * a.g.words < W64 ==>
           (Reseeds(p, a.g, a.e) <==>
             a.e.reseeded.Some? && exists j :: 0 <= j <= k && CountDue(p, asks[j].g)))
  {
    hide AllAsked;
    RunGrows(p, keys, g, rs);
  }

  /** Once the interval has been reached, every later question is answered by a reseed,
      whatever the time, until the count wraps. */
  lemma ReachedForGood(p: Policy, keys: StaticKeyStore, g: Gen, rs: seq<Request>, i: nat, j: nat)
    requires AllComplete(rs) && i <= j < |AllAsked(p, keys, g, rs)|
    requires 8 * AllAsked(p, keys, g, rs)[i].g.words >= p.intervalOutputs
    requires 8 * AllAsked(p, keys, g, rs)[j].g.words < W64
    ensures
      var a := AllAsked(p, keys, g, rs)[j];
      Reseeds(p, a.g, a.e) <==> a.e.reseeded.Some?
  {
    hide AllAsked;
    RunGrows(p, keys, g, rs);
  }

  /** The documented rule: as many bytes as the interval since the last reseed. */
  predicate DocumentedDue(p: Policy, g: Gen) {
    8 * (g.words - g.reseededAt) >= p.intervalOutputs
  }

  /** How many bytes were generated between two questions, by the count. */
  function BytesBetween(asks: seq<Ask>, j: nat, k: nat): int
    requires j <= k < |asks|
  {
    OutputBytes(asks[k].g) - OutputBytes(asks[j].g)
  }

  /** Up to question `k` the count has not wrapped. */
  lemma NotWrapped(asks: seq<Ask>, low: nat, high: nat, k: nat)
    requires Growing(asks, low, high) && k < |asks| && 8 * asks[k].g.words < W64
    ensures forall j :: 0 <= j <= k ==> OutputBytes(asks[j].g) == 8 * asks[j].g.words
  {
  }

  lemma FromStart(g: Gen)
    ensures StampOf(g).words == g.reseededAt
  {
  }

  lemma DecidedIn(p: Policy, asks: seq<Ask>, k: nat)
    requires k < |asks| && MarkOfLast(p, asks, k, asks[k].g.reseededAt)
    requires forall j :: 0 <= j <= k ==> OutputBytes(asks[j].g) == 8 * asks[j].g.words
    ensures DocumentedDue(p, asks[k].g) ==> CountDue(p, asks[k].g)
    ensures (CountDue(p, asks[k].g) <==> DocumentedDue(p, asks[k].g))
      <==>
      || OutputBytes(asks[k].g) < p.intervalOutputs
      || forall j :: 0 <= j < k && Reseeds(p, asks[j].g, asks[j].e) ==>
           BytesBetween(asks, j, k) >= p.intervalOutputs
  {
    hide Reseeds, OutputBytes;
    var mark := asks[k].g.reseededAt;
    if mark > 0 {
      var i :| 0 <= i < k && Reseeds(p, asks[i].g, asks[i].e) && asks[i].g.words == mark;
      assert BytesBetween(asks, i, k) == 8 * (asks[k].g.words - mark);
    }
    forall j | 0 <= j < k && Reseeds(p, asks[j].g, asks[j].e)
      ensures BytesBetween(asks, j, k) >= 8 * (asks[k].g.words - mark)
    {
    }
  }

  /** In any run from a start, with any clocks and any failures of the entropy source, as
      long as the count has not wrapped: a question is decided as documented exactly if the
      interval is not reached at all, or if since each of the questions before it that
      reseeded as many bytes as the interval have been generated. */
  lemma DecidedAsDocumented(p: Policy, keys: StaticKeyStore, g: Gen, rs: seq<Request>, k: nat)
    requires AllComplete(rs) && g.reseededAt == 0 && k < |AllAsked(p, keys, g, rs)|
    requires 8 * AllAsked(p, keys, g, rs)[k].g.words < W64
    ensures
      var asks := AllAsked(p, keys, g, rs);
      && (DocumentedDue(p, asks[k].g) ==> CountDue(p, asks[k].g))
      && ((CountDue(p, asks[k].g) <==> DocumentedDue(p, asks[k].g))
        <==>
        || OutputBytes(asks[k].g) < p.intervalOutputs
        || forall j :: 0 <= j < k && Reseeds(p, asks[j].g, asks[j].e) ==>
             BytesBetween(asks, j, k) >= p.intervalOutputs)
  {
    hide *;
    var asks := AllAsked(p, keys, g, rs);
    RunGrows(p, keys, g, rs);
    RunMarks(p, keys, g, rs);
    FromStart(g);
    LastMark(p, asks, StampOf(g), StampOf(GenAfterAll(p, keys, g, rs)), g.words, GenAfterAll(p, keys, g, rs).words, k);
    NotWrapped(asks, g.words, GenAfterAll(p, keys, g, rs).words, k);
    DecidedIn(p, asks, k);
  }

  /** In particular, where no time is due and there is always entropy, a question is decided
      as documented exactly if it is the first, or the one before had not reached the
      interval, or as many bytes as the interval were generated between the two. */
  lemma AsDocumentedExactly(p: Policy, keys: StaticKeyStore, g: Gen, rs: seq<Request>, k: nat)
    requires AllComplete(rs) && g.reseededAt == 0 && k < |AllAsked(p, keys, g, rs)|
    requires 8 * AllAsked(p, keys, g, rs)[k].g.words < W64
    requires forall a :: a in AllAsked(p, keys, g, rs)[..k] ==>
      a.e.reseeded.Some? && !TimeDue(p, a.g, a.e.clock1) && !TimeDue(p, a.g, a.e.clock2)
    ensures
      var asks := AllAsked(p, keys, g, rs);
      && (DocumentedDue(p, asks[k].g) ==> CountDue(p, asks[k].g))
      && ((CountDue(p, asks[k].g) <==> DocumentedDue(p, asks[k].g))
        <==>
        || k == 0
        || OutputBytes(asks[k - 1].g) < p.intervalOutputs
        || BytesBetween(asks, k - 1, k) >= p.intervalOutputs)
  {
    var asks := AllAsked(p, keys, g, rs);
    RunGrows(p, keys, g, rs);
    DecidedAsDocumented(p, keys, g, rs, k);
    hide AllAsked, GenAfterAll;
    NotWrapped(asks, g.words, GenAfterAll(p, keys, g, rs).words, k);
    assert forall j :: 0 <= j < k ==> asks[j] in asks[..k];
    assert forall j :: 0 <= j < k ==> (Reseeds(p, asks[j].g, asks[j].e) <==> CountDue(p, asks[j].g));
  }
}
