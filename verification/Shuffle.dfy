/** The Fisher-Yates shuffle in place, and why every order of the deck is equally likely. */
module Shuffle {
  import opened Scaling

  function Swapped(deck: seq<int>, i: nat, j: nat): (d: seq<int>)
    requires i < |deck| && j < |deck|
    ensures |d| == |deck|
  {
    deck[i := deck[j]][j := deck[i]]
  }

  /** An index for position `i`, the next for the position before it, and so on. */
  predicate Bounded(js: seq<nat>, i: nat) {
    forall k :: 0 <= k < |js| ==> js[k] <= i - k
  }

  /** The indices drawn for the positions `i` down to 1; an error ends the list. */
  function Indices(tape: seq<Draw>, i: nat): (js: seq<nat>)
    requires i < W64 - 1
    ensures |js| <= i && Bounded(js, i)
    decreases i
  {
    if i == 0 then [] else
    var d := InRange(tape, i + 1);
    if d.value.None? then [] else [d.value.value] + Indices(tape[d.used..], i - 1)
  }

  function Remaining(tape: seq<Draw>, i: nat): seq<Draw>
    requires i < W64 - 1
    decreases i
  {
    if i == 0 then tape else
    var d := InRange(tape, i + 1);
    if d.value.None? then tape[d.used..] else Remaining(tape[d.used..], i - 1)
  }

  lemma BoundedTail(js: seq<nat>, i: nat)
    requires js != [] && |js| <= i && Bounded(js, i)
    ensures js[0] <= i && Bounded(js[1..], i - 1)
  {
    forall k | 0 <= k < |js[1..]| ensures js[1..][k] <= i - 1 - k {
      assert js[k + 1] <= i - (k + 1);
    }
  }

  /** The swaps at the positions from `i` down, one for each index. */
  function Rearranged(deck: seq<int>, js: seq<nat>, i: nat): (d: seq<int>)
    requires |js| <= i < |deck| && Bounded(js, i)
    ensures |d| == |deck|
    decreases |js|
  {
    if js == [] then deck
    else
      BoundedTail(js, i);
      Rearranged(Swapped(deck, i, js[0]), js[1..], i - 1)
  }

  /** The deck and what is left of the tape; `ok` unless the generator failed. */
  datatype Outcome = Outcome(deck: seq<int>, ok: bool, rest: seq<Draw>)

  function Shuffled(deck: seq<int>, tape: seq<Draw>, i: int): Outcome
    requires i < |deck| < W64
    decreases i
  {
    if i <= 0 then Outcome(deck, true, tape) else
    var d := InRange(tape, i + 1);
    if d.value.None? then Outcome(deck, false, tape[d.used..])
    else Shuffled(Swapped(deck, i, d.value.value), tape[d.used..], i - 1)
  }

  lemma UnfoldShuffled(deck: seq<int>, tape: seq<Draw>, i: int)
    requires i < |deck| < W64
    ensures Shuffled(deck, tape, i) ==
      if i <= 0 then Outcome(deck, true, tape) else
      var d := InRange(tape, i + 1);
      if d.value.None? then Outcome(deck, false, tape[d.used..])
      else Shuffled(Swapped(deck, i, d.value.value), tape[d.used..], i - 1)
  {
  }

  method SwapInPlace(deck: array<int>, i: nat, j: nat)
    requires i < deck.Length && j < deck.Length
    modifies deck
    ensures deck[..] == Swapped(old(deck[..]), i, j)
  {
    deck[i], deck[j] := deck[j], deck[i];
  }

  /** Shuffles the deck; false if the generator failed on the way. */
  method Shuffle(rng: Rng, deck: array<int>) returns (ok: bool)
    requires deck.Length < W64 && rng.Valid()
    modifies rng, deck
    ensures rng.Valid() && rng.Promised() == old(rng.Promised())
    ensures Outcome(deck[..], ok, rng.tape) == Shuffled(old(deck[..]), old(rng.tape), deck.Length - 1)
  {
    hide *;
    var i := deck.Length - 1;
    ghost var before, tape := deck[..], rng.tape;
    while i > 0
      invariant i < deck.Length
      invariant rng.Valid() && rng.Promised() == old(rng.Promised())
      invariant Shuffled(deck[..], rng.tape, i) == Shuffled(before, tape, deck.Length - 1)
    {
      UnfoldShuffled(deck[..], rng.tape, i);
      var j := RandRange(rng, i + 1);
      if j.None? {
        return false;
      }
      SwapInPlace(deck, i, j.value);
      i := i - 1;
    }
    UnfoldShuffled(deck[..], rng.tape, i);
    ok := true;
  }

  lemma {:induction false} ShuffledRest(deck: seq<int>, tape: seq<Draw>, i: int)
    requires i < |deck| < W64
    ensures Words(Shuffled(deck, tape, i).rest) <= Words(tape)
    decreases i
  {
    hide *;
    UnfoldShuffled(deck, tape, i);
    if i <= 0 {
    } else {
      var d := InRange(tape, i + 1);
      WordsOfRest(tape, d.used);
      if d.value.Some? {
        ShuffledRest(Swapped(deck, i, d.value.value), tape[d.used..], i - 1);
      }
    }
  }

  /** Cards drawn one by one from a pool, the last card of which fills the gap each time;
      the first one drawn goes to the end, and so on forwards. */
  function DrawnFrom(pool: seq<int>, js: seq<nat>): seq<int>
    requires |js| < |pool| && Bounded(js, |pool| - 1)
    decreases |js|
  {
    if js == [] then pool
    else
      BoundedTail(js, |pool| - 1);
      var last := |pool| - 1;
      DrawnFrom(pool[js[0] := pool[last]][..last], js[1..]) + [pool[js[0]]]
  }

  /** The swaps draw from the pool of the cards up to position `i`, and leave the others. */
  lemma {:induction false} RearrangedIsDrawn(deck: seq<int>, js: seq<nat>, i: nat)
    requires |js| <= i < |deck| && Bounded(js, i)
    ensures Rearranged(deck, js, i) == DrawnFrom(deck[..i + 1], js) + deck[i + 1..]
    decreases |js|
  {
    if js == [] {
      assert deck == deck[..i + 1] + deck[i + 1..];
    } else {
      BoundedTail(js, i);
      var (j, pool, d) := (js[0], deck[..i + 1], Swapped(deck, i, js[0]));
      RearrangedIsDrawn(d, js[1..], i - 1);
      assert d[..i] == pool[j := pool[i]][..i];
      assert d[i] == deck[j] == pool[j] && d[i + 1..] == deck[i + 1..];
      assert d[i..] == [d[i]] + d[i + 1..];
    }
  }

  /** The shuffle takes its indices off the tape and makes the swaps they name. */
  lemma {:induction false} ShuffledByIndices(deck: seq<int>, tape: seq<Draw>, i: nat)
    requires i < |deck| < W64
    ensures
      var js := Indices(tape, i);
      Shuffled(deck, tape, i) == Outcome(Rearranged(deck, js, i), |js| == i, Remaining(tape, i))
    decreases i
  {
    hide InRange;
    if i == 0 {
    } else {
      var d := InRange(tape, i + 1);
      if d.value.Some? {
        assert Indices(tape, i)[1..] == Indices(tape[d.used..], i - 1);
        ShuffledByIndices(Swapped(deck, i, d.value.value), tape[d.used..], i - 1);
      }
    }
  }

  /* ---- The deck is rearranged, nothing else ---- */

  lemma SwappedMultiset(deck: seq<int>, i: nat, j: nat)
    requires i < |deck| && j < |deck|
    ensures multiset(Swapped(deck, i, j)) == multiset(deck)
  {
    var d := deck[i := deck[j]];
    assert multiset(d) == multiset(deck) - multiset{deck[i]} + multiset{deck[j]};
    assert multiset(Swapped(deck, i, j)) == multiset(d) - multiset{d[j]} + multiset{deck[i]};
  }

  lemma {:induction false} Multiset(deck: seq<int>, js: seq<nat>, i: nat)
    requires |js| <= i < |deck| && Bounded(js, i)
    ensures multiset(Rearranged(deck, js, i)) == multiset(deck)
    decreases |js|
  {
    if js == [] {
    } else {
      BoundedTail(js, i);
      SwappedMultiset(deck, i, js[0]);
      Multiset(Swapped(deck, i, js[0]), js[1..], i - 1);
    }
  }

  /** The shuffle keeps the cards, and leaves an end of the tape. */
  lemma ShuffledKeeps(deck: seq<int>, tape: seq<Draw>, i: nat)
    requires i < |deck| < W64
    ensures multiset(Shuffled(deck, tape, i).deck) == multiset(deck)
    ensures Words(Shuffled(deck, tape, i).rest) <= Words(tape)
  {
    hide Shuffled, Words;
    ShuffledRest(deck, tape, i);
    ShuffledByIndices(deck, tape, i);
    Multiset(deck, Indices(tape, i), i);
  }

  /** Positions above the ones still to be swapped are final. */
  lemma {:induction false} Final(deck: seq<int>, js: seq<nat>, i: nat, k: nat)
    requires |js| <= i < k < |deck| && Bounded(js, i)
    ensures Rearranged(deck, js, i)[k] == deck[k]
    decreases |js|
  {
    if js == [] {
    } else {
      BoundedTail(js, i);
      Final(Swapped(deck, i, js[0]), js[1..], i - 1, k);
    }
  }

  /* ---- One vector of indices for each order ---- */

  predicate Distinct(deck: seq<int>) {
    forall a, b :: 0 <= a < b < |deck| ==> deck[a] != deck[b]
  }

  /** A full vector of indices for a deck whose last position is `i`. */
  predicate Vector(js: seq<nat>, i: nat) {
    |js| == i && Bounded(js, i)
  }

  /** `target` holds what `deck` holds, and is the same above position `i`. */
  predicate Order(deck: seq<int>, target: seq<int>, i: nat) {
    && |target| == |deck|
    && multiset(target) == multiset(deck)
    && forall k :: i < k < |deck| ==> target[k] == deck[k]
  }

  /** The index at which the deck has what the target has at position `i`. */
  function Find(deck: seq<int>, x: int, i: nat): (j: nat)
    requires i < |deck| && exists k :: 0 <= k <= i && deck[k] == x
    ensures j <= i && deck[j] == x
    decreases i
  {
    if deck[i] == x then i else Find(deck, x, i - 1)
  }

  lemma Twice(s: seq<int>, a: nat, b: nat)
    requires a < b < |s| && s[a] == s[b]
    ensures multiset(s)[s[a]] >= 2
  {
    assert s == s[..b] + s[b..];
    assert s[a] == s[..b][a] && s[b] == s[b..][0];
    assert s[a] in multiset(s[..b]) && s[a] in multiset(s[b..]);
  }

  lemma {:induction false} AtMostOnce(s: seq<int>, x: int)
    requires Distinct(s)
    ensures multiset(s)[x] <= 1
  {
    if s == [] {
    } else {
      var init, last := s[..|s| - 1], s[|s| - 1];
      assert s == init + [last];
      AtMostOnce(init, x);
      if x == last {
        assert x !in init;
      }
    }
  }

  lemma DistinctTarget(deck: seq<int>, target: seq<int>)
    requires Distinct(deck) && multiset(deck) == multiset(target)
    ensures Distinct(target)
  {
    forall a, b | 0 <= a < b < |target| ensures target[a] != target[b] {
      if target[a] == target[b] {
        Twice(target, a, b);
        AtMostOnce(deck, target[a]);
      }
    }
  }

  lemma Findable(deck: seq<int>, target: seq<int>, i: nat)
    requires i < |deck| && Distinct(deck) && Order(deck, target, i)
    ensures exists k :: 0 <= k <= i && deck[k] == target[i]
  {
    DistinctTarget(deck, target);
    assert target[i] in multiset(target);
    assert target[i] in multiset(deck);
    var k :| 0 <= k < |deck| && deck[k] == target[i];
    assert deck[k] == target[k] ==> k == i;
  }

  lemma NextOrder(deck: seq<int>, target: seq<int>, i: nat, j: nat)
    requires 0 < i < |deck| && Distinct(deck) && Order(deck, target, i)
    requires j <= i && deck[j] == target[i]
    ensures Distinct(Swapped(deck, i, j)) && Order(Swapped(deck, i, j), target, i - 1)
  {
    SwappedMultiset(deck, i, j);
    DistinctTarget(deck, Swapped(deck, i, j));
  }

  /** The indices that bring a deck into a given order. */
  function IndicesFor(deck: seq<int>, target: seq<int>, i: nat): (js: seq<nat>)
    requires i < |deck| && Distinct(deck) && Order(deck, target, i)
    ensures |js| == i && Bounded(js, i)
    decreases i
  {
    if i == 0 then []
    else
      Findable(deck, target, i);
      var j := Find(deck, target[i], i);
      NextOrder(deck, target, i, j);
      [j] + IndicesFor(Swapped(deck, i, j), target, i - 1)
  }

  lemma FirstFollows(deck: seq<int>, target: seq<int>)
    requires deck != [] && Order(deck, target, 0)
    ensures target == deck
  {
    var rest := deck[1..];
    assert target[1..] == rest;
    assert deck == [deck[0]] + rest && target == [target[0]] + rest;
    assert multiset(deck) == multiset{deck[0]} + multiset(rest);
    assert multiset(target) == multiset{target[0]} + multiset(rest);
    assert multiset{deck[0]} == multiset(deck) - multiset(rest);
  }

  /** Every order is reached. */
  lemma {:induction false} Reached(deck: seq<int>, target: seq<int>, i: nat)
    requires i < |deck| && Distinct(deck) && Order(deck, target, i)
    ensures Rearranged(deck, IndicesFor(deck, target, i), i) == target
    decreases i
  {
    if i == 0 {
      FirstFollows(deck, target);
    } else {
      Findable(deck, target, i);
      var j := Find(deck, target[i], i);
      NextOrder(deck, target, i, j);
      Reached(Swapped(deck, i, j), target, i - 1);
      assert IndicesFor(deck, target, i)[1..] == IndicesFor(Swapped(deck, i, j), target, i - 1);
    }
  }

  lemma OrderOf(deck: seq<int>, js: seq<nat>, i: nat)
    requires |js| <= i < |deck| && Bounded(js, i)
    ensures Order(deck, Rearranged(deck, js, i), i)
  {
    Multiset(deck, js, i);
    forall k | i < k < |deck| ensures Rearranged(deck, js, i)[k] == deck[k] {
      Final(deck, js, i, k);
    }
  }

  /** The first index can be read off the result. */
  lemma ReadFirst(deck: seq<int>, js: seq<nat>, i: nat)
    requires 0 < i < |deck| && Distinct(deck) && Vector(js, i)
    ensures Vector(js[1..], i - 1) && Distinct(Swapped(deck, i, js[0]))
    ensures Rearranged(deck, js, i) == Rearranged(Swapped(deck, i, js[0]), js[1..], i - 1)
    ensures Order(deck, Rearranged(deck, js, i), i)
    ensures exists k :: 0 <= k <= i && deck[k] == Rearranged(deck, js, i)[i]
    ensures Find(deck, Rearranged(deck, js, i)[i], i) == js[0]
  {
    var target := Rearranged(deck, js, i);
    OrderOf(deck, js, i);
    BoundedTail(js, i);
    var next := Swapped(deck, i, js[0]);
    assert target == Rearranged(next, js[1..], i - 1);
    Final(next, js[1..], i - 1, i);
    assert target[i] == deck[js[0]];
    hide Rearranged, Order, Find;
    Findable(deck, target, i);
    var j := Find(deck, target[i], i);
    assert deck[j] == deck[js[0]];
    assert j == js[0];
    NextOrder(deck, target, i, j);
  }

  /** No order is reached by two vectors of indices: they can be read off the result. */
  lemma {:induction false} ReadOff(deck: seq<int>, js: seq<nat>, i: nat)
    requires i < |deck| && Distinct(deck) && Vector(js, i)
    ensures Order(deck, Rearranged(deck, js, i), i)
    ensures IndicesFor(deck, Rearranged(deck, js, i), i) == js
    decreases i
  {
    hide Distinct, Order, Find, Rearranged, Swapped;
    if i == 0 {
      OrderOf(deck, js, i);
    } else {
      ReadFirst(deck, js, i);
      ReadOff(Swapped(deck, i, js[0]), js[1..], i - 1);
      assert js == [js[0]] + js[1..];
    }
  }

  /** Fisher-Yates is a bijection: each order of a deck of distinct cards comes from
      exactly one vector of indices. */
  lemma OneVectorForEachOrder(deck: seq<int>, target: seq<int>, js: seq<nat>)
    requires deck != [] && Distinct(deck) && Order(deck, target, |deck| - 1)
    ensures
      Vector(js, |deck| - 1) && Rearranged(deck, js, |deck| - 1) == target
      <==> js == IndicesFor(deck, target, |deck| - 1)
  {
    Reached(deck, target, |deck| - 1);
    if Vector(js, |deck| - 1) {
      ReadOff(deck, js, |deck| - 1);
    }
  }

  /* ---- No bias over whole runs ---- */

  /** The tape with the words for `a[k]` and `b[k]` exchanged in the k-th sampling. */
  function Retaken(tape: seq<Draw>, i: nat, a: seq<nat>, b: seq<nat>): (tape': seq<Draw>)
    requires i < W64 - 1 && Vector(a, i) && Vector(b, i)
    ensures |tape'| == |tape|
    decreases i
  {
    if i == 0 then tape else
    BoundedTail(a, i);
    BoundedTail(b, i);
    var d := InRange(tape, i + 1);
    var first := Retaped(tape, i + 1, a[0], b[0]);
    if d.value.None? then first
    else first[..d.used] + Retaken(tape[d.used..], i - 1, a[1..], b[1..])
  }

  function TradedAll(js: seq<nat>, a: seq<nat>, b: seq<nat>): (ks: seq<nat>)
    requires |js| <= |a| == |b|
    ensures |ks| == |js|
  {
    if js == [] then [] else [Traded(js[0], a[0], b[0])] + TradedAll(js[1..], a[1..], b[1..])
  }

  lemma {:induction false} TradedVectors(js: seq<nat>, a: seq<nat>, b: seq<nat>)
    requires |js| == |a| == |b|
    ensures TradedAll(js, a, b) == b <==> js == a
  {
    if js == [] {
    } else {
      TradedVectors(js[1..], a[1..], b[1..]);
      assert TradedAll(js, a, b)[1..] == TradedAll(js[1..], a[1..], b[1..]);
      assert b == [b[0]] + b[1..] && a == [a[0]] + a[1..] && js == [js[0]] + js[1..];
    }
  }

  lemma UnfoldIndices(tape: seq<Draw>, i: nat)
    requires 0 < i < W64 - 1
    ensures
      var d := Sample(tape, i + 1);
      Indices(tape, i) == if d.value.None? then [] else [d.value.value] + Indices(tape[d.used..], i - 1)
  {
    hide Sample;
  }

  lemma UnfoldRetaken(tape: seq<Draw>, i: nat, a: seq<nat>, b: seq<nat>)
    requires 0 < i < W64 - 1 && Vector(a, i) && Vector(b, i)
    ensures a[0] <= i && b[0] <= i && Vector(a[1..], i - 1) && Vector(b[1..], i - 1)
    ensures
      var d, first := Sample(tape, i + 1), Retaped(tape, i + 1, a[0], b[0]);
      Retaken(tape, i, a, b) ==
        if d.value.None? then first else first[..d.used] + Retaken(tape[d.used..], i - 1, a[1..], b[1..])
  {
    hide Sample, Retaped;
    BoundedTail(a, i);
    BoundedTail(b, i);
  }

  lemma UnfoldTraded(j: nat, js: seq<nat>, a: seq<nat>, b: seq<nat>)
    requires 1 + |js| <= |a| == |b|
    ensures TradedAll([j] + js, a, b) == [Traded(j, a[0], b[0])] + TradedAll(js, a[1..], b[1..])
    ensures TradedAll([], a, b) == []
  {
    assert ([j] + js)[1..] == js;
  }

  lemma NoneRetaken(tape: seq<Draw>, a: seq<nat>, b: seq<nat>)
    ensures Vector(a, 0) && Vector(b, 0) ==>
      Retaken(tape, 0, a, b) == tape && Indices(tape, 0) == [] && TradedAll([], a, b) == []
  {
  }

  lemma RetakenFails(tape: seq<Draw>, i: nat, a: seq<nat>, b: seq<nat>)
    requires 0 < i < W64 - 1 && Vector(a, i) && Vector(b, i) && Sample(tape, i + 1).value.None?
    ensures Indices(Retaken(tape, i, a, b), i) == TradedAll(Indices(tape, i), a, b)
    ensures Retaken(Retaken(tape, i, a, b), i, a, b) == tape
  {
    hide Sample, Retaped, Bounded, Retaken, Indices;
    UnfoldRetaken(tape, i, a, b);
    UnfoldIndices(tape, i);
    EqualRuns(tape, i + 1, a[0], b[0]);
    UnfoldRetaken(Retaken(tape, i, a, b), i, a, b);
    UnfoldIndices(Retaken(tape, i, a, b), i);
  }

  lemma RetapedThen(tape: seq<Draw>, max: u64, a: nat, b: nat, rest: seq<Draw>)
    requires a < max && b < max && Sample(tape, max).value.Some?
    ensures
      var d := Sample(tape, max);
      var tape' := Retaped(tape, max, a, b)[..d.used] + rest;
      && Sample(tape', max).used == d.used && Sample(tape', max).value.Some?
      && Sample(tape', max).value.value == Traded(d.value.value, a, b) && tape'[d.used..] == rest
      && Retaped(tape', max, a, b)[..d.used] == tape[..d.used]
  {
    hide Sample, Retaped, Traded;
    EqualRunsThen(tape, max, a, b, rest);
    var d := Sample(tape, max);
    assert (tape[..d.used] + rest)[..d.used] == tape[..d.used];
  }

  lemma RetakenGoesOn(tape: seq<Draw>, i: nat, a: seq<nat>, b: seq<nat>)
    requires 0 < i < W64 - 1 && Vector(a, i) && Vector(b, i) && Sample(tape, i + 1).value.Some?
    requires Vector(a[1..], i - 1) && Vector(b[1..], i - 1)
    requires
      var more := tape[Sample(tape, i + 1).used..];
      var rest := Retaken(more, i - 1, a[1..], b[1..]);
      && Indices(rest, i - 1) == TradedAll(Indices(more, i - 1), a[1..], b[1..])
      && Retaken(rest, i - 1, a[1..], b[1..]) == more
    ensures Indices(Retaken(tape, i, a, b), i) == TradedAll(Indices(tape, i), a, b)
    ensures Retaken(Retaken(tape, i, a, b), i, a, b) == tape
  {
    hide Sample, Retaped, Bounded, Retaken, Indices, TradedAll, Traded;
    var d := Sample(tape, i + 1);
    var more := tape[d.used..];
    var rest := Retaken(more, i - 1, a[1..], b[1..]);
    UnfoldRetaken(tape, i, a, b);
    UnfoldIndices(tape, i);
    RetapedThen(tape, i + 1, a[0], b[0], rest);
    var tape' := Retaken(tape, i, a, b);
    UnfoldRetaken(tape', i, a, b);
    UnfoldIndices(tape', i);
    UnfoldTraded(d.value.value, Indices(more, i - 1), a, b);
    assert tape[..d.used] + more == tape;
  }

  lemma {:induction false} RetakenRuns(tape: seq<Draw>, i: nat, a: seq<nat>, b: seq<nat>)
    requires i < W64 - 1 && Vector(a, i) && Vector(b, i)
    ensures Indices(Retaken(tape, i, a, b), i) == TradedAll(Indices(tape, i), a, b)
    ensures Retaken(Retaken(tape, i, a, b), i, a, b) == tape
    decreases i
  {
    NoneRetaken(tape, a, b);
    hide Sample, Retaped, Retaken, Indices, TradedAll, Bounded;
    if i == 0 {
    } else {
      UnfoldRetaken(tape, i, a, b);
      var d := Sample(tape, i + 1);
      if d.value.None? {
        RetakenFails(tape, i, a, b);
      } else {
        RetakenRuns(tape[d.used..], i - 1, a[1..], b[1..]);
        RetakenGoesOn(tape, i, a, b);
      }
    }
  }

  /** Any two orders of a deck of distinct cards come from equally many tapes of any
      length: exchanging words maps the tapes that give the one onto those that give the
      other, and undoes itself. */
  lemma NoBias(deck: seq<int>, x: seq<int>, y: seq<int>, tape: seq<Draw>)
    requires 0 < |deck| < W64 && Distinct(deck)
    requires Order(deck, x, |deck| - 1) && Order(deck, y, |deck| - 1)
    ensures
      var n := |deck| - 1;
      var a, b := IndicesFor(deck, x, n), IndicesFor(deck, y, n);
      var tape' := Retaken(tape, n, a, b);
      && |tape'| == |tape| && Retaken(tape', n, a, b) == tape
      && var s, s' := Shuffled(deck, tape, n), Shuffled(deck, tape', n);
      && s.ok == s'.ok && (s.ok ==> (s.deck == x <==> s'.deck == y))
  {
    hide Retaken, Indices, Rearranged, Bounded, TradedAll, IndicesFor, Shuffled, Remaining;
    var n := |deck| - 1;
    var a, b := IndicesFor(deck, x, n), IndicesFor(deck, y, n);
    var tape' := Retaken(tape, n, a, b);
    var js, js' := Indices(tape, n), Indices(tape', n);
    RetakenRuns(tape, n, a, b);
    ShuffledByIndices(deck, tape, n);
    ShuffledByIndices(deck, tape', n);
    if |js| == n {
      TradedVectors(js, a, b);
      OneVectorForEachOrder(deck, x, js);
      OneVectorForEachOrder(deck, y, js');
    }
  }
}
