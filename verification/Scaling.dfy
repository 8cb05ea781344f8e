/** Unbiased scaling of random words to a range: rejection sampling over 64-bit words and
    over 32-bit words, and exactly how many words give each result. */
module Scaling {
  import opened Bytes
  import opened Wrappers
  const W32: nat := 0x1_0000_0000
  const W64: nat := 0x1_0000_0000_0000_0000
  type u32 = n: nat | n < W32
  type u64 = n: nat | n < W64
  type Word8 = s: seq<byte> | |s| == 8 witness [0, 0, 0, 0, 0, 0, 0, 0]

  /** One call of the generator: eight bytes, or an error. */
  datatype Draw = Word(bytes: Word8) | Failure

  function Value(w: Word8): u64 {
    WordSizes();
    FromBigEndian(w)
  }

  /** How many words there are among the draws. */
  function Words(draws: seq<Draw>): nat {
    if draws == [] then 0 else (if draws[0].Word? then 1 else 0) + Words(draws[1..])
  }

  /** A generator is what it is going to return; behind the end of the tape it fails. It
      counts the bytes it has generated, modulo 2^64. */
  class Rng {
    var tape: seq<Draw>
    var outputBytes: u64
    ghost var words: nat

    ghost predicate Valid()
      reads this
    {
      outputBytes == 8 * words % W64
    }

    /** The words it has generated and those still on the tape. */
    ghost function Promised(): nat
      reads this
    {
      words + Words(tape)
    }

    constructor (tape: seq<Draw>)
      ensures Valid() && this.tape == tape && outputBytes == 0 && words == 0
    {
      this.tape, outputBytes, words := tape, 0, 0;
    }

    method Generate8() returns (d: Draw)
      requires Valid()
      modifies this
      ensures Valid() && Promised() == old(Promised())
      ensures old(tape) == [] ==> d == Failure && tape == []
      ensures old(tape) != [] ==> d == old(tape[0]) && tape == old(tape[1..])
    {
      if tape == [] {
        return Failure;
      }
      d, tape := tape[0], tape[1..];
      if d.Word? {
        outputBytes := (outputBytes + 8) % W64;
        words := words + 1;
      }
    }

    /** Another future; the count of bytes goes on. */
    method Reseed(future: seq<Draw>)
      modifies this`tape
      ensures tape == future
    {
      tape := future;
    }
  }

  /* ---- Sampling ---- */

  /** A result, and how many draws it took. */
  datatype Drawn = Drawn(value: Option<u64>, used: nat)

  /** -max modulo 2^64, modulo max. */
  function Threshold(max: u64): u64
    requires max > 0
  {
    (W64 - max) % W64 % max
  }

  predicate Accepted(n: u64, max: u64)
    requires max > 0
  {
    n >= Threshold(max)
  }

  function Sample(tape: seq<Draw>, max: u64): (d: Drawn)
    requires max > 0
    ensures d.used <= |tape| && (d.value.Some? ==> d.value.value < max)
  {
    if tape == [] then Drawn(None, 0)
    else if tape[0].Failure? then Drawn(None, 1)
    else if Accepted(Value(tape[0].bytes), max) then Drawn(Some(Value(tape[0].bytes) % max), 1)
    else
      var d := Sample(tape[1..], max);
      Drawn(d.value, d.used + 1)
  }

  function InRange(tape: seq<Draw>, max: u64): (d: Drawn)
    ensures d.used <= |tape| && (d.value.Some? ==> d.value.value < max)
  {
    if max == 0 then Drawn(None, 0)
    else if max == 1 then Drawn(Some(0), 0)
    else Sample(tape, max)
  }

  /** A uniform value below `max`. */
  method RandRange(rng: Rng, max: u64) returns (r: Option<u64>)
    requires rng.Valid()
    modifies rng
    ensures rng.Valid() && rng.Promised() == old(rng.Promised())
    ensures
      var d := InRange(old(rng.tape), max);
      r == d.value && rng.tape == old(rng.tape)[d.used..]
  {
    if max == 0 {
      return None;
    }
    if max == 1 {
      return Some(0);
    }
    ghost var tape, used := rng.tape, 0;
    var threshold := (W64 - max) % W64 % max;
    while true
      invariant used <= |tape| && rng.tape == tape[used..]
      invariant rng.Valid() && rng.Promised() == old(rng.Promised())
      invariant Sample(tape, max).value == Sample(rng.tape, max).value
      invariant Sample(tape, max).used == used + Sample(rng.tape, max).used
      decreases |rng.tape|
    {
      ghost var left := rng.tape;
      var d := rng.Generate8();
      used := used + if left == [] then 0 else 1;
      if d.Failure? {
        return None;
      }
      var n := Value(d.bytes);
      if n >= threshold {
        return Some(n % max);
      }
    }
  }

  /** A uniform value between the bounds; none if they are crossed or span all words. */
  method RandRangeInclusive(rng: Rng, min: u64, max: u64) returns (r: Option<u64>)
    requires rng.Valid()
    modifies rng
    ensures rng.Valid() && rng.Promised() == old(rng.Promised())
    ensures min > max || max - min == W64 - 1 ==> r == None && rng.tape == old(rng.tape)
    ensures min <= max && max - min < W64 - 1 ==>
      var d := InRange(old(rng.tape), max - min + 1);
      && rng.tape == old(rng.tape)[d.used..]
      && r == (if d.value.Some? then Some(min + d.value.value) else None)
    ensures r.Some? ==> min <= r.value <= max
  {
    hide Sample, Words;
    if min > max {
      return None;
    }
    var span := (max - min + 1) % W64;
    assert span == if max - min == W64 - 1 then 0 else max - min + 1;
    var n := RandRange(rng, span);
    if n.None? {
      return None;
    }
    return Some((min + n.value) % W64);
  }

  lemma {:induction false} WordsOfRest(draws: seq<Draw>, k: nat)
    requires k <= |draws|
    ensures Words(draws[k..]) <= Words(draws)
  {
    if k == 0 {
      assert draws[0..] == draws;
    } else {
      WordsOfRest(draws[1..], k - 1);
      assert draws[1..][k - 1..] == draws[k..];
    }
  }

  /* ---- Counting ---- */

  predicate LeavesRest(n: nat, max: nat, r: nat)
    requires max > 0
  {
    n % max == r
  }

  /** The numbers from `t` on, `q` times `max` of them, that leave the rest `r`. */
  ghost function WithRest(t: nat, q: nat, max: nat, r: nat): set<nat>
    requires max > 0
  {
    set n: nat | t <= n < t + q * max && LeavesRest(n, max, r)
  }

  lemma Quotient(n: nat, max: nat) returns (c: nat, s: nat)
    requires max > 0
    ensures c == n / max && s == n % max && s < max && n == c * max + s
  {
    c, s := n / max, n % max;
  }

  lemma FirstWithRest(start: nat, max: nat, r: nat) returns (x: nat)
    requires r < max
    ensures start <= x < start + max && LeavesRest(x, max, r)
  {
    var c, s := Quotient(start, max);
    if r >= s {
      x := start + r - s;
      ModuloUnique(x, max, c, r);
    } else {
      x := start + r - s + max;
      assert (c + 1) * max == c * max + max;
      ModuloUnique(x, max, c + 1, r);
    }
  }

  lemma SameRest(n: nat, x: nat, max: nat)
    requires max > 0 && n % max == x % max && n - x < max && x - n < max
    ensures n == x
  {
    var c, s := Quotient(n, max);
    var c', s' := Quotient(x, max);
    assert (c - c') * max == c * max - c' * max;
    MulAtLeast(c - c', max);
  }

  /** In `max` numbers in a row, one leaves the rest `r`. */
  lemma OnlyOne(start: nat, max: nat, r: nat) returns (x: nat)
    requires r < max
    ensures start <= x < start + max && LeavesRest(x, max, r)
    ensures forall n: nat :: start <= n < start + max && LeavesRest(n, max, r) ==> n == x
  {
    x := FirstWithRest(start, max, r);
    forall n: nat | start <= n < start + max && LeavesRest(n, max, r) ensures n == x {
      SameRest(n, x, max);
    }
  }

  lemma {:induction false} CountWithRest(t: nat, q: nat, max: nat, r: nat)
    requires r < max
    ensures |WithRest(t, q, max, r)| == q
  {
    if q == 0 {
      assert WithRest(t, q, max, r) == {};
    } else {
      var start := t + (q - 1) * max;
      var x := OnlyOne(start, max, r);
      assert start + max == t + q * max;
      CountWithRest(t, q - 1, max, r);
      assert WithRest(t, q, max, r) == WithRest(t, q - 1, max, r) + {x};
    }
  }

  lemma ThresholdIsRest(max: u64)
    requires max > 0
    ensures Threshold(max) == W64 % max
    ensures W64 / max >= 1 && Threshold(max) + (W64 / max) * max == W64
  {
    var q, r := Quotient(W64, max);
    MulAtLeast(q - 1, max);
    assert (q - 1) * max == q * max - max;
    ModuloUnique(W64 - max, max, q - 1, r);
  }

  /** Word `k` of the tape, as a number. */
  function DrawnWord(tape: seq<Draw>, k: nat): nat
    requires k < |tape| && tape[k].Word?
  {
    FromBigEndian(tape[k].bytes)
  }

  lemma {:induction false} SampleIsFirst(tape: seq<Draw>, max: u64)
    requires max > 0
    ensures
      var d := Sample(tape, max);
      && (d.value.Some? ==>
           && 0 < d.used && tape[d.used - 1].Word?
           && DrawnWord(tape, d.used - 1) >= W64 % max && d.value.value == DrawnWord(tape, d.used - 1) % max)
      && (d.value.None? ==> d.used == |tape| || (0 < d.used && tape[d.used - 1].Failure?))
      && forall k :: 0 <= k < d.used - 1 ==> tape[k].Word? && DrawnWord(tape, k) < W64 % max
    ensures
      var d := Sample(tape, max);
      d.value.None? && 0 < d.used && tape[d.used - 1].Word? ==> DrawnWord(tape, d.used - 1) < W64 % max
  {
    ThresholdIsRest(max);
    hide FromBigEndian, Threshold;
    if tape == [] || tape[0].Failure? || Accepted(Value(tape[0].bytes), max) {
    } else {
      SampleIsFirst(tape[1..], max);
      var d := Sample(tape, max);
      forall k | 0 <= k < d.used ensures k > 0 ==> tape[k] == tape[1..][k - 1] {
      }
    }
  }

  /** For two and more values the result is the rest that the first word leaves which is not
      among the lowest 2^64 mod `max`; all words before it are. Otherwise no word is taken. */
  lemma FirstAccepted(tape: seq<Draw>, max: u64)
    ensures InRange(tape, 0) == Drawn(None, 0) && InRange(tape, 1) == Drawn(Some(0), 0)
    ensures max >= 2 ==>
      var d := InRange(tape, max);
      && (d.value.Some? ==>
           && 0 < d.used && tape[d.used - 1].Word?
           && var n := FromBigEndian(tape[d.used - 1].bytes);
           n >= 0x1_0000_0000_0000_0000 % max && d.value.value == n % max)
      && (d.value.None? ==> d.used == |tape| || (0 < d.used && tape[d.used - 1].Failure?))
      && forall k :: 0 <= k < d.used - 1 ==>
           tape[k].Word? && FromBigEndian(tape[k].bytes) < 0x1_0000_0000_0000_0000 % max
  {
    hide Sample, FromBigEndian;
    if max >= 2 {
      SampleIsFirst(tape, max);
      assert forall k :: 0 <= k < |tape| && tape[k].Word? ==> DrawnWord(tape, k) == FromBigEndian(tape[k].bytes);
    }
  }

  ghost function AcceptedWords(max: u64): set<nat>
    requires max > 0
  {
    set n: nat | n < W64 && Accepted(n, max)
  }

  ghost function WordsFor(max: u64, r: nat): set<nat>
    requires max > 0
  {
    set n: nat | n < W64 && Accepted(n, max) && LeavesRest(n, max, r)
  }

  /** No bias: every result comes from exactly as many words as every other one. */
  lemma EqualWords(max: u64, r: nat)
    requires r < max
    ensures |WordsFor(max, r)| == W64 / max
  {
    ThresholdIsRest(max);
    var t := Threshold(max);
    CountWithRest(t, W64 / max, max, r);
    assert WordsFor(max, r) == WithRest(t, W64 / max, max, r);
  }

  /** A word is rejected less than every other time. */
  lemma MoreThanHalfAccepted(max: u64)
    requires max > 0
    ensures |AcceptedWords(max)| == W64 - W64 % max
    ensures 2 * |AcceptedWords(max)| > W64
  {
    ThresholdIsRest(max);
    var t := Threshold(max);
    CountWithRest(t, W64 - t, 1, 0);
    assert AcceptedWords(max) == WithRest(t, W64 - t, 1, 0);
    assert (W64 / max - 1) * max == (W64 / max) * max - max;
    MulAtLeast(W64 / max - 1, max);
  }

  /* ---- Whole runs ---- */

  function Traded(x: int, a: int, b: int): (y: int)
    ensures y == x || y == a || y == b
  {
    if x == a then b else if x == b then a else x
  }

  /** Where the words for `a` stand in each block of `max` accepted words. */
  function Place(max: u64, a: nat): (s: nat)
    requires a < max
    ensures s < max
  {
    if a >= Threshold(max) then a - Threshold(max) else a + max - Threshold(max)
  }

  function Block(n: u64, max: u64): nat
    requires max > 0 && Accepted(n, max)
  {
    var k: nat := n - Threshold(max);
    k / max
  }

  lemma BlockBound(n: u64, max: u64, s: nat)
    requires s < max && Accepted(n, max)
    ensures Threshold(max) <= Threshold(max) + Block(n, max) * max + s < W64
  {
    ThresholdIsRest(max);
    var t, q := Threshold(max), W64 / max;
    var c, r := Quotient(n - t, max);
    MulAtLeast(c - q, max);
    assert (c - q) * max == c * max - q * max;
  }

  /** Exchanges the accepted words that give `a` with those that give `b`, block by
      block. */
  function Exchanged(n: u64, max: u64, a: nat, b: nat): (m: u64)
    requires a < max && b < max
  {
    var t := Threshold(max);
    if n < t then n
    else
      var s := Traded(Place(max, n % max), Place(max, a), Place(max, b));
      BlockBound(n, max, s);
      t + Block(n, max) * max + s
  }

  /** An accepted word is known by its block and its place in it. */
  lemma WordAt(n: u64, max: u64, c: nat, s: nat)
    requires s < max && n == Threshold(max) + c * max + s
    ensures Accepted(n, max) && Block(n, max) == c && Place(max, n % max) == s
  {
    var t := Threshold(max);
    assert 0 <= c * max;
    ModuloUnique(n - t, max, c, s);
    if t + s < max {
      ModuloUnique(n, max, c, t + s);
    } else {
      assert (c + 1) * max == c * max + max;
      ModuloUnique(n, max, c + 1, t + s - max);
    }
  }

  /** The exchange undoes itself, keeps acceptance, and trades the results. */
  lemma ExchangeWords(n: u64, max: u64, a: nat, b: nat)
    requires a < max && b < max
    ensures Accepted(Exchanged(n, max, a, b), max) <==> Accepted(n, max)
    ensures Accepted(n, max) ==> Exchanged(n, max, a, b) % max == Traded(n % max, a, b)
    ensures Exchanged(Exchanged(n, max, a, b), max, a, b) == n
  {
    if Accepted(n, max) {
      var t, m := Threshold(max), Exchanged(n, max, a, b);
      var c, r := Quotient(n - t, max);
      WordAt(n, max, c, r);
      WordAt(m, max, c, Traded(r, Place(max, a), Place(max, b)));
    }
  }

  function ToWord(n: u64): (w: Word8) {
    BigEndian(n, 8)
  }

  lemma WordValue(n: u64, w: Word8)
    ensures Value(ToWord(n)) == n && ToWord(Value(w)) == w
  {
    WordSizes();
    BigEndianRoundTrip(n, 8);
    BigEndianOfBytes(w);
  }

  /** The tape with the words for `a` and `b` exchanged as far as one sampling reads. */
  function Retaped(tape: seq<Draw>, max: u64, a: nat, b: nat): (tape': seq<Draw>)
    requires a < max && b < max
    ensures |tape'| == |tape|
  {
    if tape == [] || tape[0].Failure? then tape
    else
      var n := Value(tape[0].bytes);
      [Word(ToWord(Exchanged(n, max, a, b)))]
      + (if Accepted(n, max) then tape[1..] else Retaped(tape[1..], max, a, b))
  }

  /** Whole runs show no bias either: among the tapes of any length, rejections and
      failures included, those that give `a` and those that give `b` are exchanged by a
      map that undoes itself and keeps the rest of the tape. */
  lemma {:induction false} EqualRuns(tape: seq<Draw>, max: u64, a: nat, b: nat)
    requires a < max && b < max
    ensures
      var tape' := Retaped(tape, max, a, b);
      var d, d' := Sample(tape, max), Sample(tape', max);
      && Retaped(tape', max, a, b) == tape
      && d'.used == d.used && tape'[d.used..] == tape[d.used..]
      && d'.value == (if d.value.Some? then Some(Traded(d.value.value, a, b)) else None)
  {
    if tape != [] && tape[0].Word? {
      var n := Value(tape[0].bytes);
      ExchangeWords(n, max, a, b);
      WordValue(Exchanged(n, max, a, b), tape[0].bytes);
      if !Accepted(n, max) {
        EqualRuns(tape[1..], max, a, b);
      }
    }
  }

  lemma UnfoldWord(tape: seq<Draw>, max: u64, a: nat, b: nat)
    requires a < max && b < max && tape != [] && tape[0].Word?
    ensures
      var n := Value(tape[0].bytes);
      var d := Sample(tape[1..], max);
      && Sample(tape, max) ==
         (if Accepted(n, max) then Drawn(Some(n % max), 1) else Drawn(d.value, d.used + 1))
      && Retaped(tape, max, a, b) ==
         [Word(ToWord(Exchanged(n, max, a, b)))]
         + (if Accepted(n, max) then tape[1..] else Retaped(tape[1..], max, a, b))
  {
  }

  /** The same for a sampling that succeeds, whatever comes behind it. */
  predicate RunsExchange(tape: seq<Draw>, max: u64, a: nat, b: nat, rest: seq<Draw>)
    requires a < max && b < max
  {
    var d := Sample(tape, max);
    var tape' := Retaped(tape, max, a, b)[..d.used] + rest;
    && d.value.Some?
    && Sample(tape', max) == Drawn(Some(Traded(d.value.value, a, b)), d.used)
    && Retaped(tape', max, a, b) == tape[..d.used] + rest
  }

  lemma ExchangeAccepted(tape: seq<Draw>, max: u64, a: nat, b: nat, rest: seq<Draw>)
    requires a < max && b < max && tape != [] && tape[0].Word?
    requires Accepted(Value(tape[0].bytes), max)
    ensures RunsExchange(tape, max, a, b, rest)
  {
    hide Sample, Retaped, Value, Exchanged, Accepted, Traded, ToWord;
    var n := Value(tape[0].bytes);
    var head := Word(ToWord(Exchanged(n, max, a, b)));
    UnfoldWord(tape, max, a, b);
    ExchangeWords(n, max, a, b);
    WordValue(Exchanged(n, max, a, b), tape[0].bytes);
    assert Retaped(tape, max, a, b)[..1] + rest == [head] + rest;
    UnfoldWord([head] + rest, max, a, b);
  }

  lemma ExchangeRejected(tape: seq<Draw>, max: u64, a: nat, b: nat, rest: seq<Draw>)
    requires a < max && b < max && tape != [] && tape[0].Word?
    requires !Accepted(Value(tape[0].bytes), max) && RunsExchange(tape[1..], max, a, b, rest)
    ensures RunsExchange(tape, max, a, b, rest)
  {
    hide Sample, Retaped, Value, Exchanged, Accepted, Traded, ToWord;
    var n, d := Value(tape[0].bytes), Sample(tape, max);
    var head := Word(ToWord(Exchanged(n, max, a, b)));
    UnfoldWord(tape, max, a, b);
    ExchangeWords(n, max, a, b);
    WordValue(Exchanged(n, max, a, b), tape[0].bytes);
    var k := d.used - 1;
    var tail := Retaped(tape[1..], max, a, b)[..k] + rest;
    assert Retaped(tape, max, a, b)[..d.used] + rest == [head] + tail;
    UnfoldWord([head] + tail, max, a, b);
    assert tape[..d.used] + rest == [tape[0]] + (tape[1..][..k] + rest);
  }

  lemma {:induction false} EqualRunsThen(tape: seq<Draw>, max: u64, a: nat, b: nat, rest: seq<Draw>)
    requires a < max && b < max && Sample(tape, max).value.Some?
    ensures RunsExchange(tape, max, a, b, rest)
  {
    var n := Value(tape[0].bytes);
    if Accepted(n, max) {
      ExchangeAccepted(tape, max, a, b, rest);
    } else {
      EqualRunsThen(tape[1..], max, a, b, rest);
      ExchangeRejected(tape, max, a, b, rest);
    }
  }
}
