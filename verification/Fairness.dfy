/** The list of values that a request returns shows no bias: any two lists come from equally
    many tapes. */
module Fairness {
  import opened Wrappers
  import opened AuditLayout
  import opened Scaling
  import opened Requests
  import Shuffle

  /** The first sampling, and then the others. */
  lemma {:induction false} SampledFront(tape: seq<Draw>, span: u64, count: nat)
    requires count > 0
    ensures
      var d := InRange(tape, span);
      var more := Sampled(tape[d.used..], span, count - 1);
      Sampled(tape, span, count) ==
        if d.value.None? then Samples(None, tape[d.used..])
        else if more.values.None? then Samples(None, more.rest)
        else Samples(Some([d.value.value] + more.values.value), more.rest)
  {
    hide InRange, Words;
    var d := InRange(tape, span);
    if count == 1 {
      assert Sampled(tape, span, 0) == Samples(Some([]), tape);
      if d.value.Some? {
        assert [] + [d.value.value] == [d.value.value] + [];
      }
    } else {
      SampledFront(tape, span, count - 1);
      var more := Sampled(tape[d.used..], span, count - 2);
      if d.value.Some? && more.values.Some? {
        var d' := InRange(more.rest, span);
        if d'.value.Some? {
          assert [d.value.value] + more.values.value + [d'.value.value]
              == [d.value.value] + (more.values.value + [d'.value.value]);
        }
      }
      if d.value.None? {
        assert Sampled(tape, span, count) == Sampled(tape, span, count - 1);
      }
    }
  }

  predicate AllBelow(ns: seq<nat>, span: u64) {
    forall i :: 0 <= i < |ns| ==> ns[i] < span
  }

  /** The tape with the words for `a[k]` and `b[k]` exchanged in the k-th sampling; one
      from a range of one takes no word. */
  function Exchange(tape: seq<Draw>, span: u64, a: seq<nat>, b: seq<nat>): (tape': seq<Draw>)
    requires |a| == |b| && AllBelow(a, span) && AllBelow(b, span)
    ensures |tape'| == |tape|
    decreases |a|
  {
    if a == [] || span == 1 then tape
    else
      assert a[0] < span;
      var d := Sample(tape, span);
      var first := Retaped(tape, span, a[0], b[0]);
      if d.value.None? then first
      else first[..d.used] + Exchange(tape[d.used..], span, a[1..], b[1..])
  }

  /** What one sampling after the other gives on the two tapes. */
  predicate Exchanges(tape: seq<Draw>, span: u64, a: seq<nat>, b: seq<nat>)
    requires |a| == |b| && AllBelow(a, span) && AllBelow(b, span)
  {
    var tape' := Exchange(tape, span, a, b);
    var s, s' := Sampled(tape, span, |a|), Sampled(tape', span, |a|);
    && Exchange(tape', span, a, b) == tape
    && s'.rest == s.rest
    && (s.values.Some? <==> s'.values.Some?)
    && (s.values.Some? ==> s'.values.value == Shuffle.TradedAll(s.values.value, a, b))
  }

  lemma UnfoldExchange(tape: seq<Draw>, span: u64, a: seq<nat>, b: seq<nat>)
    requires a != [] && span > 1 && |a| == |b| && AllBelow(a, span) && AllBelow(b, span)
    ensures AllBelow(a[1..], span) && AllBelow(b[1..], span)
    ensures
      var d, first := Sample(tape, span), Retaped(tape, span, a[0], b[0]);
      Exchange(tape, span, a, b) ==
        if d.value.None? then first else first[..d.used] + Exchange(tape[d.used..], span, a[1..], b[1..])
  {
  }

  lemma UnfoldInRange(tape: seq<Draw>, span: u64)
    requires span > 1
    ensures InRange(tape, span) == Sample(tape, span)
  {
  }

  lemma ExchangeFails(tape: seq<Draw>, span: u64, a: seq<nat>, b: seq<nat>)
    requires a != [] && span > 1 && |a| == |b| && AllBelow(a, span) && AllBelow(b, span)
    requires Sample(tape, span).value.None?
    ensures Exchanges(tape, span, a, b)
  {
    var tape' := Exchange(tape, span, a, b);
    UnfoldExchange(tape, span, a, b);
    EqualRuns(tape, span, a[0], b[0]);
    UnfoldExchange(tape', span, a, b);
    UnfoldInRange(tape, span);
    UnfoldInRange(tape', span);
    SampledFront(tape, span, |a|);
    SampledFront(tape', span, |a|);
    hide Sample, Retaped, InRange, Sampled, Exchange, AllBelow;
  }

  /** The first sampling on the other tape, with whatever comes behind it. */
  lemma FirstExchanged(tape: seq<Draw>, span: u64, a: seq<nat>, b: seq<nat>)
    requires a != [] && span > 1 && |a| == |b| && AllBelow(a, span) && AllBelow(b, span)
    requires AllBelow(a[1..], span) && AllBelow(b[1..], span)
    requires Sample(tape, span).value.Some?
    ensures
      var d, tape' := Sample(tape, span), Exchange(tape, span, a, b);
      var rest := Exchange(tape[d.used..], span, a[1..], b[1..]);
      && a[0] < span && b[0] < span && d.used <= |tape'| == |tape| && tape'[d.used..] == rest
      && Sample(tape', span) == Drawn(Some(Traded(d.value.value, a[0], b[0])), d.used)
      && Exchange(tape', span, a, b) == tape[..d.used] + Exchange(rest, span, a[1..], b[1..])
  {
    assert a[0] < span && b[0] < span;
    hide Sample, Retaped, InRange, Exchange, AllBelow, Traded;
    var d := Sample(tape, span);
    var rest := Exchange(tape[d.used..], span, a[1..], b[1..]);
    UnfoldExchange(tape, span, a, b);
    Shuffle.RetapedThen(tape, span, a[0], b[0], rest);
    var tape' := Exchange(tape, span, a, b);
    UnfoldExchange(tape', span, a, b);
  }

  lemma SampledSome(tape: seq<Draw>, span: u64, count: nat)
    requires count > 0 && span > 1 && Sample(tape, span).value.Some?
    ensures
      var d := Sample(tape, span);
      var s, more := Sampled(tape, span, count), Sampled(tape[d.used..], span, count - 1);
      && s.rest == more.rest && (s.values.Some? <==> more.values.Some?)
      && (s.values.Some? ==> s.values.value == [d.value.value] + more.values.value)
  {
    hide InRange, Sample, Sampled;
    UnfoldInRange(tape, span);
    SampledFront(tape, span, count);
  }

  lemma ExchangeGoesOn(tape: seq<Draw>, span: u64, a: seq<nat>, b: seq<nat>)
    requires a != [] && span > 1 && |a| == |b| && AllBelow(a, span) && AllBelow(b, span)
    requires AllBelow(a[1..], span) && AllBelow(b[1..], span)
    requires Sample(tape, span).value.Some?
    requires Exchanges(tape[Sample(tape, span).used..], span, a[1..], b[1..])
    ensures Exchanges(tape, span, a, b)
  {
    hide Sample, Sampled, Exchange, AllBelow, Traded, Shuffle.TradedAll;
    var d := Sample(tape, span);
    var more := tape[d.used..];
    FirstExchanged(tape, span, a, b);
    SampledSome(tape, span, |a|);
    SampledSome(Exchange(tape, span, a, b), span, |a|);
    var s := Sampled(more, span, |a| - 1);
    if s.values.Some? {
      Shuffle.UnfoldTraded(d.value.value, s.values.value, a, b);
    }
    assert tape[..d.used] + more == tape;
  }

  lemma NothingExchanged(tape: seq<Draw>, span: u64)
    ensures Exchanges(tape, span, [], [])
  {
  }

  /** From a range of one only zeros are taken. */
  lemma {:induction false} ZerosTraded(js: seq<nat>, a: seq<nat>)
    requires |js| <= |a| && (forall i :: 0 <= i < |js| ==> js[i] == 0) && (forall i :: 0 <= i < |a| ==> a[i] == 0)
    ensures Shuffle.TradedAll(js, a, a) == js
  {
    if js == [] {
    } else {
      ZerosTraded(js[1..], a[1..]);
      assert js == [js[0]] + js[1..];
    }
  }

  lemma OneValueExchanged(tape: seq<Draw>, a: seq<nat>, b: seq<nat>)
    requires |a| == |b| && AllBelow(a, 1) && AllBelow(b, 1)
    ensures Exchanges(tape, 1, a, b)
  {
    assert a == b;
    var s := Sampled(tape, 1, |a|);
    if s.values.Some? {
      ZerosTraded(s.values.value, a);
    }
  }

  /** Over any number of samplings the exchange undoes itself, keeps what is left of the
      tape and every failure, and trades the values. */
  lemma {:induction false} ExchangedRuns(tape: seq<Draw>, span: u64, a: seq<nat>, b: seq<nat>)
    requires |a| == |b| && AllBelow(a, span) && AllBelow(b, span)
    ensures Exchanges(tape, span, a, b)
    decreases |a|
  {
    hide Exchanges, Sample;
    if a == [] {
      NothingExchanged(tape, span);
    } else if span == 1 {
      OneValueExchanged(tape, a, b);
    } else {
      assert a[0] < span;
      var d := Sample(tape, span);
      if d.value.None? {
        ExchangeFails(tape, span, a, b);
      } else {
        UnfoldExchange(tape, span, a, b);
        ExchangedRuns(tape[d.used..], span, a[1..], b[1..]);
        ExchangeGoesOn(tape, span, a, b);
      }
    }
  }

  predicate Within(values: seq<int64>, min: int64, max: int64) {
    forall i :: 0 <= i < |values| ==> min <= values[i] <= max
  }

  /** How far values lie above the minimum. */
  function Above(min: int64, max: int64, values: seq<int64>): (ns: seq<nat>)
    requires min <= max && Within(values, min, max)
    ensures |ns| == |values| && (Span(min, max) != 0 ==> AllBelow(ns, Span(min, max)))
  {
    SpanCounts(min, max);
    seq(|values|, i requires 0 <= i < |values| => values[i] - min)
  }

  lemma OffsetsAre(min: int64, max: int64, ns: seq<u64>, values: seq<int64>)
    requires min <= max && Within(values, min, max) && |ns| == |values| && AllBelow(ns, Span(min, max))
    ensures Offsets(min, ns) == values <==> ns == Above(min, max, values)
  {
    SpanCounts(min, max);
    var a := Above(min, max, values);
    forall i | 0 <= i < |ns| ensures Offsets(min, ns)[i] == min + ns[i] && a[i] == values[i] - min {
      ScaledInBounds(min, max, ns[i]);
    }
    if Offsets(min, ns) == values {
      assert forall i :: 0 <= i < |ns| ==> ns[i] == Offsets(min, ns)[i] - min;
      assert forall i :: 0 <= i < |ns| ==> ns[i] == a[i];
    }
    if ns == a {
      assert forall i :: 0 <= i < |ns| ==> Offsets(min, ns)[i] == values[i];
    }
  }

  /** The tape with the words for the values of `x` and `y` exchanged. */
  function ExchangeValues(tape: seq<Draw>, min: int64, max: int64, x: seq<int64>, y: seq<int64>): seq<Draw>
    requires min <= max && |x| == |y| && Within(x, min, max) && Within(y, min, max)
  {
    if Span(min, max) == 0 then tape
    else Exchange(tape, Span(min, max), Above(min, max, x), Above(min, max, y))
  }

  /** Any two lists of values between the bounds come from equally many tapes of any length:
      exchanging words maps the tapes that give the one onto those that give the other, and
      undoes itself; it keeps failures and what is left of the tape. */
  lemma NoBias(tape: seq<Draw>, min: int64, max: int64, x: seq<int64>, y: seq<int64>)
    requires min <= max && |x| == |y| && Within(x, min, max) && Within(y, min, max)
    ensures
      var tape' := ExchangeValues(tape, min, max, x, y);
      var s, s' := Sampled(tape, Span(min, max), |x|), Sampled(tape', Span(min, max), |x|);
      && |tape'| == |tape| && ExchangeValues(tape', min, max, x, y) == tape && s'.rest == s.rest
      && (s.values.Some? <==> s'.values.Some?)
      && (s.values.Some? ==> (Offsets(min, s.values.value) == x <==> Offsets(min, s'.values.value) == y))
  {
    var span := Span(min, max);
    if span == 0 {
      SampledInBounds(tape, min, max, |x|);
      SpanCounts(min, max);
    } else {
      var a, b := Above(min, max, x), Above(min, max, y);
      hide Sampled, Offsets, Span;
      ExchangedRuns(tape, span, a, b);
      hide Exchange;
      var s, s' := Sampled(tape, span, |x|), Sampled(ExchangeValues(tape, min, max, x, y), span, |x|);
      if s.values.Some? {
        Shuffle.TradedVectors(s.values.value, a, b);
        OffsetsAre(min, max, s.values.value, x);
        OffsetsAre(min, max, s'.values.value, y);
      }
    }
  }
}
