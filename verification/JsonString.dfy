/** Reading a JSON string literal: the sizing pass, the decoding pass, and the
    conversion of UTF-16 escapes to UTF-8. */
module JsonString {
  import opened Bytes
  import opened Wrappers
  import opened Hex
  import opened JsonText

  /* ---- UTF-16 escapes ---- */

  function HexValue(b: byte): (v: Option<nat>)
    ensures v.Some? ==> v.value < 16
  {
    if IsHex(b) then Some(HexOf(b)) else None
  }

  /** The value of the first `k` hexadecimal digits from `p` on. */
  function HexPrefix(s: seq<byte>, p: nat, k: nat): (h: Option<nat>)
    requires p + k <= |s|
    ensures h.Some? ==> h.value < Pow16(k)
  {
    if k == 0 then Some(0)
    else
      var h, digit := HexPrefix(s, p, k - 1), HexValue(s[p + k - 1]);
      if h.None? || digit.None? then None else Some(h.value * 16 + digit.value)
  }

  /** Four hexadecimal digits; zero if any of them is not one. */
  function Hex4(s: seq<byte>, p: nat): (h: nat)
    requires p + 4 <= |s|
    ensures h < 0x1_0000
  {
    assert Pow16(4) == 0x1_0000 by { assert Pow16(2) == 0x100; }
    match HexPrefix(s, p, 4)
    case Some(h) => h
    case None => 0
  }

  lemma {:induction false} HexPrefixFails(s: seq<byte>, p: nat, i: nat, k: nat)
    requires i <= k && p + k <= |s| && HexPrefix(s, p, i).None?
    ensures HexPrefix(s, p, k).None?
  {
    if i < k {
      HexPrefixFails(s, p, i, k - 1);
    }
  }

  method ParseHex4(s: seq<byte>, p: nat) returns (h: nat)
    requires p + 4 <= |s|
    ensures h == Hex4(s, p)
  {
    h := 0;
    var i := 0;
    while i < 4
      invariant 0 <= i <= 4 && HexPrefix(s, p, i).Some?
      invariant h == if i < 4 then HexPrefix(s, p, i).value * 16 else HexPrefix(s, p, i).value
    {
      var digit := HexValue(s[p + i]);
      if digit.None? {
        HexPrefixFails(s, p, i + 1, 4);
        return 0;
      }
      h := h + digit.value;
      if i < 3 {
        h := h * 16;
      }
      i := i + 1;
    }
  }

  datatype Literal = Literal(codepoint: nat, length: nat)

  /** The code point of the one or two `\uXXXX` sequences at `p`. */
  function Utf16Literal(s: seq<byte>, p: nat, end: nat): (r: Option<Literal>)
    requires p <= end <= |s|
    ensures r.Some? ==> r.value.codepoint <= 0x10FFFF && p + r.value.length <= end
    ensures r.Some? ==> r.value.length == if r.value.codepoint < 0x10000 then 6 else 12
  {
    if end - p < 6 then None
    else
      var first := Hex4(s, p + 2);
      if 0xDC00 <= first <= 0xDFFF then None
      else if 0xD800 <= first <= 0xDBFF then
        if end - (p + 6) < 6 then None
        else if s[p + 6] != BACKSLASH || s[p + 7] != 117 then None
        else
          var second := Hex4(s, p + 8);
          if second < 0xDC00 || second > 0xDFFF then None
          else Some(Literal(0x10000 + first % 0x400 * 0x400 + second % 0x400, 12))
      else Some(Literal(first, 6))
  }

  function Utf8Length(codepoint: nat): nat {
    if codepoint < 0x80 then 1 else if codepoint < 0x800 then 2 else if codepoint < 0x10000 then 3 else 4
  }

  /** The UTF-8 encoding (section 3 of RFC 3629). */
  function Utf8(codepoint: nat): (t: seq<byte>)
    requires codepoint <= 0x10FFFF
    ensures |t| == Utf8Length(codepoint)
  {
    if codepoint < 0x80 then [codepoint]
    else if codepoint < 0x800 then [0xC0 + codepoint / 64, 0x80 + codepoint % 64]
    else if codepoint < 0x10000 then
      [0xE0 + codepoint / 4096, 0x80 + codepoint / 64 % 64, 0x80 + codepoint % 64]
    else
      [0xF0 + codepoint / 262144, 0x80 + codepoint / 4096 % 64, 0x80 + codepoint / 64 % 64, 0x80 + codepoint % 64]
  }

  /** The `k`-th byte of a UTF-8 sequence without its mark. */
  function Unmarked(t: seq<byte>, k: nat): int
    requires k < |t|
  {
    var b: int := t[k];
    if k > 0 then b - 0x80
    else if |t| == 1 then b
    else if |t| == 2 then b - 0xC0
    else if |t| == 3 then b - 0xE0
    else b - 0xF0
  }

  /** The code point that a UTF-8 sequence stands for: six bits from each byte after
      the first. */
  function Utf8Value(t: seq<byte>): int
    requires 1 <= |t| <= 4
  {
    if |t| == 1 then Unmarked(t, 0)
    else if |t| == 2 then 64 * Unmarked(t, 0) + Unmarked(t, 1)
    else if |t| == 3 then 64 * (64 * Unmarked(t, 0) + Unmarked(t, 1)) + Unmarked(t, 2)
    else 64 * (64 * (64 * Unmarked(t, 0) + Unmarked(t, 1)) + Unmarked(t, 2)) + Unmarked(t, 3)
  }

  lemma Utf8RoundTrip(codepoint: nat)
    requires codepoint <= 0x10FFFF
    ensures Utf8Value(Utf8(codepoint)) == codepoint
  {
    var a, b := codepoint / 64, codepoint / 4096;
    assert a / 64 == b && b / 64 == codepoint / 262144;
  }

  function HexText4(n: nat): (t: seq<byte>)
    requires n < 0x1_0000
    ensures |t| == 6
  {
    [BACKSLASH, 117, HexDigit(n / 4096), HexDigit(n / 256 % 16), HexDigit(n / 16 % 16), HexDigit(n % 16)]
  }

  /** A code point as JSON escapes: one, or a surrogate pair (section 7 of RFC 8259). */
  function UnicodeEscape(codepoint: nat): seq<byte>
    requires codepoint <= 0x10FFFF
  {
    if codepoint < 0x10000 then HexText4(codepoint)
    else
      HexText4(0xD800 + (codepoint - 0x10000) / 0x400) + HexText4(0xDC00 + (codepoint - 0x10000) % 0x400)
  }

  lemma HexText4Value(s: seq<byte>, p: nat, n: nat)
    requires n < 0x1_0000 && At(s, p, HexText4(n))
    ensures Hex4(s, p + 2) == n && s[p] == BACKSLASH && s[p + 1] == 117
  {
    var t := HexText4(n);
    assert forall k :: 0 <= k < 6 ==> s[p + k] == t[k] by {
      forall k | 0 <= k < 6 ensures s[p + k] == t[k] { AtIndex(s, p, t, k); }
    }
    assert s[p + 2] == t[2] && s[p + 3] == t[3] && s[p + 4] == t[4] && s[p + 5] == t[5];
    assert s[p + 0] == t[0] && s[p + 1] == t[1];
    assert n / 16 / 16 == n / 256 && n / 256 / 16 == n / 4096;
    assert HexPrefix(s, p + 2, 1) == Some(n / 4096);
    assert HexPrefix(s, p + 2, 2) == Some(n / 256);
    assert HexPrefix(s, p + 2, 3) == Some(n / 16);
  }

  lemma SurrogateParts(offset: nat)
    requires offset < 0x10_0000
    ensures 0xD800 <= 0xD800 + offset / 0x400 <= 0xDBFF && 0xDC00 <= 0xDC00 + offset % 0x400 <= 0xDFFF
    ensures (0xD800 + offset / 0x400) % 0x400 * 0x400 + (0xDC00 + offset % 0x400) % 0x400 == offset
  {
    var h, l := offset / 0x400, offset % 0x400;
    assert (0xD800 + h) % 0x400 == h && (0xDC00 + l) % 0x400 == l;
  }

  lemma SingleEscapeReads(s: seq<byte>, p: nat, end: nat, codepoint: nat)
    requires codepoint < 0x10000 && !(0xD800 <= codepoint <= 0xDFFF)
    requires end <= |s| && At(s, p, HexText4(codepoint)) && p + 6 <= end
    ensures Utf16Literal(s, p, end) == Some(Literal(codepoint, 6))
  {
    HexText4Value(s, p, codepoint);
    hide HexPrefix, Hex4, HexText4, At;
  }

  lemma PairEscapeReads(s: seq<byte>, p: nat, end: nat, high: nat, low: nat)
    requires 0xD800 <= high <= 0xDBFF && 0xDC00 <= low <= 0xDFFF
    requires end <= |s| && p + 12 <= end && At(s, p, HexText4(high)) && At(s, p + 6, HexText4(low))
    ensures Utf16Literal(s, p, end) == Some(Literal(0x10000 + high % 0x400 * 0x400 + low % 0x400, 12))
  {
    HexText4Value(s, p, high);
    HexText4Value(s, p + 6, low);
    hide HexPrefix, Hex4, HexText4, At;
  }

  /** Every Unicode scalar value is read back from its escape. */
  lemma UnicodeEscapeRoundTrip(s: seq<byte>, p: nat, end: nat, codepoint: nat)
    requires codepoint <= 0x10FFFF && !(0xD800 <= codepoint <= 0xDFFF)
    requires end <= |s| && At(s, p, UnicodeEscape(codepoint)) && p + |UnicodeEscape(codepoint)| <= end
    ensures Utf16Literal(s, p, end) == Some(Literal(codepoint, |UnicodeEscape(codepoint)|))
  {
    hide At, HexText4, Utf16Literal;
    if codepoint < 0x10000 {
      SingleEscapeReads(s, p, end, codepoint);
    } else {
      var offset := codepoint - 0x10000;
      SurrogateParts(offset);
      var high, low := 0xD800 + offset / 0x400, 0xDC00 + offset % 0x400;
      AtConcat(s, p, HexText4(high), HexText4(low));
      PairEscapeReads(s, p, end, high, low);
    }
  }

  function Shifted(codepoint: nat, k: nat): nat {
    if k == 0 then codepoint
    else if k == 1 then codepoint / 64
    else if k == 2 then codepoint / 4096
    else codepoint / 262144
  }

  lemma PutBytes(output: seq<byte>, w: nat, t: seq<byte>)
    requires w + |t| <= |output| && forall k :: 0 <= k < |t| ==> output[w + k] == t[k]
    ensures output[..w + |t|] == output[..w] + t
  {
  }

  /** Writes one code point, last byte first. */
  method PutUtf8(whole: nat, output: array<byte>, w: nat) returns (w': nat)
    requires whole <= 0x10FFFF && w + Utf8Length(whole) <= output.Length
    modifies output
    ensures w' == w + Utf8Length(whole)
    ensures output[..w'] == old(output[..w]) + Utf8(whole)
  {
    var codepoint, length := whole, Utf8Length(whole);
    var mark := if length == 1 then 0 else if length == 2 then 0xC0 else if length == 3 then 0xE0 else 0xF0;
    var position := length - 1;
    while position > 0
      invariant 0 <= position < length
      invariant codepoint == Shifted(whole, length - 1 - position)
      invariant output[..w] == old(output[..w])
      invariant forall k :: position < k < length ==> output[w + k] == Utf8(whole)[k]
    {
      output[w + position] := 0x80 + codepoint % 64;
      codepoint := codepoint / 64;
      position := position - 1;
    }
    output[w] := if length > 1 then mark + codepoint else codepoint;
    w' := w + length;
    PutBytes(output[..], w, Utf8(whole));
  }

  /** Writes the UTF-8 bytes of the literal at `p` into `output` from `w` on. */
  method Utf16LiteralToUtf8(s: seq<byte>, p: nat, end: nat, output: array<byte>, w: nat)
    returns (sequenceLength: nat, w': nat)
    requires p <= end <= |s|
    requires Utf16Literal(s, p, end).Some? ==>
      w + Utf8Length(Utf16Literal(s, p, end).value.codepoint) <= output.Length
    modifies output
    ensures sequenceLength == 0 <==> Utf16Literal(s, p, end).None?
    ensures sequenceLength == 0 ==> w' == w && output[..] == old(output[..])
    ensures sequenceLength > 0 ==>
      var l := Utf16Literal(s, p, end).value;
      && sequenceLength == l.length
      && w' == w + Utf8Length(l.codepoint)
      && output[..w'] == old(output[..])[..w] + Utf8(l.codepoint)
  {
    sequenceLength, w' := 0, w;
    if end - p < 6 {
      return;
    }
    var first := ParseHex4(s, p + 2);
    if 0xDC00 <= first <= 0xDFFF {
      return;
    }
    var codepoint;
    if 0xD800 <= first <= 0xDBFF {
      var q := p + 6;
      if end - q < 6 {
        return;
      }
      if s[q] != BACKSLASH || s[q + 1] != 117 {
        return;
      }
      var second := ParseHex4(s, q + 2);
      if second < 0xDC00 || second > 0xDFFF {
        return;
      }
      sequenceLength := 12;
      codepoint := 0x10000 + first % 0x400 * 0x400 + second % 0x400;
    } else {
      sequenceLength := 6;
      codepoint := first;
    }
    w' := PutUtf8(codepoint, output, w);
  }

  /* ---- The two passes over a literal ---- */

  /** Where the sizing pass, now at `p`, finds the closing quote. */
  function ClosingQuote(s: seq<byte>, p: nat): (e: Option<nat>)
    ensures e.Some? ==> p <= e.value < |s| && s[e.value] == QUOTE
    decreases |s| - p
  {
    if p >= |s| then None
    else if s[p] == QUOTE then Some(p)
    else if s[p] == BACKSLASH then
      if p + 1 >= |s| then None else ClosingQuote(s, p + 2)
    else ClosingQuote(s, p + 1)
  }

  /** How many escapes the sizing pass, now at `p`, still skips before `end`. */
  function Escapes(s: seq<byte>, p: nat, end: nat): (k: nat)
    requires end <= |s|
    ensures p <= end ==> 2 * k <= end - p + 1
    ensures p >= end ==> k == 0
    decreases end - p
  {
    if p >= end then 0
    else if s[p] == BACKSLASH then 1 + Escapes(s, p + 2, end)
    else Escapes(s, p + 1, end)
  }

  /** The byte that a backslash and `b` stand for. */
  function OneByteEscape(b: byte): Option<byte> {
    match b
    case 98 => Some(8)
    case 102 => Some(12)
    case 110 => Some(10)
    case 114 => Some(13)
    case 116 => Some(9)
    case 34 => Some(b)
    case 92 => Some(b)
    case 47 => Some(b)
    case _ => None
  }

  /** One step of the decoding pass: the bytes it reads and the bytes it writes. */
  datatype Step = Step(read: nat, written: seq<byte>)

  function DecodeStep(s: seq<byte>, p: nat, end: nat): (r: Option<Step>)
    requires p < end < |s|
    ensures r.Some? ==> 0 < r.value.read
    ensures r.Some? ==> p + r.value.read <= end + 1
  {
    if s[p] != BACKSLASH then Some(Step(1, [s[p]]))
    else if s[p + 1] == 117 then
      var l := Utf16Literal(s, p, end);
      if l.None? then None else Some(Step(l.value.length, Utf8(l.value.codepoint)))
    else
      var b := OneByteEscape(s[p + 1]);
      if b.None? then None else Some(Step(2, [b.value]))
  }

  /** The whole decoding pass, having written `out` and being at `p`. */
  function Decode(s: seq<byte>, p: nat, end: nat, out: seq<byte>): Option<seq<byte>>
    requires end < |s|
    decreases end + 1 - p
  {
    if p >= end then Some(out)
    else
      var step := DecodeStep(s, p, end);
      if step.None? then None
      else Decode(s, p + step.value.read, end, out + step.value.written)
  }

  /** The literal at `i`: its bytes and the position after it. */
  function StringAt(s: seq<byte>, i: nat): (r: Option<(seq<byte>, nat)>)
    requires i < |s|
    ensures r.Some? ==> i < r.value.1 <= |s| && s[r.value.1 - 1] == QUOTE
  {
    if s[i] != QUOTE then None
    else
      var end := ClosingQuote(s, i + 1);
      if end.None? then None
      else
        var out := Decode(s, i + 1, end.value, []);
        if out.None? then None else Some((out.value, end.value + 1))
  }

  /** What the sizing pass reserves for the literal at `i`, terminator not included. */
  function Reserved(s: seq<byte>, i: nat, end: nat): nat
    requires i < end < |s|
  {
    end - i - Escapes(s, i + 1, end)
  }

  ghost predicate InBudgetAt(s: seq<byte>, i: nat, end: nat, p: nat, w: nat, q: nat)
    requires i < end < |s|
  {
    && i < p <= end + 1
    && (p <= end ==> q <= end)
    && ClosingQuote(s, if q <= end then q else end) == Some(end)
    && w + Escapes(s, i + 1, end) <= p - (i + 1) + Escapes(s, q, end)
  }

  /** The decoding pass is at `p` and has written `w` bytes. The sizing pass comes by
      at `p` or, if it has an escape across `p`, right after it; every escape it has
      skipped so far is a byte that the decoding pass has saved. */
  ghost predicate InBudget(s: seq<byte>, i: nat, end: nat, p: nat, w: nat)
    requires i < end < |s|
  {
    exists q :: p <= q <= p + 1 && InBudgetAt(s, i, end, p, w, q)
  }

  lemma BudgetFits(s: seq<byte>, i: nat, end: nat, p: nat, w: nat)
    requires i < end < |s| && InBudget(s, i, end, p, w)
    ensures w <= Reserved(s, i, end)
  {
  }

  /** The sizing pass goes on from `q` until it comes by `p`. */
  lemma {:induction false} ComesBy(s: seq<byte>, q: nat, p: nat, end: nat) returns (q': nat)
    requires q <= end < |s| && ClosingQuote(s, q) == Some(end)
    requires p <= end
    ensures if p < q then q' == q else p <= q' <= p + 1
    ensures q' <= end && ClosingQuote(s, q') == Some(end)
    ensures 2 * (Escapes(s, q, end) - Escapes(s, q', end)) <= q' - q
    decreases p - q
  {
    if p <= q {
      q' := q;
    } else if s[q] == BACKSLASH {
      q' := ComesBy(s, q + 2, p, end);
    } else {
      q' := ComesBy(s, q + 1, p, end);
    }
  }

  /** What a step writes for what it reads. */
  lemma StepWrites(s: seq<byte>, p: nat, end: nat)
    requires p < end < |s| && DecodeStep(s, p, end).Some?
    ensures
      var step := DecodeStep(s, p, end).value;
      && |step.written| <= (if step.read <= 2 then 1 else if step.read == 6 then 3 else 4)
      && (step.read <= 2 || step.read == 6 || step.read == 12)
      && (p + step.read > end ==> step.read == 2)
      && (step.read == 1 ==> s[p] != BACKSLASH)
  {
  }

  lemma BudgetStep(s: seq<byte>, i: nat, end: nat, p: nat, w: nat)
    requires i < end < |s| && InBudget(s, i, end, p, w)
    requires p < end && DecodeStep(s, p, end).Some?
    ensures
      var step := DecodeStep(s, p, end).value;
      InBudget(s, i, end, p + step.read, w + |step.written|)
  {
    var q :| p <= q <= p + 1 && InBudgetAt(s, i, end, p, w, q);
    var step := DecodeStep(s, p, end).value;
    var p' := p + step.read;
    StepWrites(s, p, end);
    hide DecodeStep;
    if p' > end {
      assert InBudgetAt(s, i, end, p', w + |step.written|, p');
    } else {
      var q' := ComesBy(s, q, p', end);
      if step.read == 1 {
        assert ClosingQuote(s, p') == Some(end) || q == p';
        q' := p';
      }
      assert InBudgetAt(s, i, end, p', w + |step.written|, q');
    }
  }

  /** What the next step writes fits, too. */
  lemma BudgetGoesOn(s: seq<byte>, i: nat, end: nat, p: nat, w: nat)
    requires i < end < |s| && InBudget(s, i, end, p, w) && p < end
    ensures
      var step := DecodeStep(s, p, end);
      step.Some? ==>
        && InBudget(s, i, end, p + step.value.read, w + |step.value.written|)
        && w + |step.value.written| <= Reserved(s, i, end)
  {
    hide DecodeStep, InBudget, Reserved;
    if DecodeStep(s, p, end).Some? {
      var step := DecodeStep(s, p, end).value;
      BudgetStep(s, i, end, p, w);
      BudgetFits(s, i, end, p + step.read, w + |step.written|);
    }
  }

  /** All bytes the decoding pass writes behind `out`, up to the end or up to a malformed
      escape; what it has written at any point before is a beginning of that. */
  function AllWritten(s: seq<byte>, p: nat, end: nat, out: seq<byte>): (all: seq<byte>)
    requires end < |s|
    ensures out <= all
    decreases end + 1 - p
  {
    if p >= end || DecodeStep(s, p, end).None? then out
    else
      var step := DecodeStep(s, p, end).value;
      AllWritten(s, p + step.read, end, out + step.written)
  }

  lemma {:induction false} DecodedIsAll(s: seq<byte>, p: nat, end: nat, out: seq<byte>)
    requires end < |s|
    ensures Decode(s, p, end, out).Some? ==> Decode(s, p, end, out).value == AllWritten(s, p, end, out)
    decreases end + 1 - p
  {
    if p >= end || DecodeStep(s, p, end).None? {
    } else {
      var step := DecodeStep(s, p, end).value;
      DecodedIsAll(s, p + step.read, end, out + step.written);
    }
  }

  lemma {:induction false} WrittenFits(s: seq<byte>, i: nat, end: nat, p: nat, out: seq<byte>)
    requires i < end < |s| && InBudget(s, i, end, p, |out|)
    ensures |AllWritten(s, p, end, out)| <= Reserved(s, i, end)
    decreases end + 1 - p
  {
    if p >= end || DecodeStep(s, p, end).None? {
      BudgetFits(s, i, end, p, |out|);
    } else {
      var step := DecodeStep(s, p, end).value;
      BudgetStep(s, i, end, p, |out|);
      WrittenFits(s, i, end, p + step.read, out + step.written);
    }
  }

  /** On every input with a closing quote, also one on which the two passes disagree where
      escapes start and one that turns out to be malformed, all that the decoding pass
      writes fits the estimate of the sizing pass; and what is decoded is all of it. */
  lemma LiteralFits(s: seq<byte>, i: nat)
    requires i < |s| && s[i] == QUOTE && ClosingQuote(s, i + 1).Some?
    ensures
      var end := ClosingQuote(s, i + 1).value;
      && |AllWritten(s, i + 1, end, [])| <= Reserved(s, i, end)
      && (StringAt(s, i).Some? ==> StringAt(s, i).value.0 == AllWritten(s, i + 1, end, []))
  {
    var end := ClosingQuote(s, i + 1).value;
    assert InBudgetAt(s, i, end, i + 1, 0, i + 1);
    WrittenFits(s, i, end, i + 1, []);
    DecodedIsAll(s, i + 1, end, []);
  }
}
