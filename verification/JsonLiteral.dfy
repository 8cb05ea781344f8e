/** What a string literal stands for: its characters may be spelled as they are, by a letter
    behind a backslash, or by the digits of their code point (section 7 of RFC 8259). */
module JsonLiteral {
  import opened Bytes
  import opened Wrappers
  import opened Hex
  import opened JsonText
  import opened JsonString
  const ESCAPE_LETTERS: string := "\"\\/bfnrt"
  const ESCAPED_BYTES: seq<byte> := [34, 92, 47, 8, 12, 10, 13, 9]

  /** A backslash and one of eight letters are read as the byte that the letter stands for;
      with any other byte but `u` they are refused. */
  lemma OneByteEscapes(s: seq<byte>, p: nat, end: nat, k: nat)
    requires p < end < |s| && s[p] == BACKSLASH && k < 8
    ensures s[p + 1] as char == ESCAPE_LETTERS[k] ==>
      DecodeStep(s, p, end) == Some(Step(2, [ESCAPED_BYTES[k]]))
    ensures s[p + 1] as char !in ESCAPE_LETTERS && s[p + 1] as char != 'u' ==> DecodeStep(s, p, end) == None
  {
    assert forall j :: 0 <= j < 8 ==> ESCAPE_LETTERS[j] in ESCAPE_LETTERS;
    assert ESCAPE_LETTERS[0] == '\"' && ESCAPE_LETTERS[1] == '\\' && ESCAPE_LETTERS[2] == '/';
    assert ESCAPE_LETTERS[3] == 'b' && ESCAPE_LETTERS[4] == 'f' && ESCAPE_LETTERS[5] == 'n';
    assert ESCAPE_LETTERS[6] == 'r' && ESCAPE_LETTERS[7] == 't';
  }

  /* ---- Escapes of code points ---- */

  /** Any code point but the surrogates. */
  predicate Scalar(c: nat) {
    c < 0xD800 || 0xDFFF < c <= 0x10FFFF
  }

  /** Equal, the case of hexadecimal digits apart. */
  predicate Alike(t: seq<byte>, u: seq<byte>) {
    |t| == |u| && forall k :: 0 <= k < |t| ==> t[k] == u[k] || (IsHex(t[k]) && Lowercase(t[k]) == u[k])
  }

  predicate HexAt(s: seq<byte>, p: nat) {
    p + 4 <= |s| && IsHex(s[p]) && IsHex(s[p + 1]) && IsHex(s[p + 2]) && IsHex(s[p + 3])
  }

  lemma LowercaseHex(b: byte)
    ensures IsHex(b) <==> IsHex(Lowercase(b))
    ensures IsHex(b) ==> HexOf(Lowercase(b)) == HexOf(b) && HexDigit(HexOf(b)) == Lowercase(b)
  {
  }

  /** Four digits have a value below 2^16 and are, but for the case, how it is written. */
  lemma Hex4Digits(s: seq<byte>, p: nat)
    requires p + 4 <= |s|
    ensures HexAt(s, p) ==>
      Hex4(s, p) == 4096 * HexOf(s[p]) + 256 * HexOf(s[p + 1]) + 16 * HexOf(s[p + 2]) + HexOf(s[p + 3])
    ensures !HexAt(s, p) ==> Hex4(s, p) == 0
  {
    assert HexPrefix(s, p, 1) == HexValue(s[p]);
    var h1, h2, h3 := HexPrefix(s, p, 1), HexPrefix(s, p, 2), HexPrefix(s, p, 3);
    if HexAt(s, p) {
      assert h2.value == 16 * HexOf(s[p]) + HexOf(s[p + 1]);
      assert h3.value == 256 * HexOf(s[p]) + 16 * HexOf(s[p + 1]) + HexOf(s[p + 2]);
    } else {
      assert h2.None? <==> !IsHex(s[p]) || !IsHex(s[p + 1]);
      assert h3.None? <==> h2.None? || !IsHex(s[p + 2]);
    }
  }

  lemma FourDigits(a: nat, b: nat, c: nat, d: nat)
    requires a < 16 && b < 16 && c < 16 && d < 16
    ensures
      var h := 4096 * a + 256 * b + 16 * c + d;
      h / 4096 % 16 == a && h / 256 % 16 == b && h / 16 % 16 == c && h % 16 == d
  {
    var h := 4096 * a + 256 * b + 16 * c + d;
    assert h / 16 == 256 * a + 16 * b + c;
    assert h / 256 == 16 * a + b;
    assert h / 4096 == a;
  }

  lemma WrittenDigits(a: nat, b: nat, c: nat, d: nat)
    requires a < 16 && b < 16 && c < 16 && d < 16
    ensures
      var h := 4096 * a + 256 * b + 16 * c + d;
      HexText4(h) == [BACKSLASH, 117, HexDigit(a), HexDigit(b), HexDigit(c), HexDigit(d)]
  {
    hide HexDigit;
    FourDigits(a, b, c, d);
  }

  lemma DigitsAlike(s: seq<byte>, p: nat)
    requires p + 6 <= |s| && s[p] == BACKSLASH && s[p + 1] == 117 && HexAt(s, p + 2)
    ensures Alike(s[p..p + 6], HexText4(Hex4(s, p + 2)))
  {
    Hex4Digits(s, p + 2);
    WrittenDigits(HexOf(s[p + 2]), HexOf(s[p + 3]), HexOf(s[p + 4]), HexOf(s[p + 5]));
    LowercaseHex(s[p + 2]);
    LowercaseHex(s[p + 3]);
    LowercaseHex(s[p + 4]);
    LowercaseHex(s[p + 5]);
    hide Hex4, HexText4, Lowercase, HexOf, HexDigit, IsHex;
    var t := s[p..p + 6];
    assert t == [s[p], s[p + 1], s[p + 2], s[p + 3], s[p + 4], s[p + 5]];
  }

  /** Digits that are alike have the same value. */
  lemma AlikeDigits(s: seq<byte>, p: nat, n: nat)
    requires n < 0x1_0000 && p + 6 <= |s| && Alike(s[p..p + 6], HexText4(n))
    ensures s[p] == BACKSLASH && s[p + 1] == 117 && HexAt(s, p + 2) && Hex4(s, p + 2) == n
  {
    var t, u := s[p..p + 6], HexText4(n);
    assert forall k :: 0 <= k < 6 ==> t[k] == s[p + k];
    assert t[0] == s[p] && t[1] == s[p + 1] && t[2] == s[p + 2] && t[3] == s[p + 3];
    assert t[4] == s[p + 4] && t[5] == s[p + 5];
    HexText4Value(u, 0, n);
    Hex4Digits(u, 2);
    Hex4Digits(s, p + 2);
    forall k | 2 <= k < 6 ensures IsHex(u[k]) && IsHex(t[k]) && HexOf(t[k]) == HexOf(u[k]) {
      LowercaseHex(t[k]);
    }
  }

  lemma SingleEscape(c: nat)
    requires c < 0x10000
    ensures UnicodeEscape(c) == HexText4(c)
  {
  }

  lemma PairAlike(s: seq<byte>, p: nat, h: nat, l: nat)
    requires p + 12 <= |s| && 0xD800 <= h <= 0xDBFF && 0xDC00 <= l <= 0xDFFF
    ensures
      var c := 0x10000 + (h - 0xD800) * 0x400 + (l - 0xDC00);
      && Scalar(c) && |UnicodeEscape(c)| == 12
      && (Alike(s[p..p + 12], UnicodeEscape(c)) <==>
           Alike(s[p..p + 6], HexText4(h)) && Alike(s[p + 6..p + 12], HexText4(l)))
  {
    hide HexText4, IsHex, Lowercase;
    var c := 0x10000 + (h - 0xD800) * 0x400 + (l - 0xDC00);
    assert (c - 0x10000) / 0x400 == h - 0xD800 && (c - 0x10000) % 0x400 == l - 0xDC00;
    var a, b, t := HexText4(h), HexText4(l), s[p..p + 12];
    assert UnicodeEscape(c) == a + b;
    assert forall k :: 0 <= k < 6 ==> t[k] == s[p..p + 6][k] && (a + b)[k] == a[k];
    assert forall k :: 0 <= k < 6 ==> t[k + 6] == s[p + 6..p + 12][k] && (a + b)[k + 6] == b[k];
  }

  lemma PairValue(h: nat, l: nat)
    requires 0xD800 <= h <= 0xDBFF && 0xDC00 <= l <= 0xDFFF
    ensures 0x10000 + h % 0x400 * 0x400 + l % 0x400 == 0x10000 + (h - 0xD800) * 0x400 + (l - 0xDC00)
  {
    assert h % 0x400 == h - 0xD800 && l % 0x400 == l - 0xDC00;
  }

  /** What is read is, but for the case of digits, the escape of a scalar value; four bytes
      that are not all digits are read as NUL. */
  lemma LiteralIsEscape(s: seq<byte>, p: nat, end: nat)
    requires p < end < |s| && s[p] == BACKSLASH && s[p + 1] == 117 && Utf16Literal(s, p, end).Some?
    ensures
      var l := Utf16Literal(s, p, end).value;
      if HexAt(s, p + 2) then Scalar(l.codepoint) && Alike(s[p..p + l.length], UnicodeEscape(l.codepoint))
      else l == Literal(0, 6)
  {
    Hex4Digits(s, p + 2);
    hide HexText4, HexPrefix, UnicodeEscape, IsHex, HexOf, Lowercase, Alike;
    if HexAt(s, p + 2) {
      var first := Hex4(s, p + 2);
      DigitsAlike(s, p);
      if first < 0xD800 || 0xDFFF < first {
        SingleEscape(first);
      } else {
        var second := Hex4(s, p + 8);
        Hex4Digits(s, p + 8);
        DigitsAlike(s, p + 6);
        PairAlike(s, p, first, second);
        PairValue(first, second);
      }
    }
  }

  /** And every scalar value is read from its escape, in either case. */
  lemma EscapeIsLiteral(s: seq<byte>, p: nat, end: nat, c: nat)
    requires Scalar(c) && end <= |s| && p + |UnicodeEscape(c)| <= end
    requires Alike(s[p..p + |UnicodeEscape(c)|], UnicodeEscape(c))
    ensures s[p] == BACKSLASH && s[p + 1] == 117
    ensures Utf16Literal(s, p, end) == Some(Literal(c, |UnicodeEscape(c)|))
  {
    hide HexText4, IsHex, HexOf, Lowercase, Alike, Hex4;
    if c < 0x10000 {
      SingleEscape(c);
      AlikeDigits(s, p, c);
    } else {
      var h, l := 0xD800 + (c - 0x10000) / 0x400, 0xDC00 + (c - 0x10000) % 0x400;
      SurrogateParts(c - 0x10000);
      PairAlike(s, p, h, l);
      PairValue(h, l);
      AlikeDigits(s, p, h);
      AlikeDigits(s, p + 6, l);
    }
  }

  /* ---- Whole literals ---- */

  /** One character of a literal: a byte as it is, a letter behind a backslash, the escape of
      a scalar value, or four bytes behind `\\u` that are not all digits. */
  datatype Piece =
    | Plain(b: byte)
    | Letter(k: nat)
    | Unicode(text: seq<byte>, codepoint: nat)
    | BadDigits(text: seq<byte>)

  predicate Proper(x: Piece) {
    match x
    case Plain(b) => b != BACKSLASH
    case Letter(k) => k < 8
    case Unicode(t, c) => Scalar(c) && Alike(t, UnicodeEscape(c))
    case BadDigits(t) => |t| == 6 && t[0] == BACKSLASH && t[1] == 117 && !HexAt(t, 2)
  }

  /** What the standard allows in a literal. */
  predicate Standard(x: Piece) {
    Proper(x) && !x.BadDigits? && x != Plain(QUOTE)
  }

  function Spelling(x: Piece): (t: seq<byte>)
    requires Proper(x)
    ensures |t| > 0
  {
    match x
    case Plain(b) => [b]
    case Letter(k) => [BACKSLASH, ESCAPE_LETTERS[k] as int]
    case Unicode(t, _) => t
    case BadDigits(t) => t
  }

  function Meaning(x: Piece): seq<byte>
    requires Proper(x)
  {
    match x
    case Plain(b) => [b]
    case Letter(k) => [ESCAPED_BYTES[k]]
    case Unicode(_, c) => Utf8(c)
    case BadDigits(_) => [0]
  }

  predicate AllProper(xs: seq<Piece>) {
    forall k :: 0 <= k < |xs| ==> Proper(xs[k])
  }

  function SpelledAll(xs: seq<Piece>): seq<byte>
    requires AllProper(xs)
  {
    if xs == [] then [] else Spelling(xs[0]) + SpelledAll(xs[1..])
  }

  function MeantAll(xs: seq<Piece>): seq<byte>
    requires AllProper(xs)
  {
    if xs == [] then [] else Meaning(xs[0]) + MeantAll(xs[1..])
  }

  lemma LetterDecodes(s: seq<byte>, p: nat, end: nat, k: nat)
    requires k < 8 && p < end < |s| && s[p] == BACKSLASH && s[p + 1] == ESCAPE_LETTERS[k] as int
    ensures DecodeStep(s, p, end) == Some(Step(2, [ESCAPED_BYTES[k]]))
  {
    assert s[p + 1] as char == ESCAPE_LETTERS[k];
    OneByteEscapes(s, p, end, k);
  }

  lemma BadDigitsDecode(s: seq<byte>, p: nat, end: nat)
    requires p + 6 <= end < |s| && s[p] == BACKSLASH && s[p + 1] == 117 && !HexAt(s, p + 2)
    ensures DecodeStep(s, p, end) == Some(Step(6, [0]))
  {
    Hex4Digits(s, p + 2);
    hide Hex4;
  }

  /** One piece is decoded in one step. */
  lemma PieceDecodes(s: seq<byte>, p: nat, end: nat, x: Piece)
    requires Proper(x) && At(s, p, Spelling(x)) && p + |Spelling(x)| <= end < |s|
    ensures DecodeStep(s, p, end) == Some(Step(|Spelling(x)|, Meaning(x)))
  {
    hide UnicodeEscape, Alike, Utf16Literal, DecodeStep, HexAt, Utf8;
    var t := Spelling(x);
    assert s[p..p + |t|] == t && s[p] == t[0];
    match x
    case Plain(b) => PlainDecodes(s, p, end);
    case Letter(k) =>
      assert s[p + 1] == t[1];
      LetterDecodes(s, p, end, k);
    case Unicode(_, c) =>
      AlikeLength(t, c);
      EscapeIsLiteral(s, p, end, c);
      UnicodeDecodes(s, p, end, c);
    case BadDigits(_) =>
      assert s[p + 1] == t[1];
      SameHexAt(s, p, t);
      BadDigitsDecode(s, p, end);
  }

  lemma SameHexAt(s: seq<byte>, p: nat, t: seq<byte>)
    requires |t| == 6 && p + 6 <= |s| && s[p..p + 6] == t
    ensures HexAt(s, p + 2) <==> HexAt(t, 2)
  {
    assert forall k :: 0 <= k < 6 ==> t[k] == s[p + k];
    assert t[2] == s[p + 2] && t[3] == s[p + 3] && t[4] == s[p + 4] && t[5] == s[p + 5];
  }

  lemma AlikeLength(t: seq<byte>, c: nat)
    requires Scalar(c) && Alike(t, UnicodeEscape(c))
    ensures |t| == |UnicodeEscape(c)|
  {
  }

  lemma PlainDecodes(s: seq<byte>, p: nat, end: nat)
    requires p < end < |s| && s[p] != BACKSLASH
    ensures DecodeStep(s, p, end) == Some(Step(1, [s[p]]))
  {
  }

  lemma UnicodeDecodes(s: seq<byte>, p: nat, end: nat, c: nat)
    requires p < end < |s| && s[p] == BACKSLASH && s[p + 1] == 117 && Scalar(c)
    requires Utf16Literal(s, p, end) == Some(Literal(c, |UnicodeEscape(c)|))
    ensures DecodeStep(s, p, end) == Some(Step(|UnicodeEscape(c)|, Utf8(c)))
  {
  }

  lemma UnfoldDecoding(s: seq<byte>, p: nat, end: nat, out: seq<byte>, step: Step)
    requires p < end < |s| && DecodeStep(s, p, end) == Some(step)
    ensures Decode(s, p, end, out) == Decode(s, p + step.read, end, out + step.written)
  {
  }

  /** Pieces are decoded one after the other. */
  lemma {:induction false} PiecesDecode(s: seq<byte>, p: nat, end: nat, xs: seq<Piece>, out: seq<byte>)
    requires AllProper(xs) && At(s, p, SpelledAll(xs)) && p + |SpelledAll(xs)| == end < |s|
    ensures Decode(s, p, end, out) == Some(out + MeantAll(xs))
    decreases |xs|
  {
    hide At, DecodeStep, Proper, Spelling, Meaning;
    if xs == [] {
      assert out + [] == out;
    } else {
      var x := xs[0];
      AtConcat(s, p, Spelling(x), SpelledAll(xs[1..]));
      PieceDecodes(s, p, end, x);
      UnfoldDecoding(s, p, end, out, Step(|Spelling(x)|, Meaning(x)));
      PiecesDecode(s, p + |Spelling(x)|, end, xs[1..], out + Meaning(x));
      Regroup(out, Meaning(x), MeantAll(xs[1..]));
    }
  }

  lemma DigitsPassed(s: seq<byte>, p: nat)
    requires p + 6 <= |s| && s[p] == BACKSLASH && HexAt(s, p + 2)
    ensures ClosingQuote(s, p) == ClosingQuote(s, p + 6)
  {
    assert ClosingQuote(s, p) == ClosingQuote(s, p + 2) == ClosingQuote(s, p + 3);
    assert ClosingQuote(s, p + 3) == ClosingQuote(s, p + 4) == ClosingQuote(s, p + 5);
  }

  lemma EscapePassed(s: seq<byte>, p: nat, c: nat)
    requires Scalar(c) && p + |UnicodeEscape(c)| <= |s| && Alike(s[p..p + |UnicodeEscape(c)|], UnicodeEscape(c))
    ensures ClosingQuote(s, p) == ClosingQuote(s, p + |UnicodeEscape(c)|)
  {
    hide HexText4, IsHex, HexOf, Lowercase, Alike, Hex4, ClosingQuote;
    if c < 0x10000 {
      SingleEscape(c);
      AlikeDigits(s, p, c);
      DigitsPassed(s, p);
    } else {
      var h, l := 0xD800 + (c - 0x10000) / 0x400, 0xDC00 + (c - 0x10000) % 0x400;
      SurrogateParts(c - 0x10000);
      PairAlike(s, p, h, l);
      AlikeDigits(s, p, h);
      AlikeDigits(s, p + 6, l);
      DigitsPassed(s, p);
      DigitsPassed(s, p + 6);
    }
  }

  /** The sizing pass does not find a quote in a piece that the standard allows. */
  lemma PiecePassed(s: seq<byte>, p: nat, x: Piece)
    requires Standard(x) && At(s, p, Spelling(x))
    ensures ClosingQuote(s, p) == ClosingQuote(s, p + |Spelling(x)|)
  {
    hide UnicodeEscape, Alike, HexAt;
    var t := Spelling(x);
    assert s[p..p + |t|] == t && s[p] == t[0];
    match x
    case Plain(b) =>
    case Letter(k) => assert s[p + 1] == t[1];
    case Unicode(_, c) =>
      AlikeLength(t, c);
      EscapePassed(s, p, c);
  }

  lemma {:induction false} PiecesPassed(s: seq<byte>, p: nat, xs: seq<Piece>)
    requires AllProper(xs) && (forall k :: 0 <= k < |xs| ==> Standard(xs[k])) && At(s, p, SpelledAll(xs))
    ensures ClosingQuote(s, p) == ClosingQuote(s, p + |SpelledAll(xs)|)
    decreases |xs|
  {
    hide At, ClosingQuote, Standard, Proper, Spelling;
    if xs == [] {
    } else {
      AtConcat(s, p, Spelling(xs[0]), SpelledAll(xs[1..]));
      PiecePassed(s, p, xs[0]);
      PiecesPassed(s, p + |Spelling(xs[0])|, xs[1..]);
    }
  }

  /** Every literal of the standard, whichever way its characters are spelled, is read as
      what they mean, and the reader stops behind it. */
  lemma LiteralRead(s: seq<byte>, i: nat, xs: seq<Piece>)
    requires AllProper(xs) && forall k :: 0 <= k < |xs| ==> Standard(xs[k])
    requires At(s, i, [QUOTE] + SpelledAll(xs) + [QUOTE])
    ensures StringAt(s, i) == Some((MeantAll(xs), i + |SpelledAll(xs)| + 2))
  {
    hide At, Decode, ClosingQuote, Standard, Proper;
    var end := i + 1 + |SpelledAll(xs)|;
    AtConcat(s, i, [QUOTE] + SpelledAll(xs), [QUOTE]);
    AtConcat(s, i, [QUOTE], SpelledAll(xs));
    AtIndex(s, i, [QUOTE], 0);
    AtIndex(s, end, [QUOTE], 0);
    PiecesPassed(s, i + 1, xs);
    ClosedAt(s, end);
    PiecesDecode(s, i + 1, end, xs, []);
    assert [] + MeantAll(xs) == MeantAll(xs);
  }

  lemma ClosedAt(s: seq<byte>, end: nat)
    requires end < |s| && s[end] == QUOTE
    ensures ClosingQuote(s, end) == Some(end)
  {
  }

  /* ---- Nothing else is accepted ---- */

  /** What is decoded in one step is a piece. */
  lemma StepIsPiece(s: seq<byte>, p: nat, end: nat) returns (x: Piece)
    requires p < end < |s| && DecodeStep(s, p, end).Some?
    ensures Proper(x) && At(s, p, Spelling(x))
    ensures DecodeStep(s, p, end) == Some(Step(|Spelling(x)|, Meaning(x)))
  {
    if s[p] != BACKSLASH {
      x := Plain(s[p]);
    } else if s[p + 1] == 117 {
      LiteralIsEscape(s, p, end);
      hide UnicodeEscape, Alike, HexAt;
      var l := Utf16Literal(s, p, end).value;
      var t := s[p..p + l.length];
      assert t[0] == s[p] && t[1] == s[p + 1];
      if HexAt(s, p + 2) {
        x := Unicode(t, l.codepoint);
      } else {
        SameHexAt(s, p, t);
        x := BadDigits(t);
      }
    } else {
      hide DecodeStep;
      x := LetterOf(s, p, end);
      assert s[p..p + 2] == [s[p], s[p + 1]];
    }
  }

  lemma LetterOf(s: seq<byte>, p: nat, end: nat) returns (x: Piece)
    requires p < end < |s| && DecodeStep(s, p, end).Some? && s[p] == BACKSLASH && s[p + 1] != 117
    ensures x.Letter? && x.k < 8 && s[p + 1] == ESCAPE_LETTERS[x.k] as int
    ensures DecodeStep(s, p, end) == Some(Step(2, [ESCAPED_BYTES[x.k]]))
  {
    OneByteEscapes(s, p, end, 0);
    var k :| 0 <= k < 8 && ESCAPE_LETTERS[k] == s[p + 1] as char;
    OneByteEscapes(s, p, end, k);
    x := Letter(k);
  }

  /** What is decoded is spelled by proper pieces; the last of them takes in the closing
      quote if malformed digits have shifted where escapes start. */
  lemma {:induction false} DecodedIsPieces(s: seq<byte>, p: nat, end: nat, out: seq<byte>) returns (xs: seq<Piece>)
    requires p <= end < |s| && Decode(s, p, end, out).Some?
    ensures AllProper(xs) && At(s, p, SpelledAll(xs)) && end <= p + |SpelledAll(xs)| <= end + 1
    ensures Decode(s, p, end, out) == Some(out + MeantAll(xs))
    decreases end + 1 - p
  {
    hide At, DecodeStep, Proper, Spelling, Meaning;
    if p == end {
      xs := [];
      NothingSpelled(s, p);
      assert out + [] == out;
    } else {
      var x := StepIsPiece(s, p, end);
      var q := p + |Spelling(x)|;
      StepReads(s, p, end);
      UnfoldDecoding(s, p, end, out, Step(|Spelling(x)|, Meaning(x)));
      var more := [];
      if q <= end {
        more := DecodedIsPieces(s, q, end, out + Meaning(x));
      } else {
        NothingSpelled(s, q);
        assert out + Meaning(x) + [] == out + Meaning(x);
      }
      xs := [x] + more;
      assert xs[1..] == more;
      AtConcat(s, p, Spelling(x), SpelledAll(more));
      Regroup(out, Meaning(x), MeantAll(more));
    }
  }

  /** The bytes from `p` to `end` are proper pieces that mean `value`. */
  ghost predicate SpelledAs(s: seq<byte>, p: nat, end: nat, value: seq<byte>) {
    exists xs: seq<Piece> ::
      AllProper(xs) && At(s, p, SpelledAll(xs)) && end <= p + |SpelledAll(xs)| <= end + 1 && MeantAll(xs) == value
  }

  lemma DecodedIsSpelled(s: seq<byte>, p: nat, end: nat)
    requires p <= end < |s| && Decode(s, p, end, []).Some?
    ensures SpelledAs(s, p, end, Decode(s, p, end, []).value)
  {
    hide Decode, At, SpelledAll, MeantAll, AllProper;
    var xs := DecodedIsPieces(s, p, end, []);
    assert [] + MeantAll(xs) == MeantAll(xs);
  }

  lemma NothingSpelled(s: seq<byte>, p: nat)
    requires p <= |s|
    ensures At(s, p, [])
  {
  }

  lemma StepReads(s: seq<byte>, p: nat, end: nat)
    requires p < end < |s| && DecodeStep(s, p, end).Some?
    ensures p < p + DecodeStep(s, p, end).value.read <= end + 1
  {
  }

  /** So a literal that is read consists of pieces, and stands for what they mean. */
  lemma ReadIsSpelled(s: seq<byte>, i: nat) returns (xs: seq<Piece>)
    requires i < |s| && StringAt(s, i).Some?
    ensures AllProper(xs) && At(s, i + 1, SpelledAll(xs)) && MeantAll(xs) == StringAt(s, i).value.0
    ensures StringAt(s, i).value.1 - 1 <= i + 1 + |SpelledAll(xs)| <= StringAt(s, i).value.1
  {
    hide At, Decode;
    xs := DecodedIsPieces(s, i + 1, ClosingQuote(s, i + 1).value, []);
    assert [] + MeantAll(xs) == MeantAll(xs);
  }

  /* ---- The printed literal ---- */

  /** The pieces of a literal that keeps to the standard in its control characters, too. */
  predicate Strict(x: Piece) {
    Standard(x) && (x.Plain? ==> x.b >= 32)
  }

  lemma {:induction false} HighBytesEscaped(s: seq<byte>)
    requires forall k :: 0 <= k < |s| ==> s[k] >= 128
    ensures Escaped(s) == s
  {
    if s == [] {
    } else {
      HighBytesEscaped(s[1..]);
    }
  }

  lemma ByteEscaped(b: byte)
    ensures Escaped([b]) == Escape(b)
  {
    assert [b][1..] == [] && Escape(b) + [] == Escape(b);
  }

  /** What a piece means is printed in no more bytes than it has. */
  lemma PieceNotShorter(x: Piece)
    requires Strict(x)
    ensures |Escaped(Meaning(x))| <= |Spelling(x)|
  {
    match x
    case Plain(b) => ByteEscaped(b);
    case Letter(k) => ByteEscaped(ESCAPED_BYTES[k]);
    case Unicode(t, c) =>
      hide HexText4, Alike;
      AlikeLength(t, c);
      if c < 128 {
        ByteEscaped(c);
      } else {
        HighBytesEscaped(Utf8(c));
      }
  }

  /** No literal of the standard for a string is shorter than the printed one. */
  lemma {:induction false} PrintedIsShortest(xs: seq<Piece>)
    requires AllProper(xs) && forall k :: 0 <= k < |xs| ==> Strict(xs[k])
    ensures |Quoted(MeantAll(xs))| <= |[QUOTE] + SpelledAll(xs) + [QUOTE]|
  {
    hide Strict, Proper, Escape, Spelling, Meaning;
    if xs == [] {
    } else {
      PieceNotShorter(xs[0]);
      EscapedConcat(Meaning(xs[0]), MeantAll(xs[1..]));
      PrintedIsShortest(xs[1..]);
    }
  }

  /** And it holds no control character. */
  lemma {:induction false} PrintedIsPrintable(s: seq<byte>)
    ensures forall k :: 0 <= k < |Escaped(s)| ==> Escaped(s)[k] >= 32
  {
    if s == [] {
    } else {
      PrintedIsPrintable(s[1..]);
      assert forall k :: 0 <= k < |Escape(s[0])| ==> Escape(s[0])[k] >= 32;
    }
  }

  /* ---- The same literal in another place ---- */

  /** What a literal is depends only on its bytes. */
  predicate Both(s: seq<byte>, i: nat, m: seq<byte>, w: nat, t: seq<byte>) {
    At(s, i, t) && At(m, w, t)
  }

  lemma Same(s: seq<byte>, i: nat, m: seq<byte>, w: nat, t: seq<byte>, k: nat)
    requires Both(s, i, m, w, t) && k < |t|
    ensures i + k < |s| && w + k < |m| && s[i + k] == t[k] && m[w + k] == t[k]
  {
    AtIndex(s, i, t, k);
    AtIndex(m, w, t, k);
  }

  lemma {:induction false} SameClosing(s: seq<byte>, i: nat, m: seq<byte>, w: nat, t: seq<byte>, k: nat)
    requires Both(s, i, m, w, t) && t != [] && ClosingQuote(s, i + k) == Some(i + |t| - 1)
    ensures ClosingQuote(m, w + k) == Some(w + |t| - 1)
    decreases |t| - k
  {
    hide Both;
    Same(s, i, m, w, t, k);
    if s[i + k] == QUOTE {
    } else if s[i + k] == BACKSLASH {
      SameClosing(s, i, m, w, t, k + 2);
    } else {
      SameClosing(s, i, m, w, t, k + 1);
    }
  }

  lemma {:induction false} SameHex(s: seq<byte>, i: nat, m: seq<byte>, w: nat, t: seq<byte>, k: nat, d: nat)
    requires Both(s, i, m, w, t) && k + d <= |t|
    ensures i + k + d <= |s| && w + k + d <= |m| && HexPrefix(m, w + k, d) == HexPrefix(s, i + k, d)
  {
    if d == 0 {
    } else {
      Same(s, i, m, w, t, k + d - 1);
      SameHex(s, i, m, w, t, k, d - 1);
    }
  }

  lemma SameUtf16(s: seq<byte>, i: nat, m: seq<byte>, w: nat, t: seq<byte>, k: nat)
    requires Both(s, i, m, w, t) && k < |t|
    ensures Utf16Literal(m, w + k, w + |t| - 1) == Utf16Literal(s, i + k, i + |t| - 1)
  {
    hide HexPrefix;
    if k + 6 < |t| {
      SameHex(s, i, m, w, t, k + 2, 4);
    }
    if k + 12 < |t| {
      SameHex(s, i, m, w, t, k + 8, 4);
      Same(s, i, m, w, t, k + 6);
      Same(s, i, m, w, t, k + 7);
    }
  }

  lemma {:induction false} SameDecoding(
    s: seq<byte>, i: nat, m: seq<byte>, w: nat, t: seq<byte>, k: nat, out: seq<byte>)
    requires Both(s, i, m, w, t) && t != []
    ensures Decode(m, w + k, w + |t| - 1, out) == Decode(s, i + k, i + |t| - 1, out)
    decreases |t| - k
  {
    hide Both, Utf16Literal;
    Same(s, i, m, w, t, |t| - 1);
    if k + 1 < |t| {
      Same(s, i, m, w, t, k);
      Same(s, i, m, w, t, k + 1);
      SameUtf16(s, i, m, w, t, k);
      var step := DecodeStep(s, i + k, i + |t| - 1);
      if step.Some? {
        SameDecoding(s, i, m, w, t, k + step.value.read, out + step.value.written);
      }
    }
  }

  lemma SameString(s: seq<byte>, i: nat, m: seq<byte>, w: nat, t: seq<byte>)
    requires Both(s, i, m, w, t) && i < |s| && StringAt(s, i).Some? && StringAt(s, i).value.1 == i + |t|
    ensures StringAt(m, w) == Some((StringAt(s, i).value.0, w + |t|))
  {
    hide Both, Decode, ClosingQuote;
    SameClosing(s, i, m, w, t, 1);
    SameDecoding(s, i, m, w, t, 1, []);
    Same(s, i, m, w, t, 0);
  }
}
