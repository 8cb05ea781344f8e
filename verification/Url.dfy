/** The URL codec: percent-encoding into a buffer of limited length, and decoding, which
    may happen in place. */
module Url {
  import opened Bytes
  import opened Hex
  import opened JsonText
  const PERCENT: byte := 37
  const PLUS: byte := 43

  predicate IsAlnum(b: byte) {
    48 <= b <= 57 || 65 <= b <= 90 || 97 <= b <= 122
  }

  /** Letters, digits and the characters . _ - $ , ; ~ ( ). */
  predicate Unreserved(b: byte) {
    IsAlnum(b) || b in [46, 95, 45, 36, 44, 59, 126, 40, 41]
  }

  /* ---- Encoding ---- */

  function EncodeByte(b: byte): (t: seq<byte>)
    ensures |t| == 1 || |t| == 3
  {
    if Unreserved(b) then [b] else [PERCENT, HexDigit(b / 16), HexDigit(b % 16)]
  }

  function Encode(s: seq<byte>): seq<byte> {
    if s == [] then [] else EncodeByte(s[0]) + Encode(s[1..])
  }

  lemma {:induction false} EncodeConcat(a: seq<byte>, b: seq<byte>)
    ensures Encode(a + b) == Encode(a) + Encode(b)
  {
    if a == [] {
      assert a + b == b;
    } else {
      assert (a + b)[1..] == a[1..] + b;
      EncodeConcat(a[1..], b);
      Regroup(EncodeByte(a[0]), Encode(a[1..]), Encode(b));
    }
  }

  lemma EncodePrefix(s: seq<byte>, i: nat)
    requires i < |s|
    ensures Encode(s[..i + 1]) == Encode(s[..i]) + EncodeByte(s[i])
    ensures |Encode(s[..i])| + |EncodeByte(s[i])| <= |Encode(s)|
  {
    assert s[..i + 1] == s[..i] + [s[i]] && s == s[..i + 1] + s[i + 1..];
    EncodeConcat(s[..i], [s[i]]);
    assert Encode([s[i]]) == EncodeByte(s[i]) + Encode([]);
    EncodeConcat(s[..i + 1], s[i + 1..]);
  }

  lemma {:induction false} EncodeLength(s: seq<byte>)
    ensures |Encode(s)| <= 3 * |s|
  {
    if s == [] {
    } else {
      EncodeLength(s[1..]);
    }
  }

  /** Writes one byte, encoded if need be, at `pos`. */
  method PutEncoded(dst: array<byte>, pos: nat, b: byte)
    requires pos + |EncodeByte(b)| <= dst.Length
    modifies dst
    ensures dst[..pos + |EncodeByte(b)|] == old(dst[..pos]) + EncodeByte(b)
  {
    if Unreserved(b) {
      dst[pos] := b;
    } else {
      dst[pos] := PERCENT;
      dst[pos + 1] := HexDigit(b / 16);
      dst[pos + 2] := HexDigit(b % 16);
    }
  }

  /** Encodes a C string into `dst`; -1 if it does not fit with its terminator. The length
      that is returned is cast to an int. */
  method UrlEncode(src: cstring, dst: array<byte>) returns (ret: int)
    requires dst.Length > 0
    modifies dst
    ensures
      var t := Encode(src);
      && ret == (if |t| < dst.Length then ToInt(|t|) else -1)
      && (|t| < dst.Length ==> dst[..|t|] == t && dst[|t|] == 0)
    ensures dst.Length <= INT_MAX ==> (ret == -1 <==> |Encode(src)| >= dst.Length)
  {
    var i, pos, end := 0, 0, dst.Length - 1;
    assert Encode(src[..0]) == [];
    hide Encode;
    while i < |src| && pos < end
      invariant 0 <= i <= |src| && 0 <= pos <= end
      invariant pos == |Encode(src[..i])| && dst[..pos] == Encode(src[..i])
    {
      EncodePrefix(src, i);
      if !Unreserved(src[i]) && pos + 2 >= end {
        break;
      }
      PutEncoded(dst, pos, src[i]);
      pos := pos + if Unreserved(src[i]) then 1 else 3;
      i := i + 1;
    }
    if i < |src| {
      EncodePrefix(src, i);
    } else {
      assert src[..i] == src;
    }
    dst[pos] := 0;
    ret := if i == |src| then ToInt(pos) else -1;
  }

  /* ---- Decoding ---- */

  /** How many bytes of `s` the decoder reads at `i` for one byte. */
  predicate Escaped(s: seq<byte>, i: nat) {
    i + 2 < |s| && s[i] == PERCENT && IsHex(s[i + 1]) && IsHex(s[i + 2])
  }

  function DecodeAt(s: seq<byte>, i: nat, form: bool): byte
    requires i < |s|
  {
    if Escaped(s, i) then HexOf(s[i + 1]) * 16 + HexOf(s[i + 2])
    else if form && s[i] == PLUS then SPACE
    else s[i]
  }

  function Next(s: seq<byte>, i: nat): (n: nat)
    ensures i < |s| ==> i < n <= |s|
  {
    if Escaped(s, i) then i + 3 else i + 1
  }

  function Decode(s: seq<byte>, i: nat, form: bool): (t: seq<byte>)
    decreases |s| - i
  {
    if i >= |s| then [] else [DecodeAt(s, i, form)] + Decode(s, Next(s, i), form)
  }

  lemma {:induction false} DecodeLength(s: seq<byte>, i: nat, form: bool)
    ensures |Decode(s, i, form)| <= if i < |s| then |s| - i else 0
    decreases |s| - i
  {
    if i < |s| {
      DecodeLength(s, Next(s, i), form);
    }
  }

  /** Reads one byte or one escape at `i`, where the source is still unchanged. */
  method DecodeByte(src: array<byte>, srcLen: nat, i: nat, form: bool, ghost s: seq<byte>)
    returns (b: byte, next: nat)
    requires srcLen <= src.Length && |s| == srcLen && i < srcLen && src[i..srcLen] == s[i..]
    ensures i < next <= srcLen && next == Next(s, i) && b == DecodeAt(s, i, form)
    ensures forall k :: next <= k < srcLen ==> src[k] == s[k]
  {
    assert forall k :: i <= k < srcLen ==> src[k] == src[i..srcLen][k - i] == s[i..][k - i] == s[k];
    if i + 2 < srcLen && src[i] == PERCENT && IsHex(src[i + 1]) && IsHex(src[i + 2]) {
      b := HexOf(src[i + 1]) * 16 + HexOf(src[i + 2]);
      next := i + 3;
    } else {
      b := if form && src[i] == PLUS then SPACE else src[i];
      next := i + 1;
    }
  }

  lemma AdvanceDecode(s: seq<byte>, i: nat, form: bool, before: seq<byte>)
    requires i < |s|
    ensures before + Decode(s, i, form)
         == before + [DecodeAt(s, i, form)] + Decode(s, Next(s, i), form)
  {
    Regroup(before, [DecodeAt(s, i, form)], Decode(s, Next(s, i), form));
  }

  /** Decodes the first `srcLen` bytes of `src` into `dst`, which may be the same array;
      -1 if it does not fit with its terminator. */
  method UrlDecode(src: array<byte>, srcLen: nat, dst: array<byte>, form: bool) returns (ret: int)
    requires srcLen <= src.Length && dst.Length > 0
    modifies dst
    ensures
      var t := Decode(old(src[..srcLen]), 0, form);
      && ret == (if |t| < dst.Length then |t| else -1)
      && (ret >= 0 ==> dst[..ret] == t && dst[ret] == 0)
  {
    ghost var s := src[..srcLen];
    ghost var t := Decode(s, 0, form);
    var i, j := 0, 0;
    while i < srcLen && j < dst.Length - 1
      invariant 0 <= j <= i <= srcLen && j < dst.Length
      invariant src[i..srcLen] == s[i..]
      invariant t == dst[..j] + Decode(s, i, form)
    {
      ghost var before := dst[..j];
      var b, next := DecodeByte(src, srcLen, i, form, s);
      AdvanceDecode(s, i, form, before);
      dst[j] := b;
      j := j + 1;
      i := next;
      assert dst[..j] == before + [b];
      assert forall k :: i <= k < srcLen ==> src[k] == s[k];
      assert src[i..srcLen] == s[i..];
    }
    assert i < srcLen ==> Decode(s, i, form) != [];
    dst[j] := 0;
    ret := if i >= srcLen then j else -1;
  }

  /* ---- Decoding undoes encoding ---- */

  lemma UnfoldDecode(s: seq<byte>, i: nat, form: bool)
    ensures Decode(s, i, form) ==
      if i >= |s| then [] else [DecodeAt(s, i, form)] + Decode(s, Next(s, i), form)
  {
  }

  lemma DecodeEncodedByte(b: byte, i: nat, t: seq<byte>, form: bool)
    requires At(t, i, EncodeByte(b))
    ensures i < |t| && DecodeAt(t, i, form) == b && Next(t, i) == i + |EncodeByte(b)|
  {
    var e := EncodeByte(b);
    AtIndex(t, i, e, 0);
    if |e| == 3 {
      AtIndex(t, i, e, 1);
      AtIndex(t, i, e, 2);
      HexPair(b);
    }
  }

  lemma {:induction false} DecodeEncoded(s: seq<byte>, i: nat, t: seq<byte>, form: bool)
    requires At(t, i, Encode(s)) && i + |Encode(s)| == |t|
    ensures Decode(t, i, form) == s
    decreases |s|
  {
    hide At, EncodeByte, Decode, DecodeAt, Next;
    if s == [] {
      UnfoldDecode(t, i, form);
    } else {
      var e := EncodeByte(s[0]);
      AtConcat(t, i, e, Encode(s[1..]));
      DecodeEncodedByte(s[0], i, t, form);
      DecodeEncoded(s[1..], i + |e|, t, form);
      UnfoldDecode(t, i, form);
      assert [s[0]] + s[1..] == s;
    }
  }

  /** Whatever the string, also with escapes and plus signs in it, and in either mode,
      decoding the encoded string gives it back. */
  lemma DecodeEncode(s: cstring, form: bool)
    ensures Decode(Encode(s), 0, form) == s
  {
    assert Encode(s) == Encode(s)[0..0 + |Encode(s)|];
    DecodeEncoded(s, 0, Encode(s), form);
  }

  lemma {:induction false} EncodedAtLeast(s: seq<byte>)
    ensures |s| <= |Encode(s)|
  {
    if s == [] {
    } else {
      EncodedAtLeast(s[1..]);
    }
  }

  /** Three bytes for each byte of the string and one more are always enough to encode
      it, and what is then decoded in place is the string. */
  method EncodeDecodeInPlace(s: cstring, buffer: array<byte>, form: bool) returns (ret: int)
    requires 3 * |s| + 1 <= buffer.Length <= INT_MAX
    modifies buffer
    ensures ret == |s| && buffer[..ret] == s && buffer[ret] == 0
  {
    EncodeLength(s);
    EncodedAtLeast(s);
    DecodeEncode(s, form);
    hide Encode, Decode;
    assert ToInt(|Encode(s)|) == |Encode(s)|;
    hide ToInt;
    var n := UrlEncode(s, buffer);
    ret := UrlDecode(buffer, n, buffer, form);
  }

  /* ---- What the texts are, told from characters alone ---- */

  /** The characters that are not escaped. */
  predicate Safe(b: byte) {
    var c := b as char;
    '0' <= c <= '9' || 'a' <= c <= 'z' || 'A' <= c <= 'Z' || c in "._-$,;~()"
  }

  /** Wherever a byte stands in a string, it is encoded as itself if it is safe, and else as
      a percent sign and two digits. */
  lemma EncodedEach(a: seq<byte>, b: byte, c: seq<byte>)
    ensures Encode(a + [b] + c) ==
      Encode(a)
      + (if Safe(b) then [b] else [37, DIGITS[b / 16] as int, DIGITS[b % 16] as int])
      + Encode(c)
    ensures Encode([]) == []
  {
    EncodeConcat(a + [b], c);
    EncodeConcat(a, [b]);
    assert Unreserved(b) <==> Safe(b);
    DigitsRead(b / 16);
    DigitsRead(b % 16);
    assert Encode([b]) == EncodeByte(b) + Encode([]) == EncodeByte(b);
  }

  /** A part of an encoded text, and the byte it stands for: a character as itself, a plus
      sign for a blank in a form, an escape with digits in either case. */
  datatype Part = Part(text: seq<byte>, value: byte)

  predicate IsDigit(b: byte, n: nat) {
    n < 16 && (b as char == DIGITS[n] || b as char == CAPITAL_DIGITS[n])
  }

  predicate Stands(p: Part, form: bool) {
    || (p.text == [p.value] && p.value != 37 && !(form && p.value == 43))
    || (p.text == [43] && p.value == 32 && form)
    || (&& |p.text| == 3 && p.text[0] == 37
        && IsDigit(p.text[1], p.value / 16) && IsDigit(p.text[2], p.value % 16))
  }

  function Texts(ps: seq<Part>): seq<byte> {
    if ps == [] then [] else ps[0].text + Texts(ps[1..])
  }

  function Values(ps: seq<Part>): seq<byte> {
    if ps == [] then [] else [ps[0].value] + Values(ps[1..])
  }

  lemma {:induction false} DecodeBehind(a: seq<byte>, s: seq<byte>, i: nat, form: bool)
    ensures Decode(a + s, |a| + i, form) == Decode(s, i, form)
    decreases |s| - i
  {
    hide Decode;
    UnfoldDecode(a + s, |a| + i, form);
    UnfoldDecode(s, i, form);
    if i < |s| {
      assert Escaped(a + s, |a| + i) <==> Escaped(s, i);
      DecodeBehind(a, s, Next(s, i), form);
    }
  }

  lemma PartDecoded(p: Part, rest: seq<byte>, form: bool)
    requires Stands(p, form)
    ensures
      var s := p.text + rest;
      s != [] && DecodeAt(s, 0, form) == p.value && Next(s, 0) == |p.text|
  {
    DigitsRead(p.value / 16);
    DigitsRead(p.value % 16);
  }

  /** A text of such parts is decoded part by part, whatever stands behind it. */
  lemma {:induction false} DecodeParts(ps: seq<Part>, rest: seq<byte>, form: bool)
    requires forall k :: 0 <= k < |ps| ==> Stands(ps[k], form)
    ensures Decode(Texts(ps) + rest, 0, form) == Values(ps) + Decode(rest, 0, form)
  {
    hide Decode, DecodeAt, Next, Stands;
    if ps == [] {
      assert [] + rest == rest;
      assert [] + Decode(rest, 0, form) == Decode(rest, 0, form);
    } else {
      var (text, more) := (ps[0].text, Texts(ps[1..]) + rest);
      PartDecoded(ps[0], more, form);
      Regroup(text, Texts(ps[1..]), rest);
      UnfoldDecode(text + more, 0, form);
      DecodeBehind(text, more, 0, form);
      DecodeParts(ps[1..], rest, form);
      Regroup([ps[0].value], Values(ps[1..]), Decode(rest, 0, form));
    }
  }

  /** A percent sign that is not followed by two digits stands for itself. */
  lemma LonePercent(rest: seq<byte>, form: bool)
    requires |rest| < 2 || forall m, n :: !IsDigit(rest[0], m) || !IsDigit(rest[1], n)
    ensures Decode([37] + rest, 0, form) == [37] + Decode(rest, 0, form)
    ensures Decode([], 0, form) == []
  {
    if |rest| >= 2 && IsHex(rest[0]) && IsHex(rest[1]) {
      DigitsRead(HexOf(rest[0]));
      DigitsRead(HexOf(rest[1]));
      assert IsDigit(rest[0], HexOf(rest[0])) && IsDigit(rest[1], HexOf(rest[1]));
    }
    DecodeBehind([37], rest, 0, form);
    UnfoldDecode([37] + rest, 0, form);
  }
}
