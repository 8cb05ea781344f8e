/** Hexadecimal digits, and byte strings written in them. */
module Hex {
  import opened Bytes
  import opened Wrappers

  function HexDigit(n: nat): byte
    requires n < 16
  {
    if n < 10 then 48 + n else 87 + n
  }

  predicate IsHex(b: byte) {
    48 <= b <= 57 || 65 <= b <= 70 || 97 <= b <= 102
  }

  function HexOf(b: byte): (n: nat)
    requires IsHex(b)
    ensures n < 16
  {
    if b <= 57 then b - 48 else if b <= 70 then b - 55 else b - 87
  }

  function Pow16(k: nat): nat {
    if k == 0 then 1 else 16 * Pow16(k - 1)
  }

  /** The two digits of a byte stand for it. */
  lemma HexPair(b: byte)
    ensures IsHex(HexDigit(b / 16)) && IsHex(HexDigit(b % 16))
    ensures HexOf(HexDigit(b / 16)) * 16 + HexOf(HexDigit(b % 16)) == b
  {
  }

  function Lowercase(b: byte): byte {
    if 65 <= b <= 90 then b + 32 else b
  }

  const DIGITS: string := "0123456789abcdef"
  const CAPITAL_DIGITS: string := "0123456789ABCDEF"
  const LETTERS: string := "abcdefghijklmnopqrstuvwxyz"
  const CAPITALS: string := "ABCDEFGHIJKLMNOPQRSTUVWXYZ"

  /** Digits are written in lower case and read in either. */
  lemma DigitsRead(n: nat)
    requires n < 16
    ensures HexDigit(n) == DIGITS[n] as int
    ensures forall b: byte :: IsHex(b) && HexOf(b) == n <==> b as char == DIGITS[n] || b as char == CAPITAL_DIGITS[n]
  {
  }

  lemma CapitalsLowered(b: byte)
    ensures forall k :: 0 <= k < 26 && b as char == CAPITALS[k] ==> Lowercase(b) == LETTERS[k] as int
    ensures b as char !in CAPITALS ==> Lowercase(b) == b
  {
    if 65 <= b <= 90 {
      assert CAPITALS[b - 65] == b as char;
    }
  }

  /* ---- Byte strings ---- */

  function EncodeToString(b: seq<byte>): (s: seq<byte>)
    ensures |s| == 2 * |b|
  {
    if b == [] then [] else [HexDigit(b[0] / 16), HexDigit(b[0] % 16)] + EncodeToString(b[1..])
  }

  /** Digits of either case; none for an odd number of them or another character. */
  function DecodeString(s: seq<byte>): (b: Option<seq<byte>>)
    ensures b.Some? ==> 2 * |b.value| == |s|
  {
    if s == [] then Some([])
    else if |s| == 1 || !IsHex(s[0]) || !IsHex(s[1]) then None
    else
      match DecodeString(s[2..])
      case None => None
      case Some(rest) => Some([HexOf(s[0]) * 16 + HexOf(s[1])] + rest)
  }

  lemma {:induction false} DecodeEncodedString(b: seq<byte>)
    ensures DecodeString(EncodeToString(b)) == Some(b)
  {
    if b == [] {
    } else {
      HexPair(b[0]);
      DecodeEncodedString(b[1..]);
      assert EncodeToString(b)[2..] == EncodeToString(b[1..]);
      assert [b[0]] + b[1..] == b;
    }
  }

  /** Each byte is two digits, the high one first. */
  lemma {:induction false} EncodedAt(b: seq<byte>, k: nat)
    requires k < |b|
    ensures EncodeToString(b)[2 * k] == DIGITS[b[k] / 16] as int
    ensures EncodeToString(b)[2 * k + 1] == DIGITS[b[k] % 16] as int
  {
    hide HexDigit;
    if k == 0 {
      DigitsRead(b[0] / 16);
      DigitsRead(b[0] % 16);
    } else {
      EncodedAt(b[1..], k - 1);
      assert EncodeToString(b)[2..] == EncodeToString(b[1..]);
      assert EncodeToString(b)[2..][2 * (k - 1)] == EncodeToString(b)[2 * k];
      assert EncodeToString(b)[2..][2 * (k - 1) + 1] == EncodeToString(b)[2 * k + 1];
    }
  }
}
