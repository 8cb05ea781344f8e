/** The recursive-descent JSON parser: a pure account of what it accepts, and the parse
    buffer whose methods advance an offset and a nesting depth. */
module JsonParse {
  import opened Bytes
  import opened Wrappers
  import opened JsonText
  import opened JsonString
  import JsonLiteral
  const NESTING_LIMIT: nat := 1000

  /** The buffer of a C string: its terminator is the last byte. */
  predicate Terminated(s: seq<byte>) {
    |s| > 0 && s[|s| - 1] == 0
  }

  function PassBlanks(s: seq<byte>, i: nat): (k: nat)
    requires i <= |s|
    ensures i <= k <= |s| && (k < |s| ==> s[k] > 32)
    decreases |s| - i
  {
    if i < |s| && s[i] <= 32 then PassBlanks(s, i + 1) else i
  }

  /** The position after white space; the last one if white space goes on to the end. */
  function SkipBlanks(s: seq<byte>, i: nat): (k: nat)
    requires i <= |s| && |s| > 0
    ensures k < |s| && (i < |s| ==> i <= k)
  {
    var k := PassBlanks(s, i);
    if k == |s| then k - 1 else k
  }

  predicate NumberChar(b: byte) {
    48 <= b <= 57 || b == 43 || b == 45 || b == 101 || b == 69 || b == 46
  }

  /** How many of the next `room` bytes can belong to a number. */
  function NumberRun(s: seq<byte>, i: nat, room: nat): (n: nat)
    requires i <= |s|
    ensures n <= room && i + n <= |s|
    ensures n > 0 ==> NumberChar(s[i + n - 1])
    decreases room
  {
    if room > 0 && i < |s| && NumberChar(s[i]) then 1 + NumberRun(s, i + 1, room - 1) else 0
  }

  lemma {:induction false} RunIsNumber(s: seq<byte>, i: nat, room: nat, k: nat)
    requires i <= |s| && k < NumberRun(s, i, room)
    ensures NumberChar(s[i + k])
    decreases room
  {
    if k == 0 {
    } else {
      RunIsNumber(s, i + 1, room - 1, k - 1);
    }
  }

  const NUMBER_ROOM: nat := 63

  /** The number before the end of the buffer. */
  lemma RunEnds(s: seq<byte>, i: nat, room: nat)
    requires Terminated(s) && i < |s|
    ensures i + NumberRun(s, i, room) < |s|
  {
  }

  /** What the library reads is not longer than what it is given. */
  function ReadNumber(c: Libc, t: seq<byte>): (r: (int, nat))
    ensures r.1 <= |t|
  {
    c.strtod(t)
  }

  function NumberAt(c: Libc, s: seq<byte>, i: nat): (r: Option<(Json, nat)>)
    requires Terminated(s) && i < |s|
    ensures r.Some? ==> i < r.value.1 < |s|
  {
    var n := NumberRun(s, i, NUMBER_ROOM);
    hide NumberRun, IsLibc;
    RunEnds(s, i, NUMBER_ROOM);
    var (x, read) := ReadNumber(c, s[i..i + n]);
    if read == 0 then None else Some((Number(x), i + read))
  }

  lemma UnfoldNumber(c: Libc, s: seq<byte>, i: nat)
    requires Terminated(s) && i < |s| && NumberAt(c, s, i).Some?
    ensures
      var (n, (v, e)) := (NumberRun(s, i, NUMBER_ROOM), NumberAt(c, s, i).value);
      i < e <= i + n < |s| && n <= 63 && v.Number? && ReadNumber(c, s[i..i + n]) == (v.double, e - i)
  {
    RunEnds(s, i, NUMBER_ROOM);
    hide NumberRun, IsLibc;
  }

  /** All of the run has been read if what stands behind does not belong to a number. */
  lemma NumberReadWhole(c: Libc, s: seq<byte>, i: nat)
    requires Terminated(s) && i < |s| && NumberAt(c, s, i).Some? && !NumberChar(s[NumberAt(c, s, i).value.1])
    ensures NumberAt(c, s, i).value.1 == i + NumberRun(s, i, NUMBER_ROOM)
  {
    hide NumberRun, IsLibc, NumberAt, NumberChar;
    UnfoldNumber(c, s, i);
    var (n, e) := (NumberRun(s, i, NUMBER_ROOM), NumberAt(c, s, i).value.1);
    if e < i + n {
      RunIsNumber(s, i, NUMBER_ROOM, e - i);
    }
  }

  /** A byte buffer as a C string. */
  function UpToNul(s: seq<byte>): cstring {
    if s == [] || s[0] == 0 then [] else [s[0]] + UpToNul(s[1..])
  }

  /** It is the beginning of the buffer in front of its first NUL. */
  lemma {:induction false} UpToNulMeans(s: seq<byte>)
    ensures UpToNul(s) <= s && (UpToNul(s) == s || s[|UpToNul(s)|] == 0)
  {
    if s == [] || s[0] == 0 {
    } else {
      UpToNulMeans(s[1..]);
    }
  }

  /** The rest of an array: `before` has been read, the next element is at `p`. */
  function ItemsAt(c: Libc, s: seq<byte>, p: nat, d: nat, before: seq<Json>): (r: Option<(Json, nat)>)
    requires Terminated(s) && p < |s| && d <= NESTING_LIMIT
    ensures r.Some? ==> p < r.value.1 < |s|
    decreases NESTING_LIMIT - d, 3, |s| - p
  {
    var item := ItemAt(c, s, p, d);
    if item.None? then None
    else
      var (v, k) := item.value;
      if s[k] == COMMA then ItemsAt(c, s, k + 1, d, before + [v])
      else if s[k] == RBRACKET then Some((Array(before + [v]), k + 1))
      else None
  }

  function ArrayAt(c: Libc, s: seq<byte>, i: nat, d: nat): (r: Option<(Json, nat)>)
    requires Terminated(s) && i < |s| && d <= NESTING_LIMIT
    ensures r.Some? ==> i < r.value.1 < |s|
    decreases NESTING_LIMIT - d, 0, 0
  {
    if d >= NESTING_LIMIT || s[i] != LBRACKET then None
    else
      var k := SkipBlanks(s, i + 1);
      if s[k] == RBRACKET then Some((Array([]), k + 1)) else ItemsAt(c, s, k, d + 1, [])
  }

  function MembersAt(c: Libc, s: seq<byte>, p: nat, d: nat, before: seq<Member>): (r: Option<(Json, nat)>)
    requires Terminated(s) && p < |s| && d <= NESTING_LIMIT
    ensures r.Some? ==> p < r.value.1 < |s|
    decreases NESTING_LIMIT - d, 4, |s| - p
  {
    var member := MemberAt(c, s, p, d);
    if member.None? then None
    else
      var (m, k) := member.value;
      if s[k] == COMMA then MembersAt(c, s, k + 1, d, before + [m])
      else if s[k] == RBRACE then Some((Object(before + [m]), k + 1))
      else None
  }

  function ObjectAt(c: Libc, s: seq<byte>, i: nat, d: nat): (r: Option<(Json, nat)>)
    requires Terminated(s) && i < |s| && d <= NESTING_LIMIT
    ensures r.Some? ==> i < r.value.1 < |s|
    decreases NESTING_LIMIT - d, 0, 0
  {
    if d >= NESTING_LIMIT || s[i] != LBRACE then None
    else
      var k := SkipBlanks(s, i + 1);
      if s[k] == RBRACE then Some((Object([]), k + 1)) else MembersAt(c, s, k, d + 1, [])
  }

  function ValueAt(c: Libc, s: seq<byte>, i: nat, d: nat): (r: Option<(Json, nat)>)
    requires Terminated(s) && i < |s| && d <= NESTING_LIMIT
    ensures r.Some? ==> i < r.value.1 < |s|
    decreases NESTING_LIMIT - d, 1, 0
  {
    if At(s, i, NULL_TEXT) then Some((Null, i + 4))
    else if At(s, i, FALSE_TEXT) then Some((False, i + 5))
    else if At(s, i, TRUE_TEXT) then Some((True, i + 4))
    else if s[i] == QUOTE then
      var t := StringAt(s, i);
      if t.None? then None else Some((String(UpToNul(t.value.0)), t.value.1))
    else if s[i] == 45 || 48 <= s[i] <= 57 then NumberAt(c, s, i)
    else if s[i] == LBRACKET then ArrayAt(c, s, i, d)
    else if s[i] == LBRACE then ObjectAt(c, s, i, d)
    else None
  }

  /** One element and the white space around it. */
  function ItemAt(c: Libc, s: seq<byte>, p: nat, d: nat): (r: Option<(Json, nat)>)
    requires Terminated(s) && p < |s| && d <= NESTING_LIMIT
    ensures r.Some? ==> p < r.value.1 < |s|
    decreases NESTING_LIMIT - d, 2, 0
  {
    var item := ValueAt(c, s, SkipBlanks(s, p), d);
    if item.None? then None else Some((item.value.0, SkipBlanks(s, item.value.1)))
  }

  /** The name of a member with its colon: the name and the position after the colon. */
  function NameAt(s: seq<byte>, p: nat): (r: Option<(cstring, nat)>)
    requires Terminated(s) && p < |s|
    ensures r.Some? ==> p < r.value.1 < |s|
  {
    var name := StringAt(s, SkipBlanks(s, p));
    if name.None? then None
    else
      var k := SkipBlanks(s, name.value.1);
      if s[k] == COLON then Some((UpToNul(name.value.0), k + 1)) else None
  }

  function MemberAt(c: Libc, s: seq<byte>, p: nat, d: nat): (r: Option<(Member, nat)>)
    requires Terminated(s) && p < |s| && d <= NESTING_LIMIT
    ensures r.Some? ==> p < r.value.1 < |s|
    decreases NESTING_LIMIT - d, 3, 0
  {
    var name := NameAt(s, p);
    if name.None? then None
    else
      var value := ItemAt(c, s, name.value.1, d);
      if value.None? then None else Some((Member(name.value.0, value.value.0), value.value.1))
  }

  const BOM: seq<byte> := [0xEF, 0xBB, 0xBF]

  /** The value a document starts with, and where it ends. */
  function FirstValue(c: Libc, text: cstring): (r: Option<(Json, nat)>)
    ensures r.Some? ==> r.value.1 <= |text|
  {
    var s := text + [0];
    ValueAt(c, s, SkipBlanks(s, if 4 < |s| && At(s, 0, BOM) then 3 else 0), 0)
  }

  /** A whole document; `strict` refuses anything but white space after the value. */
  function Document(c: Libc, text: cstring, strict: bool): Option<Json>
  {
    var s, r := text + [0], FirstValue(c, text);
    if r.None? || (strict && s[SkipBlanks(s, r.value.1)] != 0) then None else Some(r.value.0)
  }

  lemma UnfoldDecode(s: seq<byte>, p: nat, end: nat, out: seq<byte>)
    requires end < |s|
    ensures Decode(s, p, end, out) ==
      if p >= end then Some(out)
      else
        var step := DecodeStep(s, p, end);
        if step.None? then None
        else Decode(s, p + step.value.read, end, out + step.value.written)
  {
  }

  /** The parse buffer. */
  class ParseBuffer {
    const content: seq<byte>
    const libc: Libc
    var offset: nat
    var depth: nat

    ghost predicate Valid()
      reads this
    {
      Terminated(content) && offset < |content| && depth <= NESTING_LIMIT
    }

    constructor (text: cstring, libc: Libc)
      ensures Valid() && content == text + [0] && offset == 0 && depth == 0 && this.libc == libc
    {
      this.content := text + [0];
      this.libc := libc;
      this.offset := 0;
      this.depth := 0;
    }

    /** The result `r` and the offset are those of `expected`, and the depth is `d`. */
    ghost predicate Gives<T>(r: Option<T>, expected: Option<(T, nat)>, d: nat)
      reads this
    {
      if expected.None? then r.None?
      else r == Some(expected.value.0) && offset == expected.value.1 && depth == d
    }

    method SkipWhitespace()
      requires |content| > 0 && offset <= |content|
      modifies this`offset
      ensures offset == SkipBlanks(content, old(offset))
    {
      while offset < |content| && content[offset] <= 32
        invariant offset <= |content|
        invariant PassBlanks(content, offset) == PassBlanks(content, old(offset))
      {
        offset := offset + 1;
      }
      if offset == |content| {
        offset := offset - 1;
      }
    }

    method ParseNumber() returns (r: Option<Json>)
      requires Valid()
      modifies this
      ensures Gives(r, NumberAt(libc, content, old(offset)), old(depth))
    {
      hide NumberRun, IsLibc;
      var i := CountNumberChars();
      var (x, read) := ReadNumber(libc, content[offset..offset + i]);
      if read == 0 {
        return None;
      }
      offset := offset + read;
      return Some(Number(x));
    }

    method CountNumberChars() returns (i: nat)
      requires offset < |content|
      ensures i == NumberRun(content, offset, NUMBER_ROOM)
    {
      i := 0;
      while i < NUMBER_ROOM && offset + i < |content| && NumberChar(content[offset + i])
        invariant i <= NUMBER_ROOM && offset + i <= |content|
        invariant NumberRun(content, offset, NUMBER_ROOM) == i + NumberRun(content, offset + i, NUMBER_ROOM - i)
      {
        i := i + 1;
      }
    }

    method ParseString() returns (r: Option<cstring>)
      requires Valid()
      modifies this
      ensures
        var literal := StringAt(content, old(offset));
        Gives(r, if literal.None? then None else Some((UpToNul(literal.value.0), literal.value.1)), old(depth))
    {
      ghost var i := offset;
      if content[offset] != QUOTE {
        return None;
      }
      var end, skipped := SizingPass();
      if end.None? {
        return None;
      }
      var allocation := end.value - offset - skipped;
      var output := new byte[allocation + 1];
      var start := offset + 1;
      var w := DecodingPass(start, end.value, output);
      if w.None? {
        return None;
      }
      LiteralFits(content, i);
      output[w.value] := 0;
      offset := end.value + 1;
      r := Some(UpToNul(output[..w.value]));
    }

    /** Finds the closing quote and counts the escapes before it. */
    method SizingPass() returns (end: Option<nat>, skipped: nat)
      requires offset < |content|
      ensures end == ClosingQuote(content, offset + 1)
      ensures end.Some? ==> end.value - offset - skipped == Reserved(content, offset, end.value)
    {
      ghost var quote := ClosingQuote(content, offset + 1);
      var p := offset + 1;
      skipped := 0;
      while p < |content| && content[p] != QUOTE
        invariant offset < p <= |content|
        invariant ClosingQuote(content, p) == quote
        invariant quote.Some? ==>
          Escapes(content, offset + 1, quote.value) == skipped + Escapes(content, p, quote.value)
        decreases |content| - p
      {
        if content[p] == BACKSLASH {
          if p + 1 >= |content| {
            return None, skipped;
          }
          skipped := skipped + 1;
          p := p + 1;
        }
        p := p + 1;
      }
      end := if p >= |content| then None else Some(p);
    }

    /** Decodes the literal between `start` and `end`; `output` has exactly the room that
        the sizing pass reserved, and a byte for the terminator. */
    method DecodingPass(start: nat, end: nat, output: array<byte>) returns (written: Option<nat>)
      requires 0 < start <= end < |content| && ClosingQuote(content, start) == Some(end)
      requires output.Length == Reserved(content, start - 1, end) + 1
      modifies this`offset, output
      ensures written.Some? <==> Decode(content, start, end, []).Some?
      ensures written.Some? ==>
        && written.value < output.Length
        && output[..written.value] == Decode(content, start, end, []).value
        && JsonLiteral.SpelledAs(content, start, end, output[..written.value])
    {
      ghost var i := start - 1;
      var p, w := start, 0;
      assert InBudgetAt(content, i, end, p, w, p);
      BudgetFits(content, i, end, p, w);
      hide DecodeStep, InBudget, Reserved, Decode, ClosingQuote, Escapes;
      while p < end
        invariant i < p <= end + 1 && 0 <= w < output.Length
        invariant InBudget(content, i, end, p, w)
        invariant Decode(content, start, end, []) == Decode(content, p, end, output[..w])
      {
        UnfoldDecode(content, p, end, output[..w]);
        BudgetGoesOn(content, i, end, p, w);
        var length;
        length, w := DecodeOne(p, end, output, w);
        if length == 0 {
          return None;
        }
        p := p + length;
      }
      UnfoldDecode(content, p, end, output[..w]);
      BudgetFits(content, i, end, p, w);
      written := Some(w);
      hide *;
      JsonLiteral.DecodedIsSpelled(content, start, end);
    }

    /** Decodes one character or escape; zero if it is malformed. */
    method DecodeOne(p: nat, end: nat, output: array<byte>, w: nat) returns (length: nat, w': nat)
      requires p < end < |content| && w < output.Length
      requires
        var step := DecodeStep(content, p, end);
        step.Some? ==> w + |step.value.written| < output.Length
      modifies this`offset, output
      ensures length == 0 <==> DecodeStep(content, p, end).None?
      ensures length > 0 ==>
        var step := DecodeStep(content, p, end).value;
        && length == step.read && w' == w + |step.written| < output.Length
        && output[..w'] == old(output[..w]) + step.written
    {
      if content[p] != BACKSLASH {
        output[w] := content[p];
        return 1, w + 1;
      }
      if content[p + 1] == 117 {
        length, w' := Utf16LiteralToUtf8(content, p, end, output, w);
      } else {
        var b := OneByteEscape(content[p + 1]);
        if b.Some? {
          output[w] := b.value;
          return 2, w + 1;
        }
        length, w' := 0, w;
      }
      if length == 0 {
        offset := p;
      }
    }

    method Accept(literal: seq<byte>) returns (ok: bool)
      requires offset < |content|
      modifies this`offset
      ensures ok <==> At(content, old(offset), literal)
      ensures offset == old(offset) + if ok then |literal| else 0
    {
      ok := offset + |literal| <= |content| && content[offset..offset + |literal|] == literal;
      if ok {
        offset := offset + |literal|;
      }
    }

    method ParseValue() returns (r: Option<Json>)
      requires Valid()
      modifies this
      ensures Gives(r, ValueAt(libc, content, old(offset), old(depth)), old(depth))
      decreases NESTING_LIMIT - depth, 1
    {
      var ok := Accept(NULL_TEXT);
      if ok {
        return Some(Null);
      }
      ok := Accept(FALSE_TEXT);
      if ok {
        return Some(False);
      }
      ok := Accept(TRUE_TEXT);
      if ok {
        return Some(True);
      }
      if content[offset] == QUOTE {
        var t := ParseString();
        r := if t.Some? then Some(String(t.value)) else None;
      } else if content[offset] == 45 || 48 <= content[offset] <= 57 {
        r := ParseNumber();
      } else if content[offset] == LBRACKET {
        r := ParseArray();
      } else if content[offset] == LBRACE {
        r := ParseObject();
      } else {
        r := None;
      }
    }

    method ParseArray() returns (r: Option<Json>)
      requires Valid()
      modifies this
      ensures Gives(r, ArrayAt(libc, content, old(offset), old(depth)), old(depth))
      decreases NESTING_LIMIT - depth, 0
    {
      if depth >= NESTING_LIMIT {
        return None;
      }
      depth := depth + 1;
      if content[offset] != LBRACKET {
        return None;
      }
      offset := offset + 1;
      SkipWhitespace();
      if content[offset] == RBRACKET {
        depth := depth - 1;
        offset := offset + 1;
        return Some(Array([]));
      }
      r := ParseItems();
      if r.Some? {
        depth := depth - 1;
      }
    }

    /** One element and the white space around it. */
    method ParseItem() returns (r: Option<Json>)
      requires Valid()
      modifies this
      ensures Gives(r, ItemAt(libc, content, old(offset), old(depth)), old(depth))
      decreases NESTING_LIMIT - depth, 2
    {
      SkipWhitespace();
      r := ParseValue();
      if r.Some? {
        SkipWhitespace();
      }
    }

    /** The elements from here on to the closing bracket, at least one. */
    method ParseItems() returns (r: Option<Json>)
      requires Valid()
      modifies this
      ensures Gives(r, ItemsAt(libc, content, old(offset), old(depth), []), old(depth))
      decreases NESTING_LIMIT - depth, 3
    {
      hide ItemAt;
      ghost var expected := ItemsAt(libc, content, offset, depth, []);
      var items := [];
      while true
        invariant Valid() && depth == old(depth)
        invariant expected == ItemsAt(libc, content, offset, depth, items)
        decreases |content| - offset
      {
        var item := ParseItem();
        if item.None? {
          return None;
        }
        items := items + [item.value];
        if content[offset] != COMMA {
          break;
        }
        offset := offset + 1;
      }
      if content[offset] != RBRACKET {
        return None;
      }
      offset := offset + 1;
      r := Some(Array(items));
    }

    method ParseName() returns (r: Option<cstring>)
      requires Valid()
      modifies this
      ensures Gives(r, NameAt(content, old(offset)), old(depth))
    {
      SkipWhitespace();
      r := ParseString();
      if r.Some? {
        SkipWhitespace();
        if content[offset] != COLON {
          return None;
        }
        offset := offset + 1;
      }
    }

    method ParseObject() returns (r: Option<Json>)
      requires Valid()
      modifies this
      ensures Gives(r, ObjectAt(libc, content, old(offset), old(depth)), old(depth))
      decreases NESTING_LIMIT - depth, 0
    {
      if depth >= NESTING_LIMIT {
        return None;
      }
      depth := depth + 1;
      if content[offset] != LBRACE {
        return None;
      }
      offset := offset + 1;
      SkipWhitespace();
      if content[offset] == RBRACE {
        depth := depth - 1;
        offset := offset + 1;
        return Some(Object([]));
      }
      r := ParseMembers();
      if r.Some? {
        depth := depth - 1;
      }
    }

    method ParseMember() returns (r: Option<Member>)
      requires Valid()
      modifies this
      ensures Gives(r, MemberAt(libc, content, old(offset), old(depth)), old(depth))
      decreases NESTING_LIMIT - depth, 3
    {
      var name := ParseName();
      if name.None? {
        return None;
      }
      var value := ParseItem();
      r := if value.None? then None else Some(Member(name.value, value.value));
    }

    /** The members from here on to the closing brace, at least one. */
    method ParseMembers() returns (r: Option<Json>)
      requires Valid()
      modifies this
      ensures Gives(r, MembersAt(libc, content, old(offset), old(depth), []), old(depth))
      decreases NESTING_LIMIT - depth, 4
    {
      hide MemberAt;
      ghost var expected := MembersAt(libc, content, offset, depth, []);
      var members := [];
      while true
        invariant Valid() && depth == old(depth)
        invariant expected == MembersAt(libc, content, offset, depth, members)
        decreases |content| - offset
      {
        var member := ParseMember();
        if member.None? {
          return None;
        }
        members := members + [member.value];
        if content[offset] != COMMA {
          break;
        }
        offset := offset + 1;
      }
      if content[offset] != RBRACE {
        return None;
      }
      offset := offset + 1;
      r := Some(Object(members));
    }
  }

  /** Parses a whole document, and says how far it was read. */
  method ParseWithOpts(text: cstring, libc: Libc, strict: bool) returns (r: Option<Json>, end: nat)
    ensures r == Document(libc, text, strict) && end <= |text|
    ensures
      var first := FirstValue(libc, text);
      first.Some? ==> end == if strict then SkipBlanks(text + [0], first.value.1) else first.value.1
  {
    var buffer := new ParseBuffer(text, libc);
    if 4 < |buffer.content| && buffer.content[0..3] == BOM {
      buffer.offset := 3;
    }
    buffer.SkipWhitespace();
    r := buffer.ParseValue();
    if r.Some? && strict {
      buffer.SkipWhitespace();
      if buffer.content[buffer.offset] != 0 {
        r := None;
      }
    }
    end := if buffer.offset < |buffer.content| then buffer.offset else |buffer.content| - 1;
  }
}
