/** The printer: a buffer that grows, or does not, and an offset that moves over it. */
module JsonPrint {
  import opened Bytes
  import opened Wrappers
  import opened Hex
  import opened JsonText

  /** How many bytes escaping adds to one character. */
  function EscapeCharacters(b: byte): nat {
    if b == QUOTE || b == BACKSLASH || b == 8 || b == 12 || b == 10 || b == 13 || b == 9 then 1
    else if b < 32 then 5
    else 0
  }

  function AllEscapeCharacters(s: seq<byte>): nat {
    if s == [] then 0 else AllEscapeCharacters(s[..|s| - 1]) + EscapeCharacters(s[|s| - 1])
  }

  lemma EscapedSnoc(a: seq<byte>, b: byte)
    ensures Escaped(a + [b]) == Escaped(a) + Escape(b)
  {
    EscapedConcat(a, [b]);
    assert Escaped([b]) == Escape(b) + Escaped([]);
  }

  lemma EscapedPrefix(s: seq<byte>, p: nat)
    requires p < |s|
    ensures Escaped(s[..p + 1]) == Escaped(s[..p]) + Escape(s[p])
    ensures |Escaped(s[..p])| + |Escape(s[p])| <= |Escaped(s)|
  {
    assert s[..p + 1] == s[..p] + [s[p]] && s == s[..p + 1] + s[p + 1..];
    EscapedSnoc(s[..p], s[p]);
    EscapedConcat(s[..p + 1], s[p + 1..]);
  }

  /** The counting pass of the printer foretells the length of what it writes. */
  lemma {:induction false} EscapedLength(s: seq<byte>)
    ensures |Escaped(s)| == |s| + AllEscapeCharacters(s)
    ensures AllEscapeCharacters(s) == 0 ==> Escaped(s) == s
  {
    if s == [] {
    } else {
      var a, b := s[..|s| - 1], s[|s| - 1];
      assert s == a + [b];
      EscapedSnoc(a, b);
      EscapedLength(a);
    }
  }

  lemma Associate(a: seq<byte>, b: seq<byte>, c: seq<byte>, d: seq<byte>)
    ensures a + b + c + d == a + (b + c + d)
  {
  }

  lemma UnfoldText(c: Libc, j: Json, fmt: bool, d: nat)
    ensures Text(c, j, fmt, d) ==
      match j
      case Null => NULL_TEXT
      case False => FALSE_TEXT
      case True => TRUE_TEXT
      case Number(x) => c.sprintf(x)
      case String(t) => Quoted(t)
      case Array(xs) => [LBRACKET] + ItemsText(c, xs, fmt, d + 1) + [RBRACKET]
      case Object(ms) => ObjectOpening(fmt) + MembersText(c, ms, fmt, d + 1) + ObjectClosing(fmt, d)
  {
  }

  lemma QuotedNoNul(t: cstring)
    ensures 0 !in Quoted(t)
  {
    EscapedNoNul(t);
  }

  class PrintBuffer {
    var buffer: array<byte>
    var offset: nat
    var depth: nat
    const noalloc: bool
    const format: bool
    const reallocate: bool
    const libc: Libc

    constructor (buffer: array<byte>, noalloc: bool, format: bool, reallocate: bool, libc: Libc)
      requires buffer.Length <= INT_MAX
      ensures Valid() && this.buffer == buffer && offset == depth == 0
      ensures this.noalloc == noalloc && this.format == format && this.libc == libc
    {
      this.buffer, this.offset, this.depth := buffer, 0, 0;
      this.noalloc, this.format, this.reallocate, this.libc := noalloc, format, reallocate, libc;
    }

    ghost predicate Valid()
      reads this`buffer, this`offset
    {
      buffer.Length <= INT_MAX && offset <= buffer.Length && (buffer.Length > 0 ==> offset < buffer.Length)
    }

    /** How long the buffer can become. */
    ghost function Capacity(): nat
      reads this`buffer
    {
      if noalloc then buffer.Length else INT_MAX
    }

    /** The buffer is the old one or a new one; a fixed buffer stays. */
    twostate predicate Grown()
      reads this`buffer, this`offset
    {
      && Valid()
      && (buffer == old(buffer) || fresh(buffer))
      && (noalloc ==> buffer == old(buffer))
    }

    /** Up to the offset the buffer holds exactly `text`. */
    ghost predicate Holds(text: seq<byte>)
      reads this`buffer, this`offset, buffer
    {
      offset == |text| <= buffer.Length && buffer[..offset] == text
    }

    /** The buffer holds `text` and a terminator behind it, and the offset is not before
        `start`. */
    ghost predicate Terminated(text: seq<byte>, start: nat)
      reads this`buffer, this`offset, buffer
    {
      && start <= offset <= |text| < buffer.Length
      && buffer[..|text|] == text
      && buffer[|text|] == 0
    }

    lemma FromEarlier(text: seq<byte>, start: nat, earlier: nat)
      requires Terminated(text, start) && earlier <= start
      ensures Terminated(text, earlier)
    {
    }

    /** Makes room for `needed` bytes and one more behind the offset. */
    method Ensure(needed: nat) returns (ok: bool)
      requires Valid()
      modifies this`buffer
      ensures Grown()
      ensures ok <==> offset + needed + 1 <= Capacity()
      ensures ok ==> offset + needed + 1 <= buffer.Length
      ensures buffer[..offset] == old(buffer[..offset])
    {
      if buffer.Length > 0 && offset >= buffer.Length {
        return false;
      }
      if needed > INT_MAX {
        return false;
      }
      var total := needed + offset + 1;
      if total <= buffer.Length {
        return true;
      }
      if noalloc {
        return false;
      }
      var newSize;
      if total > INT_MAX / 2 {
        if total <= INT_MAX {
          newSize := INT_MAX;
        } else {
          return false;
        }
      } else {
        newSize := total * 2;
      }
      var newBuffer := new byte[newSize];
      var keep := if reallocate || buffer.Length == 0 then buffer.Length else offset + 1;
      forall i | 0 <= i < keep {
        newBuffer[i] := buffer[i];
      }
      buffer := newBuffer;
      ok := true;
    }

    /** Stores `t` at the offset. */
    method Put(t: seq<byte>)
      requires offset + |t| <= buffer.Length
      modifies buffer
      ensures buffer[..offset + |t|] == old(buffer[..offset]) + t
    {
      forall i | 0 <= i < |t| {
        buffer[offset + i] := t[i];
      }
      assert buffer[..offset + |t|] == buffer[..offset] + buffer[offset..offset + |t|];
      assert buffer[offset..offset + |t|] == t;
    }

    /** Asks for `needed` bytes, stores `t` and moves the offset behind it. */
    method Emit(needed: nat, t: seq<byte>, ghost before: seq<byte>) returns (ok: bool)
      requires Valid() && Holds(before) && |t| <= needed
      modifies this`buffer, this`offset, buffer
      ensures Grown()
      ensures ok <==> |before| + needed + 1 <= old(Capacity())
      ensures ok ==> Holds(before + t)
    {
      ok := Ensure(needed);
      if ok {
        Put(t);
        offset := offset + |t|;
      }
    }

    /** Stores `t` and a terminator; the offset moves behind `t` or stays. */
    method EmitTerminated(t: seq<byte>, advance: bool, ghost before: seq<byte>) returns (ok: bool)
      requires Valid() && Holds(before)
      modifies this`buffer, this`offset, buffer
      ensures Grown()
      ensures ok <==> |before| + |t| + 2 <= old(Capacity())
      ensures ok ==> Terminated(before + t, |before|)
      ensures ok && advance ==> Holds(before + t)
    {
      ok := Ensure(|t| + 1);
      if ok {
        Put(t + [0]);
        assert buffer[..offset + |t|] == buffer[..offset + |t| + 1][..offset + |t|];
        assert buffer[offset + |t|] == buffer[..offset + |t| + 1][offset + |t|];
        if advance {
          offset := offset + |t|;
        }
      }
    }

    /** Moves the offset to the terminator. */
    method UpdateOffset(ghost text: seq<byte>, ghost start: nat)
      requires Valid() && Terminated(text, start) && 0 !in text[start..]
      modifies this`offset
      ensures Valid() && Holds(text)
    {
      assert forall k :: offset <= k < |text| ==> buffer[k] == text[start..][k - start];
      var length := 0;
      while buffer[offset + length] != 0
        invariant offset + length <= |text|
        decreases |text| - length
      {
        length := length + 1;
      }
      offset := offset + length;
    }

    method CountEscapes(input: cstring) returns (n: nat)
      ensures n == AllEscapeCharacters(input)
    {
      n := 0;
      var p := 0;
      while p < |input|
        invariant p <= |input| && n == AllEscapeCharacters(input[..p])
      {
        assert input[..p + 1][..p] == input[..p];
        n := n + EscapeCharacters(input[p]);
        p := p + 1;
      }
      assert input[..p] == input;
    }

    /** Writes one character; the `sprintf` of a code also writes a terminator behind it. */
    method PutEscape(b: byte, o: nat) returns (o': nat)
      requires b != 0 && o + |Escape(b)| < buffer.Length
      modifies buffer
      ensures o' == o + |Escape(b)|
      ensures buffer[..o'] == old(buffer[..o]) + Escape(b)
    {
      if b > 31 && b != QUOTE && b != BACKSLASH {
        buffer[o] := b;
        return o + 1;
      }
      buffer[o] := BACKSLASH;
      match b {
        case 92 => buffer[o + 1] := BACKSLASH;
        case 34 => buffer[o + 1] := QUOTE;
        case 8 => buffer[o + 1] := 98;
        case 12 => buffer[o + 1] := 102;
        case 10 => buffer[o + 1] := 110;
        case 13 => buffer[o + 1] := 114;
        case 9 => buffer[o + 1] := 116;
        case _ =>
          buffer[o + 1], buffer[o + 2], buffer[o + 3] := 117, 48, 48;
          buffer[o + 4], buffer[o + 5], buffer[o + 6] := HexDigit(b / 16), HexDigit(b % 16), 0;
          return o + 6;
      }
      o' := o + 2;
    }

    /** Writes the escaped characters behind the opening quote, one by one. */
    method PutEscaped(input: cstring) returns (o: nat)
      requires offset + |Escaped(input)| + 2 < buffer.Length
      modifies buffer
      ensures o == offset + 1 + |Escaped(input)|
      ensures buffer[..o] == old(buffer[..offset + 1]) + Escaped(input)
    {
      hide Escaped, Escape;
      ghost var before := buffer[..offset + 1];
      NothingEscaped();
      var p := 0;
      o := offset + 1;
      while p < |input|
        invariant p <= |input|
        invariant o == offset + 1 + |Escaped(input[..p])| <= offset + 1 + |Escaped(input)|
        invariant buffer[..o] == before + Escaped(input[..p])
      {
        EscapedPrefix(input, p);
        Regroup(before, Escaped(input[..p]), Escape(input[p]));
        o := PutEscape(input[p], o);
        p := p + 1;
      }
      assert input[..p] == input;
    }

    lemma NothingEscaped()
      ensures Escaped([]) == []
    {
    }

    method CloseQuote(end: nat)
      requires end + 1 < buffer.Length
      modifies buffer
      ensures buffer[..end + 1] == old(buffer[..end]) + [QUOTE] && buffer[end + 1] == 0
    {
      buffer[end] := QUOTE;
      buffer[end + 1] := 0;
    }

    /** Writes the opening quote and the body, in one piece if nothing has to be escaped. */
    method PutBody(input: cstring, plain: bool) returns (end: nat)
      requires offset + |Quoted(input)| < buffer.Length
      requires plain ==> Escaped(input) == input
      modifies buffer
      ensures end == offset + 1 + |Escaped(input)|
      ensures buffer[..end] == old(buffer[..offset]) + ([QUOTE] + Escaped(input))
    {
      hide Escaped;
      ghost var before := buffer[..offset];
      if plain {
        Put([QUOTE] + input);
        return offset + 1 + |input|;
      }
      Put([QUOTE]);
      end := PutEscaped(input);
      Regroup(before, [QUOTE], Escaped(input));
    }

    /** Writes a string. */
    method PutQuoted(input: cstring, plain: bool)
      requires offset + |Quoted(input)| < buffer.Length
      requires plain ==> Escaped(input) == input
      modifies buffer
      ensures buffer[..offset + |Quoted(input)|] == old(buffer[..offset]) + Quoted(input)
      ensures buffer[offset + |Quoted(input)|] == 0
    {
      hide Escaped;
      ghost var before := buffer[..offset];
      var end := PutBody(input, plain);
      Regroup(before, [QUOTE] + Escaped(input), [QUOTE]);
      CloseQuote(end);
    }

    method PrintString(input: cstring, ghost before: seq<byte>) returns (ok: bool)
      requires Valid() && Holds(before)
      modifies this`buffer, buffer
      ensures Grown()
      ensures ok <==> |before| + |Quoted(input)| + 2 <= old(Capacity())
      ensures ok ==> Terminated(before + Quoted(input), |before|)
    {
      var escapes := CountEscapes(input);
      var length := |input| + escapes;
      EscapedLength(input);
      ok := Ensure(length + 3);
      if ok {
        PutQuoted(input, escapes == 0);
      }
    }

    method PrintValue(j: Json, ghost before: seq<byte>) returns (ok: bool)
      requires Valid() && Holds(before)
      modifies this`buffer, this`offset, this`depth, buffer
      ensures Grown()
      ensures ok <==> |before| + |Text(libc, j, format, old(depth))| + 2 <= old(Capacity())
      ensures ok ==> Terminated(before + Text(libc, j, format, old(depth)), |before|) && depth == old(depth)
      decreases j, 1
    {
      UnfoldText(libc, j, format, depth);
      hide Text, Quoted, Grown, Terminated, Holds, Valid, Capacity;
      match j
      case Null => ok := EmitTerminated(NULL_TEXT, false, before);
      case False => ok := EmitTerminated(FALSE_TEXT, false, before);
      case True => ok := EmitTerminated(TRUE_TEXT, false, before);
      case Number(x) => ok := EmitTerminated(libc.sprintf(x), true, before);
      case String(t) => ok := PrintString(t, before);
      case Array(xs) => ok := PrintArray(xs, before);
      case Object(ms) => ok := PrintObject(ms, before);
    }

    /** Prints a value and moves the offset behind it. */
    method PrintAndAdvance(j: Json, ghost before: seq<byte>) returns (ok: bool)
      requires Valid() && Holds(before)
      modifies this`buffer, this`offset, this`depth, buffer
      ensures Grown()
      ensures ok <==> |before| + |Text(libc, j, format, old(depth))| + 2 <= old(Capacity())
      ensures ok ==> Holds(before + Text(libc, j, format, old(depth))) && depth == old(depth)
      decreases j, 2
    {
      hide Text;
      ghost var t := Text(libc, j, format, depth);
      ok := PrintValue(j, before);
      if ok {
        TextNoNul(libc, j, format, depth);
        assert (before + t)[|before|..] == t;
        UpdateOffset(before + t, |before|);
      }
    }

    /** An element and, if another one follows, the separator. */
    method PrintItem(x: Json, more: bool, ghost before: seq<byte>) returns (ok: bool)
      requires Valid() && Holds(before)
      modifies this`buffer, this`offset, this`depth, buffer
      ensures Grown()
      ensures ok <==> |before| + |ItemText(libc, x, format, old(depth), more)| + 2 <= old(Capacity())
      ensures ok ==> Holds(before + ItemText(libc, x, format, old(depth), more)) && depth == old(depth)
      decreases x, 3
    {
      hide Text;
      ghost var t := Text(libc, x, format, depth);
      ok := PrintAndAdvance(x, before);
      if ok && more {
        ok := EmitTerminated(ItemSeparator(format), true, before + t);
        assert before + t + ItemSeparator(format) == before + (t + ItemSeparator(format));
      }
      assert t + [] == t;
    }

    method PrintArray(items: seq<Json>, ghost before: seq<byte>) returns (ok: bool)
      requires Valid() && Holds(before)
      modifies this`buffer, this`offset, this`depth, buffer
      ensures Grown()
      ensures
        var t := [LBRACKET] + ItemsText(libc, items, format, old(depth) + 1) + [RBRACKET];
        && (ok <==> |before| + |t| + 2 <= old(Capacity()))
        && (ok ==> Terminated(before + t, |before|) && depth == old(depth))
      decreases items, 5
    {
      hide ItemsText, Holds, Terminated;
      ghost var all := ItemsText(libc, items, format, depth + 1);
      ok := Emit(1, [LBRACKET], before);
      if !ok {
        return;
      }
      depth := depth + 1;
      ok := PrintItems(items, before + [LBRACKET]);
      if !ok {
        return;
      }
      ok := EmitTerminated([RBRACKET], false, before + [LBRACKET] + all);
      depth := depth - 1;
      Associate(before, [LBRACKET], all, [RBRACKET]);
      if ok {
        FromEarlier(before + ([LBRACKET] + all + [RBRACKET]), |before + [LBRACKET] + all|, |before|);
      }
    }

    /** The loop over the elements. */
    method PrintItems(items: seq<Json>, ghost before: seq<byte>) returns (ok: bool)
      requires Valid() && Holds(before)
      modifies this`buffer, this`offset, this`depth, buffer
      ensures Grown()
      ensures |before| + |ItemsText(libc, items, format, old(depth))| + 2 <= old(Capacity()) ==> ok
      ensures ok ==> Holds(before + ItemsText(libc, items, format, old(depth))) && depth == old(depth)
      decreases items, 4
    {
      hide ItemText, ItemsText;
      ghost var done, d := before, depth;
      var i := 0;
      assert items[0..] == items;
      while i < |items|
        invariant Grown() && i <= |items| && depth == d && Holds(done)
        invariant done + ItemsText(libc, items[i..], format, d) == before + ItemsText(libc, items, format, d)
      {
        ghost var t := ItemText(libc, items[i], format, d, i + 1 < |items|);
        ItemsFrom(libc, items, i, format, d);
        Regroup(done, t, ItemsText(libc, items[i + 1..], format, d));
        ok := PrintItem(items[i], i + 1 < |items|, done);
        if !ok {
          return;
        }
        done := done + t;
        i := i + 1;
      }
      assert items[i..] == [];
      NothingText(libc, format, d);
      assert done + [] == done;
      ok := true;
    }

    /** The tabs, the name and the colon of a member. */
    method PrintName(key: cstring, ghost before: seq<byte>) returns (ok: bool)
      requires Valid() && Holds(before)
      modifies this`buffer, this`offset, buffer
      ensures Grown()
      ensures |before| + |MemberName(key, format, depth)| + 1 <= old(Capacity()) ==> ok
      ensures ok ==> Holds(before + MemberName(key, format, depth))
    {
      hide Quoted, Tabs;
      ghost var tabs: seq<byte>, t := [], Quoted(key);
      ok := true;
      if format {
        ok := Emit(depth, Tabs(depth), before);
        tabs := Tabs(depth);
      }
      if !ok {
        return;
      }
      assert before + [] == before;
      ok := PrintString(key, before + tabs);
      if !ok {
        return;
      }
      QuotedNoNul(key);
      assert (before + tabs + t)[|before + tabs|..] == t;
      UpdateOffset(before + tabs + t, |before + tabs|);
      var colon := if format then [COLON, TAB] else [COLON];
      ok := Emit(|colon|, colon, before + tabs + t);
      Associate(before, tabs, t, colon);
    }

    method PrintMember(m: Member, more: bool, ghost before: seq<byte>) returns (ok: bool)
      requires Valid() && Holds(before)
      modifies this`buffer, this`offset, this`depth, buffer
      ensures Grown()
      ensures ok <==> |before| + |MemberText(libc, m, format, old(depth), more)| + 2 <= old(Capacity())
      ensures ok ==> Holds(before + MemberText(libc, m, format, old(depth), more)) && depth == old(depth)
      decreases m, 3
    {
      hide Text, MemberName;
      ghost var name, t := MemberName(m.key, format, depth), Text(libc, m.value, format, depth);
      ok := PrintName(m.key, before);
      if !ok {
        return;
      }
      ok := PrintAndAdvance(m.value, before + name);
      if !ok {
        return;
      }
      var ending := MemberEnding(format, more);
      ok := EmitTerminated(ending, true, before + name + t);
      Associate(before, name, t, ending);
    }

    method PrintObject(members: seq<Member>, ghost before: seq<byte>) returns (ok: bool)
      requires Valid() && Holds(before)
      modifies this`buffer, this`offset, this`depth, buffer
      ensures Grown()
      ensures
        var t := ObjectOpening(format) + MembersText(libc, members, format, old(depth) + 1) +
                 ObjectClosing(format, old(depth));
        && (ok <==> |before| + |t| + 2 <= old(Capacity()))
        && (ok ==> Terminated(before + t, |before|) && depth == old(depth))
      decreases members, 5
    {
      hide MembersText, ObjectOpening, ObjectClosing, Holds, Terminated;
      ghost var all, closing := MembersText(libc, members, format, depth + 1), ObjectClosing(format, depth);
      var opening := ObjectOpening(format);
      BracesLength(depth);
      assert |opening + all + closing| == |opening| + |all| + |closing|;
      ok := Emit(|opening| + 1, opening, before);
      if !ok {
        return;
      }
      depth := depth + 1;
      ok := PrintMembers(members, before + opening);
      if !ok {
        return;
      }
      ok := EmitTerminated(ObjectClosing(format, depth - 1), false, before + opening + all);
      depth := depth - 1;
      Associate(before, opening, all, closing);
      if ok {
        FromEarlier(before + (opening + all + closing), |before + opening + all|, |before|);
      }
    }

    lemma BracesLength(d: nat)
      ensures |ObjectClosing(format, d)| > 0
    {
    }

    method PrintMembers(members: seq<Member>, ghost before: seq<byte>) returns (ok: bool)
      requires Valid() && Holds(before)
      modifies this`buffer, this`offset, this`depth, buffer
      ensures Grown()
      ensures |before| + |MembersText(libc, members, format, old(depth))| + 2 <= old(Capacity()) ==> ok
      ensures ok ==> Holds(before + MembersText(libc, members, format, old(depth))) && depth == old(depth)
      decreases members, 4
    {
      hide MemberText, MembersText;
      ghost var done, d := before, depth;
      var i := 0;
      assert members[0..] == members;
      while i < |members|
        invariant Grown() && i <= |members| && depth == d && Holds(done)
        invariant done + MembersText(libc, members[i..], format, d) == before + MembersText(libc, members, format, d)
      {
        ghost var t := MemberText(libc, members[i], format, d, i + 1 < |members|);
        MembersFrom(libc, members, i, format, d);
        Regroup(done, t, MembersText(libc, members[i + 1..], format, d));
        ok := PrintMember(members[i], i + 1 < |members|, done);
        if !ok {
          return;
        }
        done := done + t;
        i := i + 1;
      }
      assert members[i..] == [];
      NothingText(libc, format, d);
      assert done + [] == done;
      ok := true;
    }
  }

  const DEFAULT_BUFFER_SIZE: nat := 256

  /** The first `length` bytes of the buffer and a terminator. */
  method CopyOut(buffer: array<byte>, length: nat) returns (result: array<byte>)
    requires length <= buffer.Length
    ensures fresh(result) && result[..] == buffer[..length] + [0]
  {
    result := new byte[length + 1];
    var keep := Min(buffer.Length, length + 1);
    forall i | 0 <= i < keep {
      result[i] := buffer[i];
    }
    result[length] := 0;
  }

  /** Prints into a growing buffer and gives back an array of just the right size. */
  method Print(j: Json, fmt: bool, reallocate: bool, libc: Libc) returns (printed: Option<array<byte>>)
    ensures printed.Some? <==> |Printed(libc, j, fmt)| + 2 <= INT_MAX
    ensures printed.Some? ==> fresh(printed.value) && printed.value[..] == Printed(libc, j, fmt) + [0]
  {
    ghost var text := Printed(libc, j, fmt);
    var start := new byte[DEFAULT_BUFFER_SIZE];
    var p := new PrintBuffer(start, false, fmt, reallocate, libc);
    var ok := p.PrintValue(j, []);
    if !ok {
      return None;
    }
    assert [] + text == text && text[0..] == text;
    p.UpdateOffset(text, 0);
    var result := CopyOut(p.buffer, p.offset);
    printed := Some(result);
  }

  /** Prints into a growing buffer that starts with `prebuffer` bytes. */
  method PrintBuffered(j: Json, prebuffer: nat, fmt: bool, reallocate: bool, libc: Libc)
    returns (printed: Option<array<byte>>)
    requires prebuffer <= INT_MAX
    ensures printed.Some? <==> |Printed(libc, j, fmt)| + 2 <= INT_MAX
    ensures printed.Some? ==>
      && |Printed(libc, j, fmt)| < printed.value.Length
      && printed.value[..|Printed(libc, j, fmt)| + 1] == Printed(libc, j, fmt) + [0]
  {
    ghost var text := Printed(libc, j, fmt);
    var start := new byte[prebuffer];
    var p := new PrintBuffer(start, false, fmt, reallocate, libc);
    var ok := p.PrintValue(j, []);
    assert [] + text == text;
    printed := if ok then Some(p.buffer) else None;
  }

  /** Prints into the caller's buffer. Two bytes more than the text are enough and are
      needed; the documentation asks for five to be safe. */
  method PrintPreallocated(j: Json, buffer: array<byte>, fmt: bool, libc: Libc) returns (ok: bool)
    requires buffer.Length <= INT_MAX
    modifies buffer
    ensures ok <==> |Printed(libc, j, fmt)| + 2 <= buffer.Length
    ensures ok ==> buffer[..|Printed(libc, j, fmt)| + 1] == Printed(libc, j, fmt) + [0]
  {
    ghost var text := Printed(libc, j, fmt);
    var p := new PrintBuffer(buffer, true, fmt, false, libc);
    ok := p.PrintValue(j, []);
    assert [] + text == text;
  }
}
