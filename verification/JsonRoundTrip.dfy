/** Parsing undoes printing, exactly up to the nesting limit. */
module JsonRoundTrip {
  import opened Bytes
  import opened Wrappers
  import opened JsonText
  import opened JsonString
  import opened JsonParse

  /** The library reads back the number it printed: the printed bytes look like a
      number and `strtod` takes all of them. NaN and the infinities are not like that,
      they print as null. */
  predicate Readable(c: Libc, x: int) {
    var t := c.sprintf(x);
    && (t[0] == 45 || 48 <= t[0] <= 57)
    && (forall k :: 0 <= k < |t| ==> NumberChar(t[k]))
    && ReadNumber(c, t) == (x, |t|)
  }

  predicate ItemsReadable(c: Libc, xs: seq<Json>)
    decreases xs, 0
  {
    xs != [] ==> NumbersReadable(c, xs[0]) && ItemsReadable(c, xs[1..])
  }

  predicate MembersReadable(c: Libc, ms: seq<Member>)
    decreases ms, 0
  {
    ms != [] ==> NumbersReadable(c, ms[0].value) && MembersReadable(c, ms[1..])
  }

  predicate NumbersReadable(c: Libc, j: Json)
    decreases j, 1
  {
    match j
    case Number(x) => Readable(c, x)
    case Array(xs) => ItemsReadable(c, xs)
    case Object(ms) => MembersReadable(c, ms)
    case _ => true
  }

  /* ---- White space ---- */

  predicate Blank(t: seq<byte>) {
    forall k :: 0 <= k < |t| ==> t[k] <= 32
  }

  lemma {:induction false} SkipOver(s: seq<byte>, i: nat, blanks: seq<byte>)
    requires At(s, i, blanks) && Blank(blanks)
    requires i + |blanks| < |s| && (s[i + |blanks|] > 32 || i + |blanks| == |s| - 1)
    ensures SkipBlanks(s, i) == i + |blanks|
    decreases |blanks|
  {
    if blanks == [] {
    } else {
      AtIndex(s, i, blanks, 0);
      assert At(s, i + 1, blanks[1..]) by {
        assert blanks == blanks[..1] + blanks[1..];
        AtConcat(s, i, blanks[..1], blanks[1..]);
      }
      SkipOver(s, i + 1, blanks[1..]);
    }
  }

  /* ---- Strings ---- */

  lemma EscapeDecodes(s: seq<byte>, p: nat, b: byte, end: nat)
    requires b != 0 && At(s, p, Escape(b)) && p + |Escape(b)| <= end < |s|
    ensures DecodeStep(s, p, end) == Some(Step(|Escape(b)|, [b]))
    ensures ClosingQuote(s, p) == ClosingQuote(s, p + |Escape(b)|)
  {
    var t := Escape(b);
    AtIndex(s, p, t, 0);
    if |t| > 1 {
      AtIndex(s, p, t, 1);
    }
    if |t| == 6 {
      assert t == HexText4(b);
      HexText4Value(s, p, b);
      forall k | 2 <= k < 6 ensures s[p + k] == t[k] { AtIndex(s, p, t, k); }
      assert s[p + 2] == t[2] && s[p + 3] == t[3] && s[p + 4] == t[4] && s[p + 5] == t[5];
      assert ClosingQuote(s, p + 2) == ClosingQuote(s, p + 4);
      assert ClosingQuote(s, p + 4) == ClosingQuote(s, p + 6);
    }
  }

  /** The bytes that `Escaped` writes, back through the decoding pass. */
  lemma {:induction false} EscapedDecodes(s: seq<byte>, p: nat, t: cstring, end: nat, out: seq<byte>)
    requires At(s, p, Escaped(t)) && end == p + |Escaped(t)| < |s| && s[end] == QUOTE
    ensures ClosingQuote(s, p) == Some(end)
    ensures Decode(s, p, end, out) == Some(out + t)
    decreases |t|
  {
    hide At, DecodeStep, Escape;
    if t == [] {
      assert out + t == out;
    } else {
      var head, rest := Escape(t[0]), Escaped(t[1..]);
      AtConcat(s, p, head, rest);
      EscapeDecodes(s, p, t[0], end);
      EscapedDecodes(s, p + |head|, t[1..], end, out + [t[0]]);
      assert out + [t[0]] + t[1..] == out + t;
    }
  }

  lemma {:induction false} UpToNulOf(t: cstring)
    ensures UpToNul(t) == t
  {
    if t == [] {
    } else {
      UpToNulOf(t[1..]);
    }
  }

  lemma QuotedParses(s: seq<byte>, i: nat, t: cstring)
    requires At(s, i, Quoted(t))
    ensures StringAt(s, i) == Some((t, i + |Quoted(t)|)) && UpToNul(t) == t && s[i] == QUOTE
  {
    hide At, Escaped, Decode, ClosingQuote, UpToNul;
    AtConcat(s, i, [QUOTE] + Escaped(t), [QUOTE]);
    AtConcat(s, i, [QUOTE], Escaped(t));
    var end := i + 1 + |Escaped(t)|;
    AtIndex(s, i, [QUOTE], 0);
    AtIndex(s, end, [QUOTE], 0);
    EscapedDecodes(s, i + 1, t, end, []);
    UpToNulOf(t);
    assert [] + t == t;
  }

  /* ---- Values ---- */

  lemma {:induction false} NumberRunOf(s: seq<byte>, i: nat, t: seq<byte>, room: nat)
    requires At(s, i, t) && |t| <= room && (forall k :: 0 <= k < |t| ==> NumberChar(t[k]))
    requires i + |t| < |s| && !NumberChar(s[i + |t|])
    ensures NumberRun(s, i, room) == |t|
    decreases |t|
  {
    if t == [] {
    } else {
      AtIndex(s, i, t, 0);
      assert t == t[..1] + t[1..];
      AtConcat(s, i, t[..1], t[1..]);
      NumberRunOf(s, i + 1, t[1..], room - 1);
    }
  }

  /** What is read depends only on the bytes of the run. */
  lemma NumberIs(c: Libc, s: seq<byte>, i: nat, t: seq<byte>)
    requires Terminated(s) && i < |s| && At(s, i, t) && NumberRun(s, i, NUMBER_ROOM) == |t|
    ensures
      var read := ReadNumber(c, t);
      NumberAt(c, s, i) == if read.1 == 0 then None else Some((Number(read.0), i + read.1))
  {
    hide NumberRun, IsLibc;
    assert s[i..i + |t|] == t;
  }

  lemma NumberParses(c: Libc, x: int, s: seq<byte>, i: nat)
    requires Terminated(s) && Readable(c, x) && At(s, i, c.sprintf(x))
    requires i + |c.sprintf(x)| < |s| && !NumberChar(s[i + |c.sprintf(x)|])
    ensures NumberAt(c, s, i) == Some((Number(x), i + |c.sprintf(x)|))
  {
    hide NumberRun, NumberAt, At;
    NumberRunOf(s, i, c.sprintf(x), NUMBER_ROOM);
    NumberIs(c, s, i, c.sprintf(x));
  }

  /** A text starts with a printing character. */
  lemma TextStart(c: Libc, j: Json, fmt: bool, d: nat)
    requires NumbersReadable(c, j)
    ensures |Text(c, j, fmt, d)| > 0 && Text(c, j, fmt, d)[0] > 32
    ensures Text(c, j, fmt, d)[0] != 0xEF && Text(c, j, fmt, d)[0] != RBRACKET
  {
  }

  /** Any text on which the value parser stops right behind `j`. */
  ghost predicate Parses(c: Libc, j: Json, s: seq<byte>, i: nat, end: nat, d: nat)
    requires Terminated(s) && i < |s| && d <= NESTING_LIMIT
  {
    ValueAt(c, s, i, d) == if Height(j) + d <= NESTING_LIMIT then Some((j, end)) else None
  }

  /** The three literals start with n, f and t. */
  lemma NotALiteral(s: seq<byte>, i: nat)
    requires i < |s|
    ensures At(s, i, NULL_TEXT) ==> s[i] == 110
    ensures At(s, i, FALSE_TEXT) ==> s[i] == 102
    ensures At(s, i, TRUE_TEXT) ==> s[i] == 116
  {
    if At(s, i, NULL_TEXT) { AtIndex(s, i, NULL_TEXT, 0); }
    if At(s, i, FALSE_TEXT) { AtIndex(s, i, FALSE_TEXT, 0); }
    if At(s, i, TRUE_TEXT) { AtIndex(s, i, TRUE_TEXT, 0); }
  }

  lemma ArrayParts(c: Libc, xs: seq<Json>, fmt: bool, dp: nat, s: seq<byte>, i: nat)
    requires At(s, i, Text(c, Array(xs), fmt, dp))
    ensures
      var t := ItemsText(c, xs, fmt, dp + 1);
      && |Text(c, Array(xs), fmt, dp)| == |t| + 2 && i + |t| + 1 < |s|
      && s[i] == LBRACKET && At(s, i + 1, t) && At(s, i + 1 + |t|, [RBRACKET]) && s[i + 1 + |t|] == RBRACKET
  {
    hide At, ItemsText;
    var t := ItemsText(c, xs, fmt, dp + 1);
    AtConcat(s, i, [LBRACKET] + t, [RBRACKET]);
    AtConcat(s, i, [LBRACKET], t);
    AtIndex(s, i, [LBRACKET], 0);
    AtIndex(s, i + 1 + |t|, [RBRACKET], 0);
  }

  lemma EmptyAt(s: seq<byte>, p: nat)
    requires p <= |s|
    ensures At(s, p, [])
  {
  }

  /** The items after `before`, from a position `p` in front of the white space. */
  lemma {:induction false} ItemsParse(c: Libc, xs: seq<Json>, fmt: bool, dp: nat, s: seq<byte>,
                                      p: nat, q: nat, d: nat, before: seq<Json>)
    requires xs != [] && Terminated(s) && ItemsReadable(c, xs) && d <= NESTING_LIMIT
    requires p <= q < |s| && SkipBlanks(s, p) == q && At(s, q, ItemsText(c, xs, fmt, dp))
    requires At(s, q + |ItemsText(c, xs, fmt, dp)|, [RBRACKET])
    ensures ItemsAt(c, s, p, d, before) ==
      if ItemsHeight(xs) + d <= NESTING_LIMIT
      then Some((Array(before + xs), q + |ItemsText(c, xs, fmt, dp)| + 1)) else None
    decreases xs, 0
  {
    hide At, ItemAt, Text, SkipBlanks, NumbersReadable, Height, ItemsText, ItemSeparator, Ends;
    var x, rest := xs[0], xs[1..];
    ItemEnds(c, xs, fmt, dp, s, q);
    ItemParses(c, x, fmt, dp, s, p, q, d);
    if Height(x) + d <= NESTING_LIMIT {
      var end := q + |Text(c, x, fmt, dp)|;
      if rest == [] {
        assert before + [x] == before + xs;
      } else {
        ItemsParse(c, rest, fmt, dp, s, end + 1, end + |ItemSeparator(fmt)|, d, before + [x]);
        assert before + [x] + rest == before + xs;
      }
    }
  }

  lemma {:induction false} ArrayParses(c: Libc, xs: seq<Json>, fmt: bool, dp: nat, s: seq<byte>, i: nat, d: nat)
    requires Terminated(s) && ItemsReadable(c, xs) && d <= NESTING_LIMIT
    requires At(s, i, Text(c, Array(xs), fmt, dp))
    ensures i < |s| && ArrayAt(c, s, i, d) ==
      if 1 + ItemsHeight(xs) + d <= NESTING_LIMIT then Some((Array(xs), i + |Text(c, Array(xs), fmt, dp)|)) else None
    decreases xs, 1
  {
    hide At, ItemsAt, Text, SkipBlanks, NumbersReadable, Height;
    ArrayParts(c, xs, fmt, dp, s, i);
    EmptyAt(s, i + 1);
    if xs == [] {
      SkipOver(s, i + 1, []);
    } else if d < NESTING_LIMIT {
      ItemsStart(c, xs, fmt, dp + 1, s, i + 1);
      SkipOver(s, i + 1, []);
      ItemsParse(c, xs, fmt, dp + 1, s, i + 1, i + 1, d + 1, []);
      assert [] + xs == xs;
    }
  }

  lemma ClosingEnds(s: seq<byte>, p: nat, fmt: bool, dp: nat)
    requires At(s, p, ObjectClosing(fmt, dp))
    ensures Ends(s, p)
    ensures p + |ObjectClosing(fmt, dp)| <= |s|
    ensures s[p + |ObjectClosing(fmt, dp)| - 1] == RBRACE
    ensures SkipBlanks(s, p) == p + |ObjectClosing(fmt, dp)| - 1
  {
    ClosingAt(s, p, fmt, dp);
    AtIndex(s, p, ObjectClosing(fmt, dp), 0);
  }

  lemma {:induction false} LastMemberParses(
    c: Libc, ms: seq<Member>, fmt: bool, dp: nat, dc: nat, s: seq<byte>, p: nat, start: nat, d: nat,
    before: seq<Member>)
    requires |ms| == 1 && Terminated(s) && MembersReadable(c, ms) && d <= NESTING_LIMIT
    requires p < |s| && SkipBlanks(s, p) == start + if fmt then dp else 0
    requires At(s, start, MembersText(c, ms, fmt, dp))
    requires At(s, start + |MembersText(c, ms, fmt, dp)|, ObjectClosing(fmt, dc))
    ensures MembersAt(c, s, p, d, before) ==
      if MembersHeight(ms) + d <= NESTING_LIMIT
      then Some((Object(before + ms), start + |MembersText(c, ms, fmt, dp)| + |ObjectClosing(fmt, dc)|)) else None
    decreases ms, 0
  {
    hide At, MemberAt, MemberText, SkipBlanks, ObjectClosing, Height, NumbersReadable, Ends;
    var t := MemberText(c, ms[0], fmt, dp, false);
    assert MembersText(c, ms, fmt, dp) == t + [];
    assert t + [] == t;
    ClosingEnds(s, start + |t|, fmt, dc);
    MemberParses(c, ms[0], fmt, dp, false, s, p, start, d);
    assert before + [ms[0]] == before + ms;
  }

  lemma {:induction false} MembersParse(c: Libc, ms: seq<Member>, fmt: bool, dp: nat, dc: nat, s: seq<byte>,
                                        p: nat, start: nat, d: nat, before: seq<Member>)
    requires ms != [] && Terminated(s) && MembersReadable(c, ms) && d <= NESTING_LIMIT
    requires p < |s| && SkipBlanks(s, p) == start + if fmt then dp else 0
    requires At(s, start, MembersText(c, ms, fmt, dp))
    requires At(s, start + |MembersText(c, ms, fmt, dp)|, ObjectClosing(fmt, dc))
    ensures MembersAt(c, s, p, d, before) ==
      if MembersHeight(ms) + d <= NESTING_LIMIT
      then Some((Object(before + ms), start + |MembersText(c, ms, fmt, dp)| + |ObjectClosing(fmt, dc)|)) else None
    decreases ms, 1
  {
    hide At, MemberAt, MemberText, SkipBlanks, ObjectClosing, Height, NumbersReadable, Ends;
    var m, rest := ms[0], ms[1..];
    var t := MemberText(c, m, fmt, dp, |ms| > 1);
    AtConcat(s, start, t, MembersText(c, rest, fmt, dp));
    if rest == [] {
      LastMemberParses(c, ms, fmt, dp, dc, s, p, start, d, before);
    } else {
      MemberParses(c, m, fmt, dp, true, s, p, start, d);
      if Height(m.value) + d <= NESTING_LIMIT {
        var end := start + |t|;
        var comma := end - if fmt then 2 else 1;
        NextName(c, rest, fmt, dp, s, comma);
        MembersParse(c, rest, fmt, dp, dc, s, comma + 1, end, d, before + [m]);
        hide MembersText, MembersHeight;
        assert before + [m] + rest == before + ms;
      }
    }
  }

  lemma EmptyObjectParses(c: Libc, fmt: bool, dp: nat, s: seq<byte>, i: nat, d: nat)
    requires Terminated(s) && d <= NESTING_LIMIT && At(s, i, Text(c, Object([]), fmt, dp))
    ensures i < |s| && ObjectAt(c, s, i, d) ==
      if 1 + d <= NESTING_LIMIT then Some((Object([]), i + |Text(c, Object([]), fmt, dp)|)) else None
  {
    hide At, MembersAt, Text, ObjectClosing, ObjectOpening, MembersText, SkipBlanks;
    EmptyObjectStart(c, fmt, dp, s, i);
  }

  lemma {:induction false} ObjectParses(c: Libc, ms: seq<Member>, fmt: bool, dp: nat, s: seq<byte>, i: nat, d: nat)
    requires Terminated(s) && MembersReadable(c, ms) && d <= NESTING_LIMIT
    requires At(s, i, Text(c, Object(ms), fmt, dp))
    ensures i < |s| && ObjectAt(c, s, i, d) ==
      if 1 + MembersHeight(ms) + d <= NESTING_LIMIT
      then Some((Object(ms), i + |Text(c, Object(ms), fmt, dp)|)) else None
    decreases ms, 2
  {
    hide At, MembersAt, Text, ObjectClosing, ObjectOpening, MembersText, SkipBlanks, NumbersReadable, Height;
    if ms == [] {
      EmptyObjectParses(c, fmt, dp, s, i, d);
    } else {
      hide MembersReadable, MembersHeight;
      ObjectParts(c, ms, fmt, dp, s, i);
      ObjectStart(c, ms, fmt, dp, s, i);
      if d < NESTING_LIMIT {
        MembersParse(c, ms, fmt, dp + 1, dp, s, SkipBlanks(s, i + 1), i + |ObjectOpening(fmt)|, d + 1, []);
        assert [] + ms == ms;
      }
    }
  }

  /** The value parser reads the text of a tree back, and refuses it if it nests deeper
      than the limit allows. */
  lemma {:induction false} ReadableTextParses(c: Libc, j: Json, fmt: bool, dp: nat, s: seq<byte>, i: nat, d: nat)
    requires Terminated(s) && NumbersReadable(c, j) && d <= NESTING_LIMIT
    requires At(s, i, Text(c, j, fmt, dp))
    requires i + |Text(c, j, fmt, dp)| < |s| && !NumberChar(s[i + |Text(c, j, fmt, dp)|])
    ensures i < |s| && Parses(c, j, s, i, i + |Text(c, j, fmt, dp)|, d)
    decreases j, 1
  {
    hide At, ItemsText, MembersText, ArrayAt, ObjectAt, Quoted, StringAt, NumberAt;
    var t := Text(c, j, fmt, dp);
    TextStart(c, j, fmt, dp);
    AtIndex(s, i, t, 0);
    NotALiteral(s, i);
    match j
    case Null =>
    case False =>
    case True =>
    case Number(x) =>
      NumberParses(c, x, s, i);
    case String(x) =>
      QuotedParses(s, i, x);
    case Array(xs) => ArrayParses(c, xs, fmt, dp, s, i, d);
    case Object(ms) => ObjectParses(c, ms, fmt, dp, s, i, d);
  }

  lemma ItemsStart(c: Libc, xs: seq<Json>, fmt: bool, dp: nat, s: seq<byte>, p: nat)
    requires xs != [] && ItemsReadable(c, xs) && At(s, p, ItemsText(c, xs, fmt, dp))
    ensures
      var t, separator := Text(c, xs[0], fmt, dp), if |xs| > 1 then ItemSeparator(fmt) else [];
      && At(s, p, t)
      && At(s, p + |t|, separator)
      && At(s, p + |t| + |separator|, ItemsText(c, xs[1..], fmt, dp))
      && |ItemsText(c, xs, fmt, dp)| == |t| + |separator| + |ItemsText(c, xs[1..], fmt, dp)|
    ensures p < |s| && s[p] > 32 && s[p] != RBRACKET
  {
    hide At, Text;
    var t, separator := Text(c, xs[0], fmt, dp), if |xs| > 1 then ItemSeparator(fmt) else [];
    AtConcat(s, p, t + separator, ItemsText(c, xs[1..], fmt, dp));
    AtConcat(s, p, t, separator);
    TextStart(c, xs[0], fmt, dp);
    AtIndex(s, p, t, 0);
  }

  /** What stands at `e` ends a value. */
  predicate Ends(s: seq<byte>, e: nat) {
    e < |s| && !NumberChar(s[e])
  }

  /** One element of an array or value of an object, from a position `p` in front of the
      white space. */
  lemma {:induction false} ItemParses(c: Libc, x: Json, fmt: bool, dp: nat, s: seq<byte>, p: nat, q: nat, d: nat)
    requires Terminated(s) && NumbersReadable(c, x) && d <= NESTING_LIMIT
    requires p < |s| && SkipBlanks(s, p) == q && At(s, q, Text(c, x, fmt, dp))
    requires Ends(s, q + |Text(c, x, fmt, dp)|)
    ensures ItemAt(c, s, p, d) ==
      if Height(x) + d <= NESTING_LIMIT then Some((x, SkipBlanks(s, q + |Text(c, x, fmt, dp)|))) else None
    decreases x, 2
  {
    hide At, ValueAt, Text, SkipBlanks, Height, NumberChar;
    ReadableTextParses(c, x, fmt, dp, s, q, d);
  }

  lemma EmptyItems(c: Libc, fmt: bool, dp: nat)
    ensures ItemsText(c, [], fmt, dp) == []
  {
  }

  lemma UnfoldItemsReadable(c: Libc, xs: seq<Json>)
    requires xs != [] && ItemsReadable(c, xs)
    ensures NumbersReadable(c, xs[0]) && ItemsReadable(c, xs[1..])
  {
  }

  lemma CommaAt(s: seq<byte>, end: nat, fmt: bool)
    requires Terminated(s) && At(s, end, ItemSeparator(fmt))
    requires var next := end + |ItemSeparator(fmt)|; next < |s| && s[next] > 32
    ensures end < |s| && Ends(s, end) && SkipBlanks(s, end) == end && s[end] == COMMA
    ensures end + 1 <= end + |ItemSeparator(fmt)| && SkipBlanks(s, end + 1) == end + |ItemSeparator(fmt)|
  {
    hide At, SkipBlanks;
    var separator, blanks := ItemSeparator(fmt), if fmt then [SPACE] else [];
    assert separator == [COMMA] + blanks;
    AtIndex(s, end, separator, 0);
    AtConcat(s, end, [COMMA], blanks);
    SkipOver(s, end + 1, blanks);
    EmptyAt(s, end);
    SkipOver(s, end, []);
  }

  lemma ItemThenComma(c: Libc, xs: seq<Json>, fmt: bool, dp: nat, s: seq<byte>, q: nat)
    requires |xs| > 1 && Terminated(s) && ItemsReadable(c, xs) && At(s, q, ItemsText(c, xs, fmt, dp))
    ensures
      var end := q + |Text(c, xs[0], fmt, dp)|;
      var next := end + |ItemSeparator(fmt)|;
      && At(s, q, Text(c, xs[0], fmt, dp))
      && Ends(s, end) && SkipBlanks(s, end) == end && s[end] == COMMA
      && end + 1 <= next < |s| && SkipBlanks(s, end + 1) == next && At(s, next, ItemsText(c, xs[1..], fmt, dp))
      && q + |ItemsText(c, xs, fmt, dp)| == next + |ItemsText(c, xs[1..], fmt, dp)|
  {
    hide At, Text, SkipBlanks, NumbersReadable, ItemsText, ItemSeparator, Ends, ItemsReadable;
    UnfoldItemsReadable(c, xs);
    ItemsStart(c, xs, fmt, dp, s, q);
    var end := q + |Text(c, xs[0], fmt, dp)|;
    var next := end + |ItemSeparator(fmt)|;
    ItemsStart(c, xs[1..], fmt, dp, s, next);
    CommaAt(s, end, fmt);
  }

  lemma ItemThenBracket(c: Libc, xs: seq<Json>, fmt: bool, dp: nat, s: seq<byte>, q: nat)
    requires |xs| == 1 && Terminated(s) && ItemsReadable(c, xs) && At(s, q, ItemsText(c, xs, fmt, dp))
    requires At(s, q + |ItemsText(c, xs, fmt, dp)|, [RBRACKET])
    ensures
      var end := q + |Text(c, xs[0], fmt, dp)|;
      && At(s, q, Text(c, xs[0], fmt, dp))
      && Ends(s, end) && SkipBlanks(s, end) == end && s[end] == RBRACKET
      && |ItemsText(c, xs, fmt, dp)| == |Text(c, xs[0], fmt, dp)|
  {
    hide At, Text, SkipBlanks, NumbersReadable, ItemsText;
    EmptyItems(c, fmt, dp);
    ItemsStart(c, xs, fmt, dp, s, q);
    var end := q + |Text(c, xs[0], fmt, dp)|;
    AtIndex(s, end, [RBRACKET], 0);
    EmptyAt(s, end);
    SkipOver(s, end, []);
  }

  /** Behind an element: its end, and where the parser goes on. */
  lemma ItemEnds(c: Libc, xs: seq<Json>, fmt: bool, dp: nat, s: seq<byte>, q: nat)
    requires xs != [] && Terminated(s) && ItemsReadable(c, xs) && At(s, q, ItemsText(c, xs, fmt, dp))
    requires At(s, q + |ItemsText(c, xs, fmt, dp)|, [RBRACKET])
    ensures
      var end := q + |Text(c, xs[0], fmt, dp)|;
      && At(s, q, Text(c, xs[0], fmt, dp))
      && Ends(s, end) && SkipBlanks(s, end) == end && s[end] == (if |xs| > 1 then COMMA else RBRACKET)
      && (|xs| == 1 ==> |ItemsText(c, xs, fmt, dp)| == |Text(c, xs[0], fmt, dp)|)
      && (|xs| > 1 ==>
        var next := end + |ItemSeparator(fmt)|;
        && end + 1 <= next < |s| && SkipBlanks(s, end + 1) == next && At(s, next, ItemsText(c, xs[1..], fmt, dp))
        && q + |ItemsText(c, xs, fmt, dp)| == next + |ItemsText(c, xs[1..], fmt, dp)|)
  {
    hide At, Text, SkipBlanks, NumbersReadable, ItemsText, ItemSeparator, Ends;
    if |xs| > 1 {
      ItemThenComma(c, xs, fmt, dp, s, q);
    } else {
      ItemThenBracket(c, xs, fmt, dp, s, q);
    }
  }

  lemma ObjectParts(c: Libc, ms: seq<Member>, fmt: bool, dp: nat, s: seq<byte>, i: nat)
    requires At(s, i, Text(c, Object(ms), fmt, dp))
    ensures
      var p, t := i + |ObjectOpening(fmt)|, MembersText(c, ms, fmt, dp + 1);
      && i < |s| && s[i] == LBRACE
      && At(s, i + 1, if fmt then [LF] else [])
      && At(s, p, t)
      && At(s, p + |t|, ObjectClosing(fmt, dp))
      && |Text(c, Object(ms), fmt, dp)| == |ObjectOpening(fmt)| + |t| + |ObjectClosing(fmt, dp)|
  {
    hide At, MembersText, ObjectClosing;
    var opening, t, closing := ObjectOpening(fmt), MembersText(c, ms, fmt, dp + 1), ObjectClosing(fmt, dp);
    AtConcat(s, i, opening + t, closing);
    AtConcat(s, i, opening, t);
    var blanks := if fmt then [LF] else [];
    assert opening == [LBRACE] + blanks;
    AtConcat(s, i, [LBRACE], blanks);
    AtIndex(s, i, [LBRACE], 0);
  }

  /** The closing of an object is white space and a brace. */
  lemma ClosingAt(s: seq<byte>, p: nat, fmt: bool, dp: nat)
    requires At(s, p, ObjectClosing(fmt, dp))
    ensures p + |ObjectClosing(fmt, dp)| <= |s|
    ensures At(s, p, if fmt then Tabs(dp) else [])
    ensures |ObjectClosing(fmt, dp)| == if fmt then dp + 1 else 1
    ensures s[p + |ObjectClosing(fmt, dp)| - 1] == RBRACE
    ensures SkipBlanks(s, p) == p + |ObjectClosing(fmt, dp)| - 1
  {
    var tabs := if fmt then Tabs(dp) else [];
    OnlyTabs(dp);
    AtConcat(s, p, tabs, [RBRACE]);
    AtIndex(s, p + |tabs|, [RBRACE], 0);
    SkipOver(s, p, tabs);
  }

  /** Behind the opening brace of an empty object: the tabs of the closing brace. */
  lemma EmptyObjectStart(c: Libc, fmt: bool, dp: nat, s: seq<byte>, i: nat)
    requires At(s, i, Text(c, Object([]), fmt, dp))
    ensures i + 1 < |s| && s[i] == LBRACE
    ensures SkipBlanks(s, i + 1) == i + |Text(c, Object([]), fmt, dp)| - 1 && s[SkipBlanks(s, i + 1)] == RBRACE
  {
    hide At, Text, ObjectClosing, SkipBlanks, Tabs;
    ObjectParts(c, [], fmt, dp, s, i);
    assert MembersText(c, [], fmt, dp + 1) == [];
    var p, blanks, tabs := i + |ObjectOpening(fmt)|, if fmt then [LF] else [], if fmt then Tabs(dp) else [];
    ClosingAt(s, p, fmt, dp);
    OnlyTabs(dp);
    AtConcat(s, i + 1, blanks, tabs);
    SkipOver(s, i + 1, blanks + tabs);
  }

  /** Members start with the tabs and the quote of the first name. */
  lemma NameStart(c: Libc, ms: seq<Member>, fmt: bool, dp: nat, s: seq<byte>, p: nat)
    requires ms != [] && At(s, p, MembersText(c, ms, fmt, dp))
    ensures
      var tabs := if fmt then Tabs(dp) else [];
      At(s, p, tabs) && p + |tabs| < |s| && s[p + |tabs|] == QUOTE
  {
    hide At, MemberText;
    AtConcat(s, p, MemberText(c, ms[0], fmt, dp, |ms| > 1), MembersText(c, ms[1..], fmt, dp));
    MemberParts(c, ms[0], fmt, dp, |ms| > 1, s, p);
  }

  /** Behind the opening brace of an object with members: the tabs of the first name. */
  lemma ObjectStart(c: Libc, ms: seq<Member>, fmt: bool, dp: nat, s: seq<byte>, i: nat)
    requires ms != [] && At(s, i, Text(c, Object(ms), fmt, dp))
    ensures
      var p := i + |ObjectOpening(fmt)|;
      && i + 1 < |s| && s[i] == LBRACE
      && SkipBlanks(s, i + 1) == p + (if fmt then dp + 1 else 0)
      && s[SkipBlanks(s, i + 1)] == QUOTE
      && SkipBlanks(s, SkipBlanks(s, i + 1)) == SkipBlanks(s, i + 1)
  {
    hide At, Text, ObjectClosing, SkipBlanks, Tabs, MembersText;
    ObjectParts(c, ms, fmt, dp, s, i);
    var p, blanks, tabs := i + |ObjectOpening(fmt)|, if fmt then [LF] else [], if fmt then Tabs(dp + 1) else [];
    NameStart(c, ms, fmt, dp + 1, s, p);
    OnlyTabs(dp + 1);
    AtConcat(s, i + 1, blanks, tabs);
    SkipOver(s, i + 1, blanks + tabs);
    EmptyAt(s, p + |tabs|);
    SkipOver(s, p + |tabs|, []);
  }

  lemma MemberParts(c: Libc, m: Member, fmt: bool, dp: nat, more: bool, s: seq<byte>, start: nat)
    requires At(s, start, MemberText(c, m, fmt, dp, more))
    ensures
      var tabs := if fmt then Tabs(dp) else [];
      var q := start + |tabs|;
      var k := q + |Quoted(m.key)|;
      var v := k + if fmt then 2 else 1;
      var end := v + |Text(c, m.value, fmt, dp)|;
      && At(s, start, tabs)
      && At(s, q, Quoted(m.key)) && q < |s| && s[q] == QUOTE
      && k < |s| && s[k] == COLON && At(s, k + 1, if fmt then [TAB] else [])
      && At(s, v, Text(c, m.value, fmt, dp))
      && At(s, end, MemberEnding(fmt, more))
      && end + |MemberEnding(fmt, more)| == start + |MemberText(c, m, fmt, dp, more)|
  {
    hide At, Text, Tabs, Escaped, MemberEnding;
    var tabs, colon := if fmt then Tabs(dp) else [], if fmt then [COLON, TAB] else [COLON];
    var name, value, ending := MemberName(m.key, fmt, dp), Text(c, m.value, fmt, dp), MemberEnding(fmt, more);
    AtConcat(s, start, name + value, ending);
    AtConcat(s, start, name, value);
    AtConcat(s, start, tabs + Quoted(m.key), colon);
    AtConcat(s, start, tabs, Quoted(m.key));
    var q := start + |tabs|;
    AtIndex(s, q, Quoted(m.key), 0);
    var blanks := if fmt then [TAB] else [];
    assert colon == [COLON] + blanks;
    AtConcat(s, q + |Quoted(m.key)|, [COLON], blanks);
    AtIndex(s, q + |Quoted(m.key)|, [COLON], 0);
  }

  lemma NameParses(c: Libc, m: Member, fmt: bool, dp: nat, more: bool, s: seq<byte>, p: nat, start: nat)
    requires Terminated(s) && At(s, start, MemberText(c, m, fmt, dp, more)) && p < |s|
    requires SkipBlanks(s, p) == start + if fmt then dp else 0
    ensures NameAt(s, p) == Some((m.key, start + (if fmt then dp else 0) + |Quoted(m.key)| + 1))
  {
    hide At, Text, Quoted, StringAt, SkipBlanks, MemberText, MemberEnding, Tabs, UpToNul;
    MemberParts(c, m, fmt, dp, more, s, start);
    var q := start + if fmt then dp else 0;
    QuotedParses(s, q, m.key);
    EmptyAt(s, q + |Quoted(m.key)|);
    SkipOver(s, q + |Quoted(m.key)|, []);
  }

  /** After the value of a member stands the comma, if any, and a line feed, if any. */
  lemma EndingAt(s: seq<byte>, end: nat, fmt: bool, more: bool)
    requires At(s, end, MemberEnding(fmt, more)) && Terminated(s)
    requires more || Ends(s, end + |MemberEnding(fmt, more)|)
    ensures end < |s| && !NumberChar(s[end])
    ensures |MemberEnding(fmt, more)| == (if more then 1 else 0) + (if fmt then 1 else 0)
    ensures SkipBlanks(s, end) ==
      if more then end else SkipBlanks(s, end + |MemberEnding(fmt, more)|)
    ensures more ==> s[end] == COMMA && At(s, end + 1, if fmt then [LF] else [])
  {
    hide At;
    var lf := if fmt then [LF] else [];
    if more {
      AtConcat(s, end, [COMMA], lf);
      AtIndex(s, end, [COMMA], 0);
      EmptyAt(s, end);
      SkipOver(s, end, []);
    } else if fmt {
      assert MemberEnding(fmt, more) == [LF];
      AtIndex(s, end, [LF], 0);
    }
  }

  /** The member parser, from a position `p` in front of the name's tabs or after them. */
  lemma {:induction false} MemberParses(c: Libc, m: Member, fmt: bool, dp: nat, more: bool, s: seq<byte>,
                                        p: nat, start: nat, d: nat)
    requires Terminated(s) && NumbersReadable(c, m.value) && d <= NESTING_LIMIT
    requires At(s, start, MemberText(c, m, fmt, dp, more)) && p < |s|
    requires SkipBlanks(s, p) == start + if fmt then dp else 0
    requires var e := start + |MemberText(c, m, fmt, dp, more)|; more || Ends(s, e)
    ensures
      var end := start + |MemberText(c, m, fmt, dp, more)|;
      MemberAt(c, s, p, d) ==
        if Height(m.value) + d > NESTING_LIMIT then None
        else Some((m, if more then end - (if fmt then 2 else 1) else SkipBlanks(s, end)))
    ensures more ==>
      var comma := start + |MemberText(c, m, fmt, dp, more)| - if fmt then 2 else 1;
      0 <= comma < |s| && s[comma] == COMMA && At(s, comma + 1, if fmt then [LF] else [])
    decreases m.value, 3
  {
    hide At, Text, ItemAt, Quoted, Height, SkipBlanks, MemberText, MemberEnding;
    hide NumbersReadable, Tabs, NameAt, NumberChar;
    NameParses(c, m, fmt, dp, more, s, p, start);
    MemberParts(c, m, fmt, dp, more, s, start);
    var k := start + (if fmt then dp else 0) + |Quoted(m.key)|;
    var v := k + if fmt then 2 else 1;
    TextStart(c, m.value, fmt, dp);
    AtIndex(s, v, Text(c, m.value, fmt, dp), 0);
    SkipOver(s, k + 1, if fmt then [TAB] else []);
    var end := v + |Text(c, m.value, fmt, dp)|;
    EndingAt(s, end, fmt, more);
    ItemParses(c, m.value, fmt, dp, s, k + 1, v, d);
  }

  /** Behind the comma of a member: the line feed and the tabs of the next name. */
  lemma NextName(c: Libc, ms: seq<Member>, fmt: bool, dp: nat, s: seq<byte>, comma: nat)
    requires ms != [] && At(s, comma + 1, if fmt then [LF] else [])
    requires At(s, comma + (if fmt then 2 else 1), MembersText(c, ms, fmt, dp))
    ensures comma + 1 < |s| && SkipBlanks(s, comma + 1) == comma + if fmt then 2 + dp else 1
  {
    hide At, MembersText, SkipBlanks, Tabs;
    var tabs, lf := if fmt then Tabs(dp) else [], if fmt then [LF] else [];
    NameStart(c, ms, fmt, dp, s, comma + 1 + |lf|);
    OnlyTabs(dp);
    AtConcat(s, comma + 1, lf, tabs);
    SkipOver(s, comma + 1, lf + tabs);
  }

  /** The same for a tree whose numbers can all be read back. */
  lemma ReadableParse(c: Libc, j: Json, fmt: bool, strict: bool)
    requires NumbersReadable(c, j)
    ensures Document(c, Printed(c, j, fmt), strict) == if Height(j) <= NESTING_LIMIT then Some(j) else None
  {
    var t := Printed(c, j, fmt);
    hide ValueAt, Text, Height, NumbersReadable;
    var s := t + [0];
    TextStart(c, j, fmt, 0);
    assert At(s, 0, t);
    if At(s, 0, BOM) {
      AtIndex(s, 0, BOM, 0);
    }
    SkipOver(s, 0, []);
    ReadableTextParses(c, j, fmt, 0, s, 0, 0);
    SkipOver(s, |t|, []);
  }

  /* ---- Numbers that print as null ---- */

  predicate ItemsPrint(c: Libc, xs: seq<Json>)
    decreases xs, 0
  {
    xs != [] ==> NumbersPrint(c, xs[0]) && ItemsPrint(c, xs[1..])
  }

  predicate MembersPrint(c: Libc, ms: seq<Member>)
    decreases ms, 0
  {
    ms != [] ==> NumbersPrint(c, ms[0].value) && MembersPrint(c, ms[1..])
  }

  /** Every number is read back, or is a NaN or an infinity and prints as null. */
  predicate NumbersPrint(c: Libc, j: Json)
    decreases j, 1
  {
    match j
    case Number(x) => Readable(c, x) || c.sprintf(x) == NULL_TEXT
    case Array(xs) => ItemsPrint(c, xs)
    case Object(ms) => MembersPrint(c, ms)
    case _ => true
  }

  function ItemsNulled(c: Libc, xs: seq<Json>): (ys: seq<Json>)
    ensures |ys| == |xs|
    decreases xs, 0
  {
    if xs == [] then [] else [Nulled(c, xs[0])] + ItemsNulled(c, xs[1..])
  }

  function MembersNulled(c: Libc, ms: seq<Member>): (ns: seq<Member>)
    ensures |ns| == |ms|
    decreases ms, 0
  {
    if ms == [] then [] else [Member(ms[0].key, Nulled(c, ms[0].value))] + MembersNulled(c, ms[1..])
  }

  /** The tree with null for each number that prints so. */
  function Nulled(c: Libc, j: Json): Json
    decreases j, 1
  {
    match j
    case Number(x) => if c.sprintf(x) == NULL_TEXT then Null else j
    case Array(xs) => Array(ItemsNulled(c, xs))
    case Object(ms) => Object(MembersNulled(c, ms))
    case _ => j
  }

  lemma {:induction false} ItemsNulledAlike(c: Libc, xs: seq<Json>, fmt: bool, d: nat)
    requires ItemsPrint(c, xs)
    ensures ItemsText(c, ItemsNulled(c, xs), fmt, d) == ItemsText(c, xs, fmt, d)
    ensures ItemsHeight(ItemsNulled(c, xs)) == ItemsHeight(xs)
    ensures ItemsReadable(c, ItemsNulled(c, xs)) && (ItemsNulled(c, xs) == xs <==> ItemsReadable(c, xs))
    decreases xs, 0
  {
    hide Text, Nulled, NumbersReadable, Height;
    if xs == [] {
    } else {
      NulledAlike(c, xs[0], fmt, d);
      ItemsNulledAlike(c, xs[1..], fmt, d);
      assert ItemsNulled(c, xs)[1..] == ItemsNulled(c, xs[1..]);
      assert xs == [xs[0]] + xs[1..];
    }
  }

  lemma {:induction false} MembersNulledAlike(c: Libc, ms: seq<Member>, fmt: bool, d: nat)
    requires MembersPrint(c, ms)
    ensures MembersText(c, MembersNulled(c, ms), fmt, d) == MembersText(c, ms, fmt, d)
    ensures MembersHeight(MembersNulled(c, ms)) == MembersHeight(ms)
    ensures MembersReadable(c, MembersNulled(c, ms)) && (MembersNulled(c, ms) == ms <==> MembersReadable(c, ms))
    decreases ms, 0
  {
    hide Text, Nulled, NumbersReadable, Height, MemberName, MemberEnding;
    if ms == [] {
    } else {
      NulledAlike(c, ms[0].value, fmt, d);
      MembersNulledAlike(c, ms[1..], fmt, d);
      assert MembersNulled(c, ms)[1..] == MembersNulled(c, ms[1..]);
      assert ms == [ms[0]] + ms[1..];
    }
  }

  /** It prints alike, nests alike, can be read back, and is the tree itself exactly if
      that can. */
  lemma {:induction false} NulledAlike(c: Libc, j: Json, fmt: bool, d: nat)
    requires NumbersPrint(c, j)
    ensures Text(c, Nulled(c, j), fmt, d) == Text(c, j, fmt, d) && Height(Nulled(c, j)) == Height(j)
    ensures NumbersReadable(c, Nulled(c, j)) && (Nulled(c, j) == j <==> NumbersReadable(c, j))
    decreases j, 1
  {
    hide ItemsText, MembersText, ItemsNulled, MembersNulled, ItemsHeight, MembersHeight;
    hide ItemsReadable, MembersReadable;
    match j
    case Array(xs) => ItemsNulledAlike(c, xs, fmt, d + 1);
    case Object(ms) => MembersNulledAlike(c, ms, fmt, d + 1);
    case _ =>
  }

  /** At every depth the value parser reads the text of any tree back, with null for each
      NaN and infinity, stops behind it, and refuses it exactly if it nests too deep. */
  lemma TextParses(c: Libc, j: Json, fmt: bool, dp: nat, s: seq<byte>, i: nat, d: nat)
    requires Terminated(s) && NumbersPrint(c, j) && d <= NESTING_LIMIT
    requires At(s, i, Text(c, j, fmt, dp))
    requires i + |Text(c, j, fmt, dp)| < |s| && !NumberChar(s[i + |Text(c, j, fmt, dp)|])
    ensures i < |s| && Parses(c, Nulled(c, j), s, i, i + |Text(c, j, fmt, dp)|, d)
    ensures Height(Nulled(c, j)) == Height(j)
  {
    NulledAlike(c, j, fmt, dp);
    hide *;
    ReadableTextParses(c, Nulled(c, j), fmt, dp, s, i, d);
  }

  /** Printing a tree, formatted or not, and parsing the text gives the tree back, with null
      for each NaN and infinity, exactly when it nests no deeper than the limit; otherwise
      parsing fails. It is the tree itself exactly when all its numbers can be read back. */
  lemma PrintParse(c: Libc, j: Json, fmt: bool, strict: bool)
    requires NumbersPrint(c, j)
    ensures Document(c, Printed(c, j, fmt), strict) == if Height(j) <= 1000 then Some(Nulled(c, j)) else None
    ensures Document(c, Printed(c, j, fmt), strict) == Some(j) <==> Height(j) <= 1000 && NumbersReadable(c, j)
  {
    NulledAlike(c, j, fmt, 0);
    hide Document, Text, Height, NumbersReadable;
    ReadableParse(c, Nulled(c, j), fmt, strict);
  }
}
