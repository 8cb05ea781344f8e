/** JSON trees and the text a printer gives them, formatted or not. */
module JsonText {
  import opened Bytes
  import opened Hex

  /** A C string: its bytes up to, not including, the terminator. */
  type cstring = s: seq<byte> | 0 !in s

  datatype Member = Member(key: cstring, value: Json)

  /** A tree without raw items. A number is an opaque double, named by an integer. */
  datatype Json =
    | Null
    | False
    | True
    | Number(double: int)
    | String(text: cstring)
    | Array(items: seq<Json>)
    | Object(members: seq<Member>)

  /** The C library's number formatting and reading: `strtod` gives the value
      and the number of bytes it read. */
  datatype NumberFunctions = NumberFunctions(sprintf: int -> seq<byte>, strtod: seq<byte> -> (int, nat))

  const QUOTE: byte := 34
  const SLASH: byte := 47

  /** Printing characters that neither a string nor a comment can start with. */
  predicate AllPlain(t: seq<byte>) {
    forall k :: 0 <= k < |t| ==> t[k] > 32 && t[k] != QUOTE && t[k] != SLASH
  }

  ghost predicate IsLibc(c: NumberFunctions) {
    && (forall x :: 0 < |c.sprintf(x)| <= 25 && AllPlain(c.sprintf(x)))
    && (forall t :: c.strtod(t).1 <= |t|)
  }

  type Libc = c: NumberFunctions | IsLibc(c)
    witness NumberFunctions((x: int) => [48], (t: seq<byte>) => (0, 0))

  const SPACE: byte := 32
  const TAB: byte := 9
  const LF: byte := 10
  const CR: byte := 13
  const BACKSLASH: byte := 92
  const STAR: byte := 42
  const COMMA: byte := 44
  const COLON: byte := 58
  const LBRACKET: byte := 91
  const RBRACKET: byte := 93
  const LBRACE: byte := 123
  const RBRACE: byte := 125
  const NULL_TEXT: seq<byte> := [110, 117, 108, 108]
  const FALSE_TEXT: seq<byte> := [102, 97, 108, 115, 101]
  const TRUE_TEXT: seq<byte> := [116, 114, 117, 101]

  /** One character of a printed string. */
  function Escape(b: byte): (t: seq<byte>)
    ensures |t| > 0
  {
    if b == QUOTE || b == BACKSLASH then [BACKSLASH, b]
    else if b == 8 then [BACKSLASH, 98]
    else if b == 12 then [BACKSLASH, 102]
    else if b == 10 then [BACKSLASH, 110]
    else if b == 13 then [BACKSLASH, 114]
    else if b == 9 then [BACKSLASH, 116]
    else if b < 32 then [BACKSLASH, 117, 48, 48, HexDigit(b / 16), HexDigit(b % 16)]
    else [b]
  }

  function Escaped(s: seq<byte>): seq<byte> {
    if s == [] then [] else Escape(s[0]) + Escaped(s[1..])
  }

  lemma {:induction false} EscapedConcat(a: seq<byte>, b: seq<byte>)
    ensures Escaped(a + b) == Escaped(a) + Escaped(b)
  {
    hide Escape;
    if a == [] {
      assert a + b == b;
    } else {
      assert (a + b)[1..] == a[1..] + b;
      EscapedConcat(a[1..], b);
      Regroup(Escape(a[0]), Escaped(a[1..]), Escaped(b));
    }
  }

  function Quoted(s: seq<byte>): seq<byte> {
    [QUOTE] + Escaped(s) + [QUOTE]
  }

  function Tabs(n: nat): (t: seq<byte>)
    ensures |t| == n
  {
    if n == 0 then [] else [TAB] + Tabs(n - 1)
  }

  /** An element with its separator, if another element follows. */
  function ItemText(c: Libc, x: Json, fmt: bool, d: nat, more: bool): seq<byte>
    decreases x, 2
  {
    Text(c, x, fmt, d) + (if more then ItemSeparator(fmt) else [])
  }

  function ItemsText(c: Libc, xs: seq<Json>, fmt: bool, d: nat): seq<byte>
    decreases xs, 0
  {
    if xs == [] then []
    else ItemText(c, xs[0], fmt, d, |xs| > 1) + ItemsText(c, xs[1..], fmt, d)
  }

  function ObjectOpening(fmt: bool): seq<byte> {
    if fmt then [LBRACE, LF] else [LBRACE]
  }

  function MemberName(key: seq<byte>, fmt: bool, d: nat): seq<byte> {
    (if fmt then Tabs(d) else []) + Quoted(key) + (if fmt then [COLON, TAB] else [COLON])
  }

  function MemberEnding(fmt: bool, more: bool): seq<byte> {
    (if more then [COMMA] else []) + (if fmt then [LF] else [])
  }

  function MemberText(c: Libc, m: Member, fmt: bool, d: nat, more: bool): seq<byte>
    decreases m, 2
  {
    MemberName(m.key, fmt, d) + Text(c, m.value, fmt, d) + MemberEnding(fmt, more)
  }

  function MembersText(c: Libc, ms: seq<Member>, fmt: bool, d: nat): seq<byte>
    decreases ms, 0
  {
    if ms == [] then []
    else MemberText(c, ms[0], fmt, d, |ms| > 1) + MembersText(c, ms[1..], fmt, d)
  }

  function ObjectClosing(fmt: bool, d: nat): seq<byte> {
    (if fmt then Tabs(d) else []) + [RBRACE]
  }

  /** The text of a tree at nesting depth `d`. */
  function Text(c: Libc, j: Json, fmt: bool, d: nat): seq<byte>
    decreases j, 1
  {
    match j
    case Null => NULL_TEXT
    case False => FALSE_TEXT
    case True => TRUE_TEXT
    case Number(x) => c.sprintf(x)
    case String(s) => Quoted(s)
    case Array(xs) => [LBRACKET] + ItemsText(c, xs, fmt, d + 1) + [RBRACKET]
    case Object(ms) =>
      ObjectOpening(fmt) + MembersText(c, ms, fmt, d + 1) + ObjectClosing(fmt, d)
  }

  function ItemSeparator(fmt: bool): seq<byte> {
    if fmt then [COMMA, SPACE] else [COMMA]
  }

  lemma ItemsFrom(c: Libc, xs: seq<Json>, i: nat, fmt: bool, d: nat)
    requires i < |xs|
    ensures ItemsText(c, xs[i..], fmt, d) ==
      ItemText(c, xs[i], fmt, d, i + 1 < |xs|) + ItemsText(c, xs[i + 1..], fmt, d)
  {
    hide ItemText;
    assert xs[i..][1..] == xs[i + 1..];
  }

  lemma MembersFrom(c: Libc, ms: seq<Member>, i: nat, fmt: bool, d: nat)
    requires i < |ms|
    ensures MembersText(c, ms[i..], fmt, d) ==
      MemberText(c, ms[i], fmt, d, i + 1 < |ms|) + MembersText(c, ms[i + 1..], fmt, d)
  {
    hide MemberText;
    assert ms[i..][1..] == ms[i + 1..];
  }

  lemma NothingText(c: Libc, fmt: bool, d: nat)
    ensures ItemsText(c, [], fmt, d) == [] && MembersText(c, [], fmt, d) == []
  {
  }

  /* ---- How the text is laid out ---- */

  lemma {:induction false} OnlyTabs(n: nat)
    ensures forall k :: 0 <= k < n ==> Tabs(n)[k] == TAB
  {
    if n == 0 {
    } else {
      OnlyTabs(n - 1);
    }
  }

  /** The texts one after the other, with a separator between them. */
  function Joined(ts: seq<seq<byte>>, separator: seq<byte>): seq<byte> {
    if ts == [] then [] else if |ts| == 1 then ts[0] else ts[0] + separator + Joined(ts[1..], separator)
  }

  lemma {:induction false} ItemsJoined(c: Libc, xs: seq<Json>, fmt: bool, d: nat)
    ensures ItemsText(c, xs, fmt, d) ==
      Joined(seq(|xs|, i requires 0 <= i < |xs| => Text(c, xs[i], fmt, d)), if fmt then [44, 32] else [44])
  {
    hide Text;
    var ts := seq(|xs|, i requires 0 <= i < |xs| => Text(c, xs[i], fmt, d));
    if xs == [] {
    } else {
      ItemsJoined(c, xs[1..], fmt, d);
      assert ts[1..] == seq(|xs| - 1, i requires 0 <= i < |xs| - 1 => Text(c, xs[1..][i], fmt, d));
      if |xs| == 1 {
        assert ts[0] + [] + [] == ts[0];
      }
    }
  }

  /** An array stands in brackets, its elements are separated by a comma, and in formatted
      text by a comma and a space. */
  lemma ArrayLayout(c: Libc, xs: seq<Json>, fmt: bool, d: nat)
    ensures Text(c, Array(xs), fmt, d) ==
      [91]
      + Joined(seq(|xs|, i requires 0 <= i < |xs| => Text(c, xs[i], fmt, d + 1)), if fmt then [44, 32] else [44])
      + [93]
  {
    ItemsJoined(c, xs, fmt, d + 1);
    hide ItemsText;
  }

  /** A member of an object: its name, a colon and its value, and in formatted text a tab for
      each level in front and one behind the colon. */
  function Line(c: Libc, m: Member, fmt: bool, d: nat): seq<byte> {
    if fmt then seq(d, _ => 9) + Quoted(m.key) + [58, 9] + Text(c, m.value, fmt, d)
    else Quoted(m.key) + [58] + Text(c, m.value, fmt, d)
  }

  lemma MemberIsLine(c: Libc, m: Member, fmt: bool, d: nat, more: bool)
    ensures MemberText(c, m, fmt, d, more) ==
      Line(c, m, fmt, d) + (if fmt then if more then [44, 10] else [10] else if more then [44] else [])
  {
    hide Text, Quoted, Tabs;
    OnlyTabs(d);
    assert Tabs(d) == seq(d, _ => 9);
    var (name, t) := (MemberName(m.key, fmt, d), Text(c, m.value, fmt, d));
    assert Line(c, m, fmt, d) == name + t;
  }

  lemma JoinedMore(t: seq<byte>, ts: seq<seq<byte>>, separator: seq<byte>)
    ensures Joined([t] + ts, separator) == if ts == [] then t else t + separator + Joined(ts, separator)
  {
    assert ([t] + ts)[1..] == ts;
  }

  function Lines(c: Libc, ms: seq<Member>, fmt: bool, d: nat): (ts: seq<seq<byte>>)
    ensures |ts| == |ms| && forall i :: 0 <= i < |ms| ==> ts[i] == Line(c, ms[i], fmt, d)
  {
    seq(|ms|, i requires 0 <= i < |ms| => Line(c, ms[i], fmt, d))
  }

  lemma LinesMore(c: Libc, ms: seq<Member>, fmt: bool, d: nat)
    requires ms != []
    ensures Lines(c, ms, fmt, d) == [Line(c, ms[0], fmt, d)] + Lines(c, ms[1..], fmt, d)
    ensures MembersText(c, ms, fmt, d) == MemberText(c, ms[0], fmt, d, |ms| > 1) + MembersText(c, ms[1..], fmt, d)
  {
    hide Line, MemberText;
  }

  lemma FourParts(a: seq<byte>, b: seq<byte>, c: seq<byte>, d: seq<byte>)
    ensures a + b + (c + d) == a + b + c + d && a + [] == a
  {
  }

  lemma {:induction false} MembersJoined(c: Libc, ms: seq<Member>, fmt: bool, d: nat)
    ensures MembersText(c, ms, fmt, d) ==
      Joined(Lines(c, ms, fmt, d), if fmt then [44, 10] else [44]) + (if fmt && ms != [] then [10] else [])
  {
    if ms == [] {
    } else {
      hide *;
      var (t, separator, rest) := (Line(c, ms[0], fmt, d), if fmt then [44, 10] else [44], Lines(c, ms[1..], fmt, d));
      MemberIsLine(c, ms[0], fmt, d, |ms| > 1);
      LinesMore(c, ms, fmt, d);
      MembersJoined(c, ms[1..], fmt, d);
      JoinedMore(t, rest, separator);
      NothingText(c, fmt, d);
      FourParts(t, separator, Joined(rest, separator), if fmt then [10] else []);
      FourParts(MemberText(c, ms[0], fmt, d, false), [], [], []);
    }
  }

  /** An object stands in braces, its members are separated by a comma, and in formatted
      text each stands on a line of its own, one level further in. */
  lemma ObjectLayout(c: Libc, ms: seq<Member>, fmt: bool, d: nat)
    ensures
      var lines := Lines(c, ms, fmt, d + 1);
      Text(c, Object(ms), fmt, d) ==
        if !fmt then [123] + Joined(lines, [44]) + [125]
        else [123, 10] + Joined(lines, [44, 10]) + (if ms == [] then [] else [10]) + (seq(d, _ => 9) + [125])
  {
    hide MembersText, Lines, Joined, Tabs;
    MembersJoined(c, ms, fmt, d + 1);
    OnlyTabs(d);
    assert Tabs(d) == seq(d, _ => 9);
    var lines := Lines(c, ms, fmt, d + 1);
    if fmt {
      Regroup([123, 10], Joined(lines, [44, 10]), if ms == [] then [] else [10]);
    } else {
      assert Joined(lines, [44]) + [] == Joined(lines, [44]) && [] + [125] == [125];
    }
  }

  /** The other values: the three words, the number as the library prints it, and strings in
      quotes. */
  lemma WordLayout(c: Libc, j: Json, fmt: bool, d: nat)
    ensures j.Null? ==> Text(c, j, fmt, d) == ['n' as int, 'u' as int, 'l' as int, 'l' as int]
    ensures j.True? ==> Text(c, j, fmt, d) == ['t' as int, 'r' as int, 'u' as int, 'e' as int]
    ensures j.False? ==> Text(c, j, fmt, d) == ['f' as int, 'a' as int, 'l' as int, 's' as int, 'e' as int]
    ensures j.Number? ==> Text(c, j, fmt, d) == c.sprintf(j.double)
    ensures j.String? ==> Text(c, j, fmt, d) == [34] + Escaped(j.text) + [34]
  {
  }

  function ItemsHeight(xs: seq<Json>): nat
    decreases xs, 0
  {
    if xs == [] then 0
    else
      var h, t := Height(xs[0]), ItemsHeight(xs[1..]);
      if h < t then t else h
  }

  function MembersHeight(ms: seq<Member>): nat
    decreases ms, 0
  {
    if ms == [] then 0
    else
      var h, t := Height(ms[0].value), MembersHeight(ms[1..]);
      if h < t then t else h
  }

  /** How many arrays and objects enclose each other in the tree. */
  function Height(j: Json): nat
    decreases j, 1
  {
    match j
    case Array(xs) => 1 + ItemsHeight(xs)
    case Object(ms) => 1 + MembersHeight(ms)
    case _ => 0
  }

  /* ---- Printed text has no NUL, so it is a C string ---- */

  lemma {:induction false} EscapedNoNul(t: cstring)
    ensures 0 !in Escaped(t)
  {
    if t == [] {
    } else {
      assert 0 !in Escape(t[0]);
      EscapedNoNul(t[1..]);
    }
  }

  lemma {:induction false} ItemsNoNul(c: Libc, xs: seq<Json>, fmt: bool, d: nat)
    ensures 0 !in ItemsText(c, xs, fmt, d)
    decreases xs, 0
  {
    if xs == [] {
    } else {
      TextNoNul(c, xs[0], fmt, d);
      ItemsNoNul(c, xs[1..], fmt, d);
    }
  }

  lemma {:induction false} MembersNoNul(c: Libc, ms: seq<Member>, fmt: bool, d: nat)
    ensures 0 !in MembersText(c, ms, fmt, d)
    decreases ms, 0
  {
    hide Escaped, Text, Tabs;
    if ms == [] {
    } else {
      EscapedNoNul(ms[0].key);
      OnlyTabs(d);
      assert 0 !in MemberName(ms[0].key, fmt, d);
      TextNoNul(c, ms[0].value, fmt, d);
      MembersNoNul(c, ms[1..], fmt, d);
    }
  }

  lemma {:induction false} TextNoNul(c: Libc, j: Json, fmt: bool, d: nat)
    ensures 0 !in Text(c, j, fmt, d)
    decreases j, 1
  {
    hide Escaped, ItemsText, MembersText, Tabs;
    match j
    case Null =>
    case False =>
    case True =>
    case Number(x) =>
    case String(t) => EscapedNoNul(t);
    case Array(xs) => ItemsNoNul(c, xs, fmt, d + 1);
    case Object(ms) =>
      MembersNoNul(c, ms, fmt, d + 1);
      OnlyTabs(d);
      var opening, t, closing := ObjectOpening(fmt), MembersText(c, ms, fmt, d + 1), ObjectClosing(fmt, d);
      assert 0 !in opening && 0 !in closing;
      assert 0 !in opening + t;
  }

  /** The text of a whole document. */
  function Printed(c: Libc, j: Json, fmt: bool): cstring {
    TextNoNul(c, j, fmt, 0);
    Text(c, j, fmt, 0)
  }
}
