/** The texts that the parser accepts, as a grammar: a value is a word, a number, a string, or
    values in brackets or braces, with white space around all of them (section 2 of RFC
    8259). White space is any byte up to 32. */
module JsonGrammar {
  import opened Bytes
  import opened Wrappers
  import opened JsonText
  import opened JsonString
  import opened JsonLiteral
  import opened JsonParse
  import opened JsonRoundTrip

  /** A text, taken apart. */
  datatype Source =
    | Leaf(text: seq<byte>, value: Json)
    | List(hollow: seq<byte>, items: seq<Item>)
    | Dict(hollow: seq<byte>, entries: seq<Entry>)

  /** A value with the white space around it. */
  datatype Item = Item(before: seq<byte>, source: Source, after: seq<byte>)

  /** A member: its name as a literal, what that reads as, and its value. */
  datatype Entry = Entry(before: seq<byte>, name: seq<byte>, key: cstring, gap: seq<byte>, item: Item)

  /* ---- The text ---- */

  function ItemSpelled(x: Item): seq<byte>
    decreases x, 2
  {
    x.before + (Spelled(x.source) + x.after)
  }

  /** Elements up to and with the closing bracket. */
  function ItemsSpelled(xs: seq<Item>): seq<byte>
    decreases xs, 0
  {
    if xs == [] then [93]
    else ItemSpelled(xs[0]) + (if |xs| == 1 then [93] else [44] + ItemsSpelled(xs[1..]))
  }

  function EntrySpelled(e: Entry): seq<byte>
    decreases e, 3
  {
    e.before + (e.name + (e.gap + ([58] + ItemSpelled(e.item))))
  }

  function EntriesSpelled(es: seq<Entry>): seq<byte>
    decreases es, 0
  {
    if es == [] then [125]
    else EntrySpelled(es[0]) + (if |es| == 1 then [125] else [44] + EntriesSpelled(es[1..]))
  }

  function Spelled(t: Source): seq<byte>
    decreases t, 1
  {
    match t
    case Leaf(text, _) => text
    case List(hollow, items) => [91] + (hollow + ItemsSpelled(items))
    case Dict(hollow, entries) => [123] + (hollow + EntriesSpelled(entries))
  }

  /* ---- The tree ---- */

  function TreesOf(xs: seq<Item>): (js: seq<Json>)
    ensures |js| == |xs|
    decreases xs, 0
  {
    if xs == [] then [] else [TreeOf(xs[0].source)] + TreesOf(xs[1..])
  }

  function MembersOf(es: seq<Entry>): (ms: seq<Member>)
    ensures |ms| == |es|
    decreases es, 0
  {
    if es == [] then [] else [Member(es[0].key, TreeOf(es[0].item.source))] + MembersOf(es[1..])
  }

  function TreeOf(t: Source): Json
    decreases t, 1
  {
    match t
    case Leaf(_, value) => value
    case List(_, items) => Array(TreesOf(items))
    case Dict(_, entries) => Object(MembersOf(entries))
  }

  /* ---- Which texts are meant ---- */

  const NUMBER_CHARACTERS: string := "0123456789+-eE."

  /** At most 63 characters of a number, with a digit or a minus sign first, all of which the
      library reads. */
  predicate NumberText(c: Libc, text: seq<byte>, x: int) {
    && 0 < |text| <= 63 && (text[0] as char == '-' || '0' <= text[0] as char <= '9')
    && (forall k :: 0 <= k < |text| ==> text[k] as char in NUMBER_CHARACTERS)
    && ReadNumber(c, text) == (x, |text|)
  }

  /** A literal and what it reads as, up to the first NUL in that. */
  predicate StringText(text: seq<byte>, key: cstring) {
    && text != [] && StringAt(text, 0).Some? && StringAt(text, 0).value.1 == |text|
    && key == UpToNul(StringAt(text, 0).value.0)
  }

  predicate LeafText(c: Libc, text: seq<byte>, value: Json) {
    match value
    case Null => text == ['n' as int, 'u' as int, 'l' as int, 'l' as int]
    case True => text == ['t' as int, 'r' as int, 'u' as int, 'e' as int]
    case False => text == ['f' as int, 'a' as int, 'l' as int, 's' as int, 'e' as int]
    case Number(x) => NumberText(c, text, x)
    case String(key) => StringText(text, key)
    case _ => false
  }

  predicate ItemWell(c: Libc, x: Item)
    decreases x, 2
  {
    Blank(x.before) && Blank(x.after) && Well(c, x.source)
  }

  predicate ItemsWell(c: Libc, xs: seq<Item>)
    decreases xs, 0
  {
    xs != [] ==> ItemWell(c, xs[0]) && ItemsWell(c, xs[1..])
  }

  predicate EntryWell(c: Libc, e: Entry)
    decreases e, 3
  {
    Blank(e.before) && StringText(e.name, e.key) && Blank(e.gap) && ItemWell(c, e.item)
  }

  predicate EntriesWell(c: Libc, es: seq<Entry>)
    decreases es, 0
  {
    es != [] ==> EntryWell(c, es[0]) && EntriesWell(c, es[1..])
  }

  predicate Well(c: Libc, t: Source)
    decreases t, 1
  {
    match t
    case Leaf(text, value) => LeafText(c, text, value)
    case List(hollow, items) => Blank(hollow) && ItemsWell(c, items)
    case Dict(hollow, entries) => Blank(hollow) && EntriesWell(c, entries)
  }

  /* ---- Every such text is read ---- */

  lemma NumberCharacters(b: byte)
    ensures NumberChar(b) <==> b as char in NUMBER_CHARACTERS
  {
    assert NUMBER_CHARACTERS[10] == '+' && NUMBER_CHARACTERS[11] == '-' && NUMBER_CHARACTERS[12] == 'e';
    assert NUMBER_CHARACTERS[13] == 'E' && NUMBER_CHARACTERS[14] == '.';
    if 48 <= b <= 57 {
      assert NUMBER_CHARACTERS[b - 48] == b as char;
    }
  }

  /** What may stand behind a value in brackets or braces. */
  predicate Closes(b: byte) {
    b == 44 || b == 93 || b == 125
  }

  lemma LeafStart(c: Libc, text: seq<byte>, value: Json)
    requires LeafText(c, text, value)
    ensures text != [] && text[0] > 32 && !Closes(text[0]) && text[0] != 0xEF
  {
    hide Decode, ClosingQuote, IsLibc, UpToNul;
  }

  /** No value starts with white space or with what ends a value. */
  lemma SourceStart(c: Libc, t: Source)
    requires Well(c, t)
    ensures Spelled(t) != [] && Spelled(t)[0] > 32 && !Closes(Spelled(t)[0]) && Spelled(t)[0] != 0xEF
  {
    hide LeafText, ItemsSpelled, EntriesSpelled;
    if t.Leaf? {
      LeafStart(c, t.text, t.value);
    }
  }

  lemma StringRead(s: seq<byte>, i: nat, text: seq<byte>, key: cstring)
    requires StringText(text, key) && At(s, i, text)
    ensures
      i < |s| && s[i] == QUOTE && StringAt(s, i).Some?
      && StringAt(s, i).value.1 == i + |text| && UpToNul(StringAt(s, i).value.0) == key
  {
    assert At(text, 0, text);
    AtIndex(s, i, text, 0);
    SameString(text, 0, s, i, text);
  }

  lemma NumberRead(c: Libc, s: seq<byte>, i: nat, text: seq<byte>, x: int)
    requires Terminated(s) && NumberText(c, text, x) && At(s, i, text)
    requires i + |text| < |s| && !NumberChar(s[i + |text|])
    ensures (s[i] == 45 || 48 <= s[i] <= 57) && NumberAt(c, s, i) == Some((Number(x), i + |text|))
  {
    hide NumberRun, IsLibc;
    forall k | 0 <= k < |text| ensures NumberChar(text[k]) {
      NumberCharacters(text[k]);
    }
    AtIndex(s, i, text, 0);
    hide NumberChar, NumberAt, At;
    NumberRunOf(s, i, text, NUMBER_ROOM);
    NumberIs(c, s, i, text);
  }

  lemma LeafRead(c: Libc, s: seq<byte>, i: nat, d: nat, text: seq<byte>, value: Json)
    requires Terminated(s) && d <= NESTING_LIMIT && LeafText(c, text, value) && At(s, i, text)
    requires i + |text| < |s| && !NumberChar(s[i + |text|])
    ensures i < |s| && ValueAt(c, s, i, d) == Some((value, i + |text|)) && Height(value) == 0
  {
    LeafStart(c, text, value);
    AtIndex(s, i, text, 0);
    NotALiteral(s, i);
    hide At, StringAt, NumberAt, NumberText, StringText, NumberChar, UpToNul;
    match value
    case Number(x) => NumberRead(c, s, i, text, x);
    case String(key) => StringRead(s, i, text, key);
    case _ =>
  }

  /** In front of a value and its white space, and behind that white space. */
  lemma ItemStart(c: Libc, x: Item, s: seq<byte>, b: nat)
    requires ItemWell(c, x) && At(s, b, ItemSpelled(x))
    ensures
      var q := b + |x.before|;
      && q < |s| && At(s, b, x.before) && s[q] > 32 && !Closes(s[q])
      && SkipBlanks(s, b) == q && SkipBlanks(s, q) == q
      && At(s, q, Spelled(x.source)) && At(s, q + |Spelled(x.source)|, x.after)
  {
    hide At, Spelled, Well, SkipBlanks;
    AtConcat(s, b, x.before, Spelled(x.source) + x.after);
    AtConcat(s, b + |x.before|, Spelled(x.source), x.after);
    SourceStart(c, x.source);
    AtIndex(s, b + |x.before|, Spelled(x.source), 0);
    SkipOver(s, b, x.before);
    EmptyAt(s, b + |x.before|);
    SkipOver(s, b + |x.before|, []);
  }

  /** The value is read with the white space behind it. */
  lemma {:induction false} ItemRead(c: Libc, x: Item, s: seq<byte>, b: nat, p: nat, d: nat)
    requires Terminated(s) && ItemWell(c, x) && d <= NESTING_LIMIT && At(s, b, ItemSpelled(x))
    requires p < |s| && SkipBlanks(s, p) == b + |x.before|
    requires b + |ItemSpelled(x)| < |s| && Closes(s[b + |ItemSpelled(x)|])
    ensures ItemAt(c, s, p, d) ==
      if Height(TreeOf(x.source)) + d <= NESTING_LIMIT then Some((TreeOf(x.source), b + |ItemSpelled(x)|)) else None
    decreases x, 2
  {
    hide At, Spelled, Well, SkipBlanks, ValueAt, TreeOf, Height;
    ItemStart(c, x, s, b);
    var end := b + |x.before| + |Spelled(x.source)|;
    if x.after != [] {
      AtIndex(s, end, x.after, 0);
    }
    SkipOver(s, end, x.after);
    SourceRead(c, x.source, s, b + |x.before|, d);
  }

  lemma ItemsParts(xs: seq<Item>, s: seq<byte>, b: nat)
    requires xs != [] && At(s, b, ItemsSpelled(xs))
    ensures
      var k := b + |ItemSpelled(xs[0])|;
      && At(s, b, ItemSpelled(xs[0])) && k < |s| && s[k] == (if |xs| == 1 then 93 else 44)
      && (|xs| > 1 ==> At(s, k + 1, ItemsSpelled(xs[1..])))
      && b + |ItemsSpelled(xs)| == k + 1 + (if |xs| == 1 then 0 else |ItemsSpelled(xs[1..])|)
  {
    hide At, ItemSpelled;
    var (t, k) := (ItemSpelled(xs[0]), b + |ItemSpelled(xs[0])|);
    var tail := if |xs| == 1 then [93] else [44] + ItemsSpelled(xs[1..]);
    AtConcat(s, b, t, tail);
    AtIndex(s, k, tail, 0);
    if |xs| > 1 {
      AtConcat(s, k, [44], ItemsSpelled(xs[1..]));
    }
  }

  lemma UnfoldTrees(c: Libc, xs: seq<Item>)
    requires xs != [] && ItemsWell(c, xs)
    ensures TreesOf(xs) == [TreeOf(xs[0].source)] + TreesOf(xs[1..])
    ensures ItemsHeight(TreesOf(xs)) ==
      var (h, r) := (Height(TreeOf(xs[0].source)), ItemsHeight(TreesOf(xs[1..])));
      if h < r then r else h
    ensures ItemWell(c, xs[0]) && ItemsWell(c, xs[1..])
  {
    assert TreesOf(xs)[1..] == TreesOf(xs[1..]);
  }

  lemma {:induction false} ItemsRead(c: Libc, xs: seq<Item>, s: seq<byte>, b: nat, p: nat, d: nat, before: seq<Json>)
    requires xs != [] && Terminated(s) && ItemsWell(c, xs) && d <= NESTING_LIMIT
    requires At(s, b, ItemsSpelled(xs)) && p < |s| && SkipBlanks(s, p) == b + |xs[0].before|
    ensures ItemsAt(c, s, p, d, before) ==
      if ItemsHeight(TreesOf(xs)) + d <= NESTING_LIMIT
      then Some((Array(before + TreesOf(xs)), b + |ItemsSpelled(xs)|)) else None
    decreases xs, 0
  {
    hide At, ItemAt, SkipBlanks, ItemWell, ItemsWell, TreeOf, TreesOf, Height, ItemsHeight, ItemSpelled, ItemsSpelled;
    var (x, rest) := (xs[0], xs[1..]);
    UnfoldTrees(c, xs);
    ItemsParts(xs, s, b);
    ItemRead(c, x, s, b, p, d);
    var k := b + |ItemSpelled(x)|;
    if rest == [] {
      NoTrees();
      assert before + [TreeOf(x.source)] == before + TreesOf(xs);
    } else if Height(TreeOf(x.source)) + d <= NESTING_LIMIT {
      UnfoldTrees(c, rest);
      ItemsParts(rest, s, k + 1);
      ItemStart(c, rest[0], s, k + 1);
      ItemsRead(c, rest, s, k + 1, k + 1, d, before + [TreeOf(x.source)]);
      assert before + [TreeOf(x.source)] + TreesOf(rest) == before + TreesOf(xs);
    }
  }

  lemma NoTrees()
    ensures TreesOf([]) == [] && ItemsHeight([]) == 0 && MembersOf([]) == [] && MembersHeight([]) == 0
    ensures ItemsSpelled([]) == [93] && EntriesSpelled([]) == [125]
  {
  }

  lemma {:induction false} ListRead(c: Libc, hollow: seq<byte>, xs: seq<Item>, s: seq<byte>, i: nat, d: nat)
    requires Terminated(s) && Blank(hollow) && ItemsWell(c, xs) && d <= NESTING_LIMIT
    requires At(s, i, Spelled(List(hollow, xs)))
    ensures i < |s| && s[i] == LBRACKET && ArrayAt(c, s, i, d) ==
      if 1 + ItemsHeight(TreesOf(xs)) + d <= NESTING_LIMIT
      then Some((Array(TreesOf(xs)), i + |Spelled(List(hollow, xs))|)) else None
    decreases xs, 1
  {
    hide At, ItemsAt, SkipBlanks, ItemWell, ItemsWell, TreesOf, Height, ItemsHeight, ItemSpelled, ItemsSpelled, Closes;
    var b := i + 1 + |hollow|;
    AtConcat(s, i, [91], hollow + ItemsSpelled(xs));
    AtConcat(s, i + 1, hollow, ItemsSpelled(xs));
    AtIndex(s, i, [91], 0);
    NoTrees();
    if xs == [] {
      AtIndex(s, b, [93], 0);
      SkipOver(s, i + 1, hollow);
    } else {
      UnfoldTrees(c, xs);
      ItemsParts(xs, s, b);
      ItemStart(c, xs[0], s, b);
      var q := b + |xs[0].before|;
      BlanksBoth(c, xs[0], s, i + 1, hollow);
      NotClosing(s[q]);
      if d < NESTING_LIMIT {
        ItemsRead(c, xs, s, b, q, d + 1, []);
        assert [] + TreesOf(xs) == TreesOf(xs);
      }
    }
  }

  lemma NotClosing(b: byte)
    requires !Closes(b)
    ensures b != RBRACKET && b != RBRACE && b != COMMA
  {
  }

  /** White space behind a bracket and in front of the first value is skipped at once. */
  lemma BlanksBoth(c: Libc, x: Item, s: seq<byte>, p: nat, hollow: seq<byte>)
    requires Blank(hollow) && ItemWell(c, x) && At(s, p, hollow) && At(s, p + |hollow|, ItemSpelled(x))
    ensures p < |s| && SkipBlanks(s, p) == p + |hollow| + |x.before|
  {
    hide At, SkipBlanks, Spelled, Well, ItemSpelled;
    ItemStart(c, x, s, p + |hollow|);
    AtConcat(s, p, hollow, x.before);
    SkipOver(s, p, hollow + x.before);
  }

  /* ---- Members ---- */

  lemma EntryStart(c: Libc, e: Entry, s: seq<byte>, b: nat)
    requires EntryWell(c, e) && At(s, b, EntrySpelled(e))
    ensures
      var (q, g) := (b + |e.before|, b + |e.before| + |e.name|);
      && q < |s| && At(s, b, e.before) && s[q] == QUOTE
      && SkipBlanks(s, b) == q && SkipBlanks(s, q) == q
      && At(s, q, e.name) && At(s, g, e.gap) && g + |e.gap| < |s| && s[g + |e.gap|] == COLON
      && SkipBlanks(s, g) == g + |e.gap| && At(s, g + |e.gap| + 1, ItemSpelled(e.item))
      && b + |EntrySpelled(e)| == g + |e.gap| + 1 + |ItemSpelled(e.item)|
  {
    hide At, ItemSpelled, ItemWell, SkipBlanks, StringText;
    var (q, g) := (b + |e.before|, b + |e.before| + |e.name|);
    AtConcat(s, b, e.before, e.name + (e.gap + ([58] + ItemSpelled(e.item))));
    AtConcat(s, q, e.name, e.gap + ([58] + ItemSpelled(e.item)));
    AtConcat(s, g, e.gap, [58] + ItemSpelled(e.item));
    AtConcat(s, g + |e.gap|, [58], ItemSpelled(e.item));
    AtIndex(s, g + |e.gap|, [58], 0);
    StringRead(s, q, e.name, e.key);
    SkipOver(s, b, e.before);
    EmptyAt(s, q);
    SkipOver(s, q, []);
    SkipOver(s, g, e.gap);
  }

  lemma {:induction false} EntryRead(c: Libc, e: Entry, s: seq<byte>, b: nat, p: nat, d: nat)
    requires Terminated(s) && EntryWell(c, e) && d <= NESTING_LIMIT && At(s, b, EntrySpelled(e))
    requires p < |s| && SkipBlanks(s, p) == b + |e.before|
    requires b + |EntrySpelled(e)| < |s| && Closes(s[b + |EntrySpelled(e)|])
    ensures MemberAt(c, s, p, d) ==
      if Height(TreeOf(e.item.source)) + d <= NESTING_LIMIT
      then Some((Member(e.key, TreeOf(e.item.source)), b + |EntrySpelled(e)|)) else None
    decreases e, 3
  {
    hide At, ItemSpelled, ItemWell, SkipBlanks, StringText, ItemAt, TreeOf, Height, StringAt, UpToNul, EntrySpelled;
    EntryStart(c, e, s, b);
    StringRead(s, b + |e.before|, e.name, e.key);
    var v := b + |e.before| + |e.name| + |e.gap| + 1;
    assert NameAt(s, p) == Some((e.key, v));
    ItemStart(c, e.item, s, v);
    ItemRead(c, e.item, s, v, v, d);
  }

  lemma EntriesParts(es: seq<Entry>, s: seq<byte>, b: nat)
    requires es != [] && At(s, b, EntriesSpelled(es))
    ensures
      var k := b + |EntrySpelled(es[0])|;
      && At(s, b, EntrySpelled(es[0])) && k < |s| && s[k] == (if |es| == 1 then 125 else 44)
      && (|es| > 1 ==> At(s, k + 1, EntriesSpelled(es[1..])))
      && b + |EntriesSpelled(es)| == k + 1 + (if |es| == 1 then 0 else |EntriesSpelled(es[1..])|)
  {
    hide At, EntrySpelled;
    var (t, k) := (EntrySpelled(es[0]), b + |EntrySpelled(es[0])|);
    var tail := if |es| == 1 then [125] else [44] + EntriesSpelled(es[1..]);
    AtConcat(s, b, t, tail);
    AtIndex(s, k, tail, 0);
    if |es| > 1 {
      AtConcat(s, k, [44], EntriesSpelled(es[1..]));
    }
  }

  lemma UnfoldMembers(c: Libc, es: seq<Entry>)
    requires es != [] && EntriesWell(c, es)
    ensures MembersOf(es) == [Member(es[0].key, TreeOf(es[0].item.source))] + MembersOf(es[1..])
    ensures MembersHeight(MembersOf(es)) ==
      var (h, r) := (Height(TreeOf(es[0].item.source)), MembersHeight(MembersOf(es[1..])));
      if h < r then r else h
    ensures EntryWell(c, es[0]) && EntriesWell(c, es[1..])
  {
    assert MembersOf(es)[1..] == MembersOf(es[1..]);
  }

  lemma {:induction false} EntriesRead(
    c: Libc, es: seq<Entry>, s: seq<byte>, b: nat, p: nat, d: nat, before: seq<Member>)
    requires es != [] && Terminated(s) && EntriesWell(c, es) && d <= NESTING_LIMIT
    requires At(s, b, EntriesSpelled(es)) && p < |s| && SkipBlanks(s, p) == b + |es[0].before|
    ensures MembersAt(c, s, p, d, before) ==
      if MembersHeight(MembersOf(es)) + d <= NESTING_LIMIT
      then Some((Object(before + MembersOf(es)), b + |EntriesSpelled(es)|)) else None
    decreases es, 0
  {
    hide At, MemberAt, SkipBlanks, EntryWell, EntriesWell, TreeOf, MembersOf, Height, MembersHeight;
    hide EntrySpelled, EntriesSpelled;
    var (e, rest) := (es[0], es[1..]);
    var m := Member(e.key, TreeOf(e.item.source));
    UnfoldMembers(c, es);
    EntriesParts(es, s, b);
    EntryRead(c, e, s, b, p, d);
    var k := b + |EntrySpelled(e)|;
    if rest == [] {
      NoTrees();
      assert before + [m] == before + MembersOf(es);
    } else if Height(TreeOf(e.item.source)) + d <= NESTING_LIMIT {
      UnfoldMembers(c, rest);
      EntriesParts(rest, s, k + 1);
      EntryStart(c, rest[0], s, k + 1);
      EntriesRead(c, rest, s, k + 1, k + 1, d, before + [m]);
      assert before + [m] + MembersOf(rest) == before + MembersOf(es);
    }
  }

  lemma {:induction false} DictRead(c: Libc, hollow: seq<byte>, es: seq<Entry>, s: seq<byte>, i: nat, d: nat)
    requires Terminated(s) && Blank(hollow) && EntriesWell(c, es) && d <= NESTING_LIMIT
    requires At(s, i, Spelled(Dict(hollow, es)))
    ensures i < |s| && s[i] == LBRACE && ObjectAt(c, s, i, d) ==
      if 1 + MembersHeight(MembersOf(es)) + d <= NESTING_LIMIT
      then Some((Object(MembersOf(es)), i + |Spelled(Dict(hollow, es))|)) else None
    decreases es, 1
  {
    hide At, MembersAt, SkipBlanks, EntryWell, EntriesWell, MembersOf, Height, MembersHeight;
    hide EntrySpelled, EntriesSpelled;
    var b := i + 1 + |hollow|;
    AtConcat(s, i, [123], hollow + EntriesSpelled(es));
    AtConcat(s, i + 1, hollow, EntriesSpelled(es));
    AtIndex(s, i, [123], 0);
    NoTrees();
    if es == [] {
      AtIndex(s, b, [125], 0);
      SkipOver(s, i + 1, hollow);
    } else {
      UnfoldMembers(c, es);
      EntriesParts(es, s, b);
      EntryStart(c, es[0], s, b);
      var q := b + |es[0].before|;
      AtConcat(s, i + 1, hollow, es[0].before);
      BlanksInFront(c, es[0], hollow);
      SkipOver(s, i + 1, hollow + es[0].before);
      if d < NESTING_LIMIT {
        EntriesRead(c, es, s, b, q, d + 1, []);
        assert [] + MembersOf(es) == MembersOf(es);
      }
    }
  }

  lemma BlanksInFront(c: Libc, e: Entry, hollow: seq<byte>)
    requires Blank(hollow) && EntryWell(c, e)
    ensures Blank(hollow + e.before)
  {
  }

  lemma BracketOrBrace(c: Libc, s: seq<byte>, i: nat, d: nat)
    requires Terminated(s) && i < |s| && d <= NESTING_LIMIT
    ensures s[i] == LBRACKET ==> ValueAt(c, s, i, d) == ArrayAt(c, s, i, d)
    ensures s[i] == LBRACE ==> ValueAt(c, s, i, d) == ObjectAt(c, s, i, d)
  {
    hide At, ArrayAt, ObjectAt, NumberAt, StringAt;
    NotALiteral(s, i);
  }

  lemma UnfoldSource(c: Libc, t: Source)
    requires Well(c, t)
    ensures t.Leaf? ==>
      Spelled(t) == t.text && TreeOf(t) == t.value && LeafText(c, t.text, t.value) && Height(TreeOf(t)) == 0
    ensures t.List? ==>
      && Blank(t.hollow) && ItemsWell(c, t.items)
      && TreeOf(t) == Array(TreesOf(t.items)) && Height(TreeOf(t)) == 1 + ItemsHeight(TreesOf(t.items))
    ensures t.Dict? ==>
      && Blank(t.hollow) && EntriesWell(c, t.entries)
      && TreeOf(t) == Object(MembersOf(t.entries)) && Height(TreeOf(t)) == 1 + MembersHeight(MembersOf(t.entries))
  {
  }

  /** Any such text is read as its tree, to its end, exactly if it nests no deeper than the
      limit allows. */
  lemma {:induction false} SourceRead(c: Libc, t: Source, s: seq<byte>, i: nat, d: nat)
    requires Terminated(s) && Well(c, t) && d <= NESTING_LIMIT && At(s, i, Spelled(t))
    requires i + |Spelled(t)| < |s| && !NumberChar(s[i + |Spelled(t)|])
    ensures i < |s| && ValueAt(c, s, i, d) ==
      if Height(TreeOf(t)) + d <= NESTING_LIMIT then Some((TreeOf(t), i + |Spelled(t)|)) else None
    decreases t, 1
  {
    hide *;
    UnfoldSource(c, t);
    match t
    case Leaf(text, value) => LeafRead(c, s, i, d, text, value);
    case List(hollow, items) =>
      ListRead(c, hollow, items, s, i, d);
      BracketOrBrace(c, s, i, d);
    case Dict(hollow, entries) =>
      DictRead(c, hollow, entries, s, i, d);
      BracketOrBrace(c, s, i, d);
  }

  /* ---- And nothing else ---- */

  lemma {:induction false} SkippedAreBlank(s: seq<byte>, p: nat)
    requires p < |s|
    ensures Blank(s[p..SkipBlanks(s, p)])
    decreases |s| - p
  {
    if s[p] <= 32 && p + 1 < |s| {
      SkippedAreBlank(s, p + 1);
      assert s[p..SkipBlanks(s, p)] == [s[p]] + s[p + 1..SkipBlanks(s, p + 1)];
    }
  }

  lemma SliceAt(s: seq<byte>, p: nat, q: nat)
    requires p <= q <= |s|
    ensures At(s, p, s[p..q])
  {
  }

  lemma StringIsText(s: seq<byte>, i: nat)
    requires i < |s| && StringAt(s, i).Some?
    ensures StringText(s[i..StringAt(s, i).value.1], UpToNul(StringAt(s, i).value.0))
  {
    var t := s[i..StringAt(s, i).value.1];
    assert At(t, 0, t) && At(s, i, t);
    SameString(s, i, t, 0, t);
  }

  lemma RunCharacters(s: seq<byte>, i: nat)
    requires i <= |s|
    ensures
      var t := s[i..i + NumberRun(s, i, NUMBER_ROOM)];
      forall k :: 0 <= k < |t| ==> t[k] as char in NUMBER_CHARACTERS
  {
    hide NumberRun, NUMBER_CHARACTERS, NumberChar;
    var t := s[i..i + NumberRun(s, i, NUMBER_ROOM)];
    forall k | 0 <= k < |t| ensures t[k] as char in NUMBER_CHARACTERS {
      RunIsNumber(s, i, NUMBER_ROOM, k);
      NumberCharacters(s[i + k]);
    }
  }

  lemma NumberIsText(c: Libc, s: seq<byte>, i: nat)
    requires Terminated(s) && i < |s| && (s[i] == 45 || 48 <= s[i] <= 57)
    requires NumberAt(c, s, i).Some? && !NumberChar(s[NumberAt(c, s, i).value.1])
    ensures
      var (v, e) := NumberAt(c, s, i).value;
      v.Number? && NumberText(c, s[i..e], v.double)
  {
    hide NumberRun, IsLibc, NumberAt, NumberChar, NUMBER_CHARACTERS, AllPlain;
    UnfoldNumber(c, s, i);
    NumberReadWhole(c, s, i);
    RunCharacters(s, i);
    var t := s[i..NumberAt(c, s, i).value.1];
    assert t == s[i..i + NumberRun(s, i, NUMBER_ROOM)] && |t| > 0 && t[0] == s[i];
  }

  lemma LeafIsSource(c: Libc, s: seq<byte>, i: nat, d: nat)
    requires Terminated(s) && i < |s| && d <= NESTING_LIMIT && ValueAt(c, s, i, d).Some?
    requires s[i] != LBRACKET && s[i] != LBRACE && !NumberChar(s[ValueAt(c, s, i, d).value.1])
    ensures
      var (v, e) := ValueAt(c, s, i, d).value;
      LeafText(c, s[i..e], v)
  {
    hide StringAt, NumberAt, StringText, NumberText, ArrayAt, ObjectAt, NumberChar, UpToNul;
    if At(s, i, NULL_TEXT) || At(s, i, FALSE_TEXT) || At(s, i, TRUE_TEXT) {
    } else if s[i] == QUOTE {
      StringIsText(s, i);
    } else {
      NumberIsText(c, s, i);
    }
  }

  /** Behind a value and its white space stands what ends it. */
  lemma EndOfValue(s: seq<byte>, e: nat)
    requires e < |s| && (Closes(s[SkipBlanks(s, e)]) || s[SkipBlanks(s, e)] == 0)
    ensures !NumberChar(s[e])
  {
    if s[e] > 32 {
      assert SkipBlanks(s, e) == e;
    }
  }

  lemma {:induction false} ItemIsSource(c: Libc, s: seq<byte>, p: nat, d: nat) returns (x: Item)
    requires Terminated(s) && p < |s| && d <= NESTING_LIMIT && ItemAt(c, s, p, d).Some?
    requires Closes(s[ItemAt(c, s, p, d).value.1])
    ensures ItemWell(c, x) && At(s, p, ItemSpelled(x))
    ensures ItemAt(c, s, p, d) == Some((TreeOf(x.source), p + |ItemSpelled(x)|))
    decreases NESTING_LIMIT - d, 2, 0
  {
    hide At, Spelled, Well, SkipBlanks, ValueAt, TreeOf, Blank, Closes, NumberChar;
    var q := SkipBlanks(s, p);
    var e := ValueAt(c, s, q, d).value.1;
    var k := SkipBlanks(s, e);
    EndOfValue(s, e);
    var t := ValueIsSource(c, s, q, d);
    SkippedAreBlank(s, p);
    SkippedAreBlank(s, e);
    x := Item(s[p..q], t, s[e..k]);
    SliceAt(s, p, q);
    SliceAt(s, e, k);
    AtConcat(s, q, Spelled(t), s[e..k]);
    AtConcat(s, p, s[p..q], Spelled(t) + s[e..k]);
  }

  /** An element, and the rest behind its comma. */
  lemma UnfoldItemsAt(c: Libc, s: seq<byte>, p: nat, d: nat, before: seq<Json>)
    requires Terminated(s) && p < |s| && d <= NESTING_LIMIT && ItemsAt(c, s, p, d, before).Some?
    ensures ItemAt(c, s, p, d).Some?
    ensures
      var (v, k) := ItemAt(c, s, p, d).value;
      && p < k && k + 1 < |s| && Closes(s[k]) && (s[k] == 44 || s[k] == 93)
      && ItemsAt(c, s, p, d, before) ==
        if s[k] == 44 then ItemsAt(c, s, k + 1, d, before + [v]) else Some((Array(before + [v]), k + 1))
  {
    hide ItemAt;
  }

  lemma {:induction false} ItemsAreSource(c: Libc, s: seq<byte>, p: nat, d: nat, before: seq<Json>)
    returns (xs: seq<Item>)
    requires Terminated(s) && p < |s| && d <= NESTING_LIMIT && ItemsAt(c, s, p, d, before).Some?
    ensures xs != [] && ItemsWell(c, xs) && At(s, p, ItemsSpelled(xs))
    ensures ItemsAt(c, s, p, d, before) == Some((Array(before + TreesOf(xs)), p + |ItemsSpelled(xs)|))
    decreases NESTING_LIMIT - d, 3, |s| - p
  {
    hide *;
    UnfoldItemsAt(c, s, p, d, before);
    var (v, k) := ItemAt(c, s, p, d).value;
    var x := ItemIsSource(c, s, p, d);
    var rest := [];
    ByteAtPosition(s, k);
    NoTrees();
    WellNothing(c);
    if s[k] == 44 {
      rest := ItemsAreSource(c, s, k + 1, d, before + [v]);
      AtConcat(s, k, [44], ItemsSpelled(rest));
    }
    xs := [x] + rest;
    SpelledMore(x, rest);
    WellMore(c, x, rest);
    AtConcat(s, p, ItemSpelled(x), if rest == [] then [93] else [44] + ItemsSpelled(rest));
    assert before + [v] + TreesOf(rest) == before + TreesOf(xs);
    assert before + [v] + [] == before + [v];
  }

  lemma ByteAtPosition(s: seq<byte>, k: nat)
    requires k < |s|
    ensures At(s, k, [s[k]])
  {
  }

  lemma SpelledMore(x: Item, rest: seq<Item>)
    ensures
      var xs := [x] + rest;
      && ItemsSpelled(xs) == ItemSpelled(x) + (if rest == [] then [93] else [44] + ItemsSpelled(rest))
      && TreesOf(xs) == [TreeOf(x.source)] + TreesOf(rest)
  {
    assert ([x] + rest)[1..] == rest;
  }

  lemma WellMore(c: Libc, x: Item, rest: seq<Item>)
    ensures ItemsWell(c, [x] + rest) <==> ItemWell(c, x) && ItemsWell(c, rest)
  {
    assert ([x] + rest)[1..] == rest;
  }

  lemma UnfoldArray(c: Libc, s: seq<byte>, i: nat, d: nat)
    requires Terminated(s) && i < |s| && d <= NESTING_LIMIT && ArrayAt(c, s, i, d).Some?
    ensures d < NESTING_LIMIT && i + 1 < |s| && s[i] == 91
    ensures
      var k := SkipBlanks(s, i + 1);
      ArrayAt(c, s, i, d) == if s[k] == 93 then Some((Array([]), k + 1)) else ItemsAt(c, s, k, d + 1, [])
  {
    hide ItemsAt;
  }

  lemma ListAt(c: Libc, s: seq<byte>, i: nat, k: nat, xs: seq<Item>) returns (t: Source)
    requires i + 1 <= k <= |s| && s[i] == 91 && Blank(s[i + 1..k]) && ItemsWell(c, xs) && At(s, k, ItemsSpelled(xs))
    ensures Well(c, t) && At(s, i, Spelled(t)) && TreeOf(t) == Array(TreesOf(xs))
    ensures i + |Spelled(t)| == k + |ItemsSpelled(xs)|
  {
    hide At, ItemsWell, ItemsSpelled, TreesOf;
    t := List(s[i + 1..k], xs);
    SliceAt(s, i + 1, k);
    ByteAtPosition(s, i);
    AtConcat(s, i + 1, s[i + 1..k], ItemsSpelled(xs));
    AtConcat(s, i, [91], s[i + 1..k] + ItemsSpelled(xs));
  }

  lemma {:induction false} ListIsSource(c: Libc, s: seq<byte>, i: nat, d: nat) returns (t: Source)
    requires Terminated(s) && i < |s| && d <= NESTING_LIMIT && ArrayAt(c, s, i, d).Some?
    ensures Well(c, t) && At(s, i, Spelled(t))
    ensures ArrayAt(c, s, i, d) == Some((TreeOf(t), i + |Spelled(t)|))
    decreases NESTING_LIMIT - d, 0, 0
  {
    hide *;
    UnfoldArray(c, s, i, d);
    var k := SkipBlanks(s, i + 1);
    SkippedAreBlank(s, i + 1);
    var xs := [];
    NoTrees();
    WellNothing(c);
    if s[k] == 93 {
      ByteAtPosition(s, k);
    } else {
      xs := ItemsAreSource(c, s, k, d + 1, []);
      assert [] + TreesOf(xs) == TreesOf(xs);
    }
    t := ListAt(c, s, i, k, xs);
  }

  lemma WellNothing(c: Libc)
    ensures ItemsWell(c, []) && EntriesWell(c, [])
  {
  }

  lemma NameIsText(s: seq<byte>, p: nat)
    requires Terminated(s) && p < |s| && NameAt(s, p).Some?
    ensures
      var q := SkipBlanks(s, p);
      && StringAt(s, q).Some? && StringAt(s, q).value.1 < |s|
      && var e := StringAt(s, q).value.1;
      && p <= q < e && StringText(s[q..e], NameAt(s, p).value.0)
      && s[SkipBlanks(s, e)] == COLON && NameAt(s, p).value.1 == SkipBlanks(s, e) + 1
  {
    hide SkipBlanks, StringText, UpToNul, StringAt;
    StringIsText(s, SkipBlanks(s, p));
    NotAtEnd(s, SkipBlanks(s, p));
  }

  lemma NotAtEnd(s: seq<byte>, i: nat)
    requires Terminated(s) && i < |s| && StringAt(s, i).Some?
    ensures StringAt(s, i).value.1 < |s|
  {
  }

  lemma {:induction false} EntryIsSource(c: Libc, s: seq<byte>, p: nat, d: nat) returns (e: Entry)
    requires Terminated(s) && p < |s| && d <= NESTING_LIMIT && MemberAt(c, s, p, d).Some?
    requires Closes(s[MemberAt(c, s, p, d).value.1])
    ensures EntryWell(c, e) && At(s, p, EntrySpelled(e))
    ensures MemberAt(c, s, p, d) == Some((Member(e.key, TreeOf(e.item.source)), p + |EntrySpelled(e)|))
    decreases NESTING_LIMIT - d, 3, 0
  {
    hide At, ItemAt, ItemWell, TreeOf, ItemSpelled, SkipBlanks, StringText, StringAt, NameAt, Blank, Closes;
    NameIsText(s, p);
    var q := SkipBlanks(s, p);
    var g := StringAt(s, q).value.1;
    var k := SkipBlanks(s, g);
    var x := ItemIsSource(c, s, k + 1, d);
    SkippedAreBlank(s, p);
    SkippedAreBlank(s, g);
    e := Entry(s[p..q], s[q..g], NameAt(s, p).value.0, s[g..k], x);
    SliceAt(s, p, q);
    SliceAt(s, q, g);
    SliceAt(s, g, k);
    ByteAtPosition(s, k);
    AtConcat(s, k, [58], ItemSpelled(x));
    AtConcat(s, g, e.gap, [58] + ItemSpelled(x));
    AtConcat(s, q, e.name, e.gap + ([58] + ItemSpelled(x)));
    AtConcat(s, p, e.before, e.name + (e.gap + ([58] + ItemSpelled(x))));
  }

  lemma EntriesMore(e: Entry, rest: seq<Entry>)
    ensures
      var es := [e] + rest;
      && EntriesSpelled(es) == EntrySpelled(e) + (if rest == [] then [125] else [44] + EntriesSpelled(rest))
      && MembersOf(es) == [Member(e.key, TreeOf(e.item.source))] + MembersOf(rest)
  {
    assert ([e] + rest)[1..] == rest;
  }

  lemma EntriesWellMore(c: Libc, e: Entry, rest: seq<Entry>)
    ensures EntriesWell(c, [e] + rest) <==> EntryWell(c, e) && EntriesWell(c, rest)
  {
    assert ([e] + rest)[1..] == rest;
  }

  lemma UnfoldMembersAt(c: Libc, s: seq<byte>, p: nat, d: nat, before: seq<Member>)
    requires Terminated(s) && p < |s| && d <= NESTING_LIMIT && MembersAt(c, s, p, d, before).Some?
    ensures MemberAt(c, s, p, d).Some?
    ensures
      var (m, k) := MemberAt(c, s, p, d).value;
      && p < k && k + 1 < |s| && Closes(s[k]) && (s[k] == 44 || s[k] == 125)
      && MembersAt(c, s, p, d, before) ==
        if s[k] == 44 then MembersAt(c, s, k + 1, d, before + [m]) else Some((Object(before + [m]), k + 1))
  {
    hide MemberAt;
  }

  lemma {:induction false} EntriesAreSource(c: Libc, s: seq<byte>, p: nat, d: nat, before: seq<Member>)
    returns (es: seq<Entry>)
    requires Terminated(s) && p < |s| && d <= NESTING_LIMIT && MembersAt(c, s, p, d, before).Some?
    ensures es != [] && EntriesWell(c, es) && At(s, p, EntriesSpelled(es))
    ensures MembersAt(c, s, p, d, before) == Some((Object(before + MembersOf(es)), p + |EntriesSpelled(es)|))
    decreases NESTING_LIMIT - d, 4, |s| - p
  {
    hide *;
    UnfoldMembersAt(c, s, p, d, before);
    var (m, k) := MemberAt(c, s, p, d).value;
    var e := EntryIsSource(c, s, p, d);
    var rest := [];
    ByteAtPosition(s, k);
    NoTrees();
    WellNothing(c);
    if s[k] == 44 {
      rest := EntriesAreSource(c, s, k + 1, d, before + [m]);
      AtConcat(s, k, [44], EntriesSpelled(rest));
    }
    es := [e] + rest;
    EntriesMore(e, rest);
    EntriesWellMore(c, e, rest);
    AtConcat(s, p, EntrySpelled(e), if rest == [] then [125] else [44] + EntriesSpelled(rest));
    assert before + [m] + MembersOf(rest) == before + MembersOf(es);
    assert before + [m] + [] == before + [m];
  }

  lemma UnfoldObject(c: Libc, s: seq<byte>, i: nat, d: nat)
    requires Terminated(s) && i < |s| && d <= NESTING_LIMIT && ObjectAt(c, s, i, d).Some?
    ensures d < NESTING_LIMIT && i + 1 < |s| && s[i] == 123
    ensures
      var k := SkipBlanks(s, i + 1);
      ObjectAt(c, s, i, d) == if s[k] == 125 then Some((Object([]), k + 1)) else MembersAt(c, s, k, d + 1, [])
  {
    hide MembersAt;
  }

  lemma DictAt(c: Libc, s: seq<byte>, i: nat, k: nat, es: seq<Entry>) returns (t: Source)
    requires i + 1 <= k <= |s| && s[i] == 123 && Blank(s[i + 1..k]) && EntriesWell(c, es)
    requires At(s, k, EntriesSpelled(es))
    ensures Well(c, t) && At(s, i, Spelled(t)) && TreeOf(t) == Object(MembersOf(es))
    ensures i + |Spelled(t)| == k + |EntriesSpelled(es)|
  {
    hide At, EntriesWell, EntriesSpelled, MembersOf;
    t := Dict(s[i + 1..k], es);
    SliceAt(s, i + 1, k);
    ByteAtPosition(s, i);
    AtConcat(s, i + 1, s[i + 1..k], EntriesSpelled(es));
    AtConcat(s, i, [123], s[i + 1..k] + EntriesSpelled(es));
  }

  lemma {:induction false} DictIsSource(c: Libc, s: seq<byte>, i: nat, d: nat) returns (t: Source)
    requires Terminated(s) && i < |s| && d <= NESTING_LIMIT && ObjectAt(c, s, i, d).Some?
    ensures Well(c, t) && At(s, i, Spelled(t))
    ensures ObjectAt(c, s, i, d) == Some((TreeOf(t), i + |Spelled(t)|))
    decreases NESTING_LIMIT - d, 0, 0
  {
    hide *;
    UnfoldObject(c, s, i, d);
    var k := SkipBlanks(s, i + 1);
    SkippedAreBlank(s, i + 1);
    var es := [];
    NoTrees();
    WellNothing(c);
    if s[k] == 125 {
      ByteAtPosition(s, k);
    } else {
      es := EntriesAreSource(c, s, k, d + 1, []);
      assert [] + MembersOf(es) == MembersOf(es);
    }
    t := DictAt(c, s, i, k, es);
  }

  /** Whatever is read as a value, and is not the beginning of a longer number, is such a
      text, and stands for the tree that is read. */
  lemma {:induction false} ValueIsSource(c: Libc, s: seq<byte>, i: nat, d: nat) returns (t: Source)
    requires Terminated(s) && i < |s| && d <= NESTING_LIMIT && ValueAt(c, s, i, d).Some?
    requires !NumberChar(s[ValueAt(c, s, i, d).value.1])
    ensures Well(c, t) && At(s, i, Spelled(t))
    ensures ValueAt(c, s, i, d) == Some((TreeOf(t), i + |Spelled(t)|))
    decreases NESTING_LIMIT - d, 1, 0
  {
    hide *;
    BracketOrBrace(c, s, i, d);
    if s[i] == LBRACKET {
      t := ListIsSource(c, s, i, d);
    } else if s[i] == LBRACE {
      t := DictIsSource(c, s, i, d);
    } else {
      var (v, e) := ValueAt(c, s, i, d).value;
      LeafIsSource(c, s, i, d);
      t := Leaf(s[i..e], v);
      SliceAt(s, i, e);
      LeafOf(c, s[i..e], v);
    }
  }

  lemma LeafOf(c: Libc, text: seq<byte>, value: Json)
    requires LeafText(c, text, value)
    ensures Well(c, Leaf(text, value)) && Spelled(Leaf(text, value)) == text && TreeOf(Leaf(text, value)) == value
  {
  }

  /* ---- Documents ---- */

  /** A text with a byte order mark in front of it, or without one. */
  predicate Mark(t: seq<byte>) {
    t == [] || t == [0xEF, 0xBB, 0xBF]
  }

  lemma TextAt(s: seq<byte>, text: seq<byte>)
    requires s == text + [0]
    ensures At(s, 0, text) && Terminated(s)
  {
  }

  lemma MarkFound(s: seq<byte>, mark: seq<byte>, before: seq<byte>, first: byte)
    requires Terminated(s) && Mark(mark) && Blank(before) && first != 0xEF && first > 32
    requires At(s, 0, mark) && At(s, |mark|, before) && |mark| + |before| < |s| && s[|mark| + |before|] == first
    ensures (if 4 < |s| && At(s, 0, BOM) then 3 else 0) == |mark|
  {
    if mark == [] && At(s, 0, BOM) {
      AtIndex(s, 0, BOM, 0);
      if before != [] {
        AtIndex(s, 0, before, 0);
      }
    }
  }

  /** The reader finds the end of the text behind white space and nothing else. */
  lemma {:induction false} BlankToEnd(s: seq<byte>, e: nat, rest: cstring)
    requires Terminated(s) && e + |rest| + 1 == |s| && At(s, e, rest)
    ensures s[SkipBlanks(s, e)] == 0 <==> Blank(rest)
    decreases |rest|
  {
    if rest != [] {
      AtIndex(s, e, rest, 0);
      AtConcat(s, e, [rest[0]], rest[1..]);
      assert rest == [rest[0]] + rest[1..];
      BlankToEnd(s, e + 1, rest[1..]);
    }
  }

  /** A document in the parser's terms. */
  lemma UnfoldDocument(c: Libc, text: cstring, strict: bool, q: nat)
    requires
      var s := text + [0];
      SkipBlanks(s, if 4 < |s| && At(s, 0, BOM) then 3 else 0) == q
    ensures
      var r := ValueAt(c, text + [0], q, 0);
      && (r.Some? ==> r.value.1 < |text| + 1)
      && Document(c, text, strict) ==
        if r.None? || (strict && (text + [0])[SkipBlanks(text + [0], r.value.1)] != 0) then None
        else Some(r.value.0)
  {
    hide ValueAt, SkipBlanks, At;
  }

  lemma DocumentParts(c: Libc, s: seq<byte>, mark: seq<byte>, before: seq<byte>, t: Source, rest: cstring)
    requires Mark(mark) && Blank(before) && Well(c, t)
    requires s == mark + (before + (Spelled(t) + rest)) + [0]
    ensures
      var q := |mark| + |before|;
      && Terminated(s) && At(s, q, Spelled(t)) && At(s, q + |Spelled(t)|, rest)
      && SkipBlanks(s, if 4 < |s| && At(s, 0, BOM) then 3 else 0) == q
  {
    hide Spelled, Well, SkipBlanks, At;
    var q := |mark| + |before|;
    TextAt(s, mark + (before + (Spelled(t) + rest)));
    AtConcat(s, 0, mark, before + (Spelled(t) + rest));
    AtConcat(s, |mark|, before, Spelled(t) + rest);
    AtConcat(s, q, Spelled(t), rest);
    SourceStart(c, t);
    AtIndex(s, q, Spelled(t), 0);
    SkipOver(s, |mark|, before);
    MarkFound(s, mark, before, Spelled(t)[0]);
  }

  lemma Limit()
    ensures NESTING_LIMIT == 1000
  {
  }

  lemma NoNumberBehind(s: seq<byte>, e: nat, rest: cstring)
    requires Terminated(s) && e + |rest| + 1 == |s| && At(s, e, rest) && (rest == [] || !NumberChar(rest[0]))
    ensures !NumberChar(s[e])
  {
    if rest != [] {
      AtIndex(s, e, rest, 0);
    }
  }

  /** The same for a value that stands at `q`, behind the mark and the white space. */
  lemma DocumentAt(c: Libc, text: cstring, strict: bool, t: Source, q: nat, rest: cstring)
    requires Well(c, t) && (rest == [] || !NumberChar(rest[0])) && q + |Spelled(t)| + |rest| == |text|
    requires
      var s := text + [0];
      && Terminated(s) && At(s, q, Spelled(t)) && At(s, q + |Spelled(t)|, rest)
      && SkipBlanks(s, if 4 < |s| && At(s, 0, BOM) then 3 else 0) == q
    ensures Document(c, text, strict) ==
      if Height(TreeOf(t)) <= NESTING_LIMIT && (strict ==> Blank(rest)) then Some(TreeOf(t)) else None
  {
    hide *;
    var s := text + [0];
    NoNumberBehind(s, q + |Spelled(t)|, rest);
    Limit();
    SourceRead(c, t, s, q, 0);
    UnfoldDocument(c, text, strict, q);
    BlankToEnd(s, q + |Spelled(t)|, rest);
  }

  /** Any value, with white space in front of it and anything behind it that does not make a
      number longer, is read as its tree, unless it nests deeper than the limit allows; a
      strict reader wants nothing but white space behind it. */
  lemma DocumentRead(c: Libc, mark: seq<byte>, before: seq<byte>, t: Source, rest: cstring, text: cstring, strict: bool)
    requires Mark(mark) && Blank(before) && Well(c, t) && (rest == [] || !NumberChar(rest[0]))
    requires text == mark + (before + (Spelled(t) + rest))
    ensures Document(c, text, strict) ==
      if Height(TreeOf(t)) <= 1000 && (strict ==> Blank(rest)) then Some(TreeOf(t)) else None
  {
    hide *;
    Limit();
    DocumentParts(c, text + [0], mark, before, t, rest);
    DocumentAt(c, text, strict, t, |mark| + |before|, rest);
  }

  lemma MarkOf(s: seq<byte>) returns (mark: seq<byte>)
    ensures Mark(mark) && |mark| == (if 4 < |s| && At(s, 0, BOM) then 3 else 0) && mark <= s
  {
    mark := if 4 < |s| && At(s, 0, BOM) then BOM else [];
  }

  /** What is read in a text, piece by piece. */
  lemma PiecesOf(text: seq<byte>, mark: seq<byte>, q: nat, e: nat, value: seq<byte>)
    requires mark <= text + [0] && |mark| <= q <= e <= |text| && At(text + [0], q, value) && e == q + |value|
    ensures
      var s := text + [0];
      && text == mark + s[|mark|..q] + value + s[e..|text|]
      && At(s, e, s[e..|text|]) && (0 !in text ==> 0 !in s[e..|text|])
  {
    var s := text + [0];
    assert s[..|text|] == text && s[..|mark|] == mark;
    assert s[..|text|] == s[..|mark|] + s[|mark|..q] + s[q..e] + s[e..|text|];
    assert s[e..|text|] == text[e..];
  }

  /** And a strict reader accepts nothing else. */
  lemma DocumentIsSource(c: Libc, text: cstring)
    returns (mark: seq<byte>, before: seq<byte>, t: Source, after: seq<byte>)
    requires Document(c, text, true).Some?
    ensures Mark(mark) && Blank(before) && Blank(after) && Well(c, t)
    ensures text == mark + before + Spelled(t) + after
    ensures Document(c, text, true) == Some(TreeOf(t)) && Height(TreeOf(t)) <= 1000
  {
    hide *;
    var s := text + [0];
    TextAt(s, text);
    Limit();
    mark := MarkOf(s);
    var q := SkipBlanks(s, |mark|);
    UnfoldDocument(c, text, true, q);
    var e := ValueAt(c, s, q, 0).value.1;
    EndOfValue(s, e);
    t := ValueIsSource(c, s, q, 0);
    before, after := s[|mark|..q], s[e..|text|];
    SkippedAreBlank(s, |mark|);
    PiecesOf(text, mark, q, e, Spelled(t));
    BlankToEnd(s, e, after);
    SourceRead(c, t, s, q, 0);
  }
}
