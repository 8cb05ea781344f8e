/** Minifying any text that the parser accepts leaves its meaning. */
module JsonMinifyMeaning {
  import opened Bytes
  import opened Wrappers
  import opened JsonText
  import opened JsonString
  import opened JsonLiteral
  import opened JsonParse
  import opened JsonRoundTrip
  import opened JsonMinify

  /* ---- The minifier, followed step by step ---- */

  /** What has been written when the minifier stops, and whether it stops at the
      terminator. */
  datatype Run = Run(out: seq<byte>, ok: bool)

  function MinifiedRun(s: seq<byte>, i: nat, out: seq<byte>): (r: Run)
    requires Terminated(s)
    ensures out <= r.out
    ensures Minified(s, i, out) == if r.ok then Some(r.out) else None
    decreases |s| - i
  {
    if i >= |s| then Run(out, false)
    else if s[i] == 0 then Run(out, true)
    else if IsBlank(s[i]) then MinifiedRun(s, i + 1, out)
    else if s[i] == SLASH && s[i + 1] == SLASH then MinifiedRun(s, LineEnd(s, i + 1), out)
    else if s[i] == SLASH && s[i + 1] == STAR then
      var e := CommentEnd(s, i + 1);
      if e.None? then Run(out, false) else MinifiedRun(s, e.value, out)
    else if s[i] == QUOTE then
      var e := LiteralEnd(s, i + 1);
      if e.None? then Run(out, false) else MinifiedRun(s, e.value, out + s[i..e.value])
    else MinifiedRun(s, i + 1, out + [s[i]])
  }

  /** The buffer of a C string. */
  predicate Buffer(s: seq<byte>) {
    Terminated(s) && 0 !in s[..|s| - 1]
  }

  /** The minifier is at `i` and has written `w` bytes of what it leaves in all. */
  ghost predicate Here(s: seq<byte>, i: nat, r: Run, w: nat) {
    Buffer(s) && i < |s| && w <= |r.out| && MinifiedRun(s, i, r.out[..w]) == r
  }

  /** The buffer it leaves. */
  function Left(r: Run): (m: seq<byte>)
    ensures Terminated(m) && |m| == |r.out| + 1
  {
    r.out + [0]
  }

  lemma NotNul(s: seq<byte>, i: nat)
    requires Buffer(s) && i < |s|
    ensures s[i] == 0 <==> i == |s| - 1
  {
    assert i < |s| - 1 ==> s[i] == s[..|s| - 1][i];
  }

  /** The minifier copies `t` and goes on behind it. */
  lemma Copied(s: seq<byte>, i: nat, r: Run, w: nat, t: seq<byte>)
    requires Here(s, i, r, w) && i + |t| < |s|
    requires MinifiedRun(s, i, r.out[..w]) == MinifiedRun(s, i + |t|, r.out[..w] + t)
    ensures w + |t| <= |r.out| && Here(s, i + |t|, r, w + |t|) && At(Left(r), w, t)
  {
    hide MinifiedRun;
    var now := r.out[..w] + t;
    assert now <= MinifiedRun(s, i + |t|, now).out;
    assert r.out[..w + |t|] == now;
    assert Left(r)[w..w + |t|] == t;
  }

  lemma CopiesOne(s: seq<byte>, i: nat, r: Run, w: nat)
    requires Here(s, i, r, w) && s[i] != 0 && !IsBlank(s[i]) && s[i] != SLASH && s[i] != QUOTE
    ensures i + 1 < |s| && w < |r.out| && Here(s, i + 1, r, w + 1) && Left(r)[w] == s[i]
  {
    NotNul(s, i);
    Copied(s, i, r, w, [s[i]]);
  }

  lemma {:induction false} CopiesPlain(s: seq<byte>, i: nat, r: Run, w: nat, t: seq<byte>)
    requires Here(s, i, r, w) && At(s, i, t) && AllPlain(t)
    ensures i + |t| < |s| && w + |t| <= |r.out| && Here(s, i + |t|, r, w + |t|) && At(Left(r), w, t)
    decreases |t|
  {
    hide MinifiedRun;
    if t == [] {
      assert Left(r)[w..w] == [];
    } else {
      AtIndex(s, i, t, 0);
      CopiesOne(s, i, r, w);
      assert t == [t[0]] + t[1..];
      AtConcat(s, i, [t[0]], t[1..]);
      CopiesPlain(s, i + 1, r, w + 1, t[1..]);
      AtConcat(Left(r), w, [t[0]], t[1..]);
    }
  }

  /** No comment starts at `i`, and a string that starts there ends. */
  predicate Starts(s: seq<byte>, i: nat)
    requires i < |s|
  {
    s[i] != SLASH && (s[i] == QUOTE ==> LiteralEnd(s, i + 1).Some?)
  }

  lemma SkipsTwice(s: seq<byte>, p: nat)
    requires Terminated(s) && p < |s|
    ensures SkipBlanks(s, SkipBlanks(s, p)) == SkipBlanks(s, p)
  {
  }

  lemma StartsWith(s: seq<byte>, p: nat, r: Run, w: nat)
    requires Here(s, p, r, w) && s[p] > 32 && Starts(s, p)
    ensures Left(r)[w] == s[p]
  {
    if s[p] == QUOTE {
      var e := LiteralEnd(s, p + 1).value;
      assert r.out[..w] + s[p..e] <= r.out;
      assert (r.out[..w] + s[p..e])[w] == s[p];
    } else {
      assert r.out[..w] + [s[p]] <= r.out;
      assert (r.out[..w] + [s[p]])[w] == s[p];
    }
  }

  /** White space is skipped in both texts, and the same byte stands behind it. */
  lemma {:induction false} Skips(s: seq<byte>, p: nat, r: Run, w: nat) returns (w': nat)
    requires Here(s, p, r, w) && Starts(s, SkipBlanks(s, p))
    ensures w' == SkipBlanks(Left(r), w) && Here(s, SkipBlanks(s, p), r, w')
    ensures Left(r)[w'] == s[SkipBlanks(s, p)]
    decreases |s| - p
  {
    NotNul(s, p);
    if s[p] == 0 {
      w' := w;
      assert r.out[..w] == r.out;
    } else if s[p] > 32 {
      w' := w;
      StartsWith(s, p, r, w);
    } else if IsBlank(s[p]) {
      w' := Skips(s, p + 1, r, w);
    } else {
      CopiesOne(s, p, r, w);
      w' := Skips(s, p + 1, r, w + 1);
    }
  }

  /* ---- Strings ---- */

  lemma {:induction false} LiteralCloses(s: seq<byte>, p: nat)
    requires Buffer(s) && ClosingQuote(s, p).Some?
    ensures LiteralEnd(s, p) == Some(ClosingQuote(s, p).value + 1) && ClosingQuote(s, p).value + 1 < |s|
    decreases |s| - p
  {
    NotNul(s, p);
    if s[p] == QUOTE {
    } else if s[p] == BACKSLASH {
      NotNul(s, p + 1);
      LiteralCloses(s, p + 2);
    } else {
      LiteralCloses(s, p + 1);
    }
  }

  lemma LiteralRun(s: seq<byte>, i: nat, out: seq<byte>, t: seq<byte>)
    requires Terminated(s) && At(s, i, t) && t != [] && s[i] == QUOTE && LiteralEnd(s, i + 1) == Some(i + |t|)
    ensures MinifiedRun(s, i, out) == MinifiedRun(s, i + |t|, out + t)
  {
  }

  lemma CopiesLiteral(s: seq<byte>, i: nat, r: Run, w: nat, e: nat)
    requires Here(s, i, r, w) && s[i] == QUOTE && LiteralEnd(s, i + 1) == Some(e) && e < |s|
    ensures w + (e - i) <= |r.out| && Here(s, e, r, w + (e - i)) && At(Left(r), w, s[i..e])
  {
    hide MinifiedRun, LiteralEnd;
    var t := s[i..e];
    assert At(s, i, t) && Terminated(s) && w <= |r.out| && i + |t| == e;
    hide *;
    LiteralRun(s, i, r.out[..w], t);
    Copied(s, i, r, w, t);
  }

  lemma StringCloses(s: seq<byte>, i: nat)
    requires Buffer(s) && i < |s| && StringAt(s, i).Some?
    ensures
      var e := StringAt(s, i).value.1;
      Starts(s, i) && s[i] == QUOTE && LiteralEnd(s, i + 1) == Some(e) && i < e < |s| && At(s, i, s[i..e])
  {
    LiteralCloses(s, i + 1);
    hide LiteralEnd, Decode, ClosingQuote;
  }

  /** A literal is copied as it is. */
  lemma Strings(s: seq<byte>, i: nat, r: Run, w: nat) returns (w': nat)
    requires Here(s, i, r, w) && StringAt(s, i).Some?
    ensures Starts(s, i) && StringAt(s, i).value.1 < |s| && Here(s, StringAt(s, i).value.1, r, w')
    ensures w < w' && w < |r.out| && StringAt(Left(r), w) == Some((StringAt(s, i).value.0, w'))
  {
    hide MinifiedRun, Decode, ClosingQuote, StringAt, LiteralEnd, Starts, Buffer, At;
    StringCloses(s, i);
    var e := StringAt(s, i).value.1;
    w' := w + (e - i);
    CopiesLiteral(s, i, r, w, e);
    SameString(s, i, Left(r), w, s[i..e]);
  }

  /* ---- Numbers ---- */

  /** What stands behind a value in a text that the parser accepts. */
  predicate Ender(b: byte) {
    b == COMMA || b == RBRACKET || b == RBRACE || b == 0
  }

  lemma NotInRun(s: seq<byte>, e: nat)
    requires Buffer(s) && e < |s| && Ender(s[SkipBlanks(s, e)])
    ensures !NumberChar(s[e])
  {
    if s[e] > 32 {
      assert SkipBlanks(s, e) == e;
    }
  }

  lemma WholeRun(c: Libc, s: seq<byte>, i: nat)
    requires Buffer(s) && i < |s| && NumberAt(c, s, i).Some? && Ender(s[SkipBlanks(s, NumberAt(c, s, i).value.1)])
    ensures NumberAt(c, s, i).value.1 == i + NumberRun(s, i, NUMBER_ROOM)
  {
    hide NumberRun, NumberAt, NumberChar, SkipBlanks, IsLibc;
    NotInRun(s, NumberAt(c, s, i).value.1);
    NumberReadWhole(c, s, i);
  }

  lemma NumbersArePlain(t: seq<byte>)
    requires forall k :: 0 <= k < |t| ==> NumberChar(t[k])
    ensures AllPlain(t)
  {
  }

  lemma RunBytes(s: seq<byte>, i: nat)
    requires i <= |s|
    ensures
      var t := s[i..i + NumberRun(s, i, NUMBER_ROOM)];
      (forall k :: 0 <= k < |t| ==> NumberChar(t[k])) && AllPlain(t)
  {
    hide NumberRun;
    var t := s[i..i + NumberRun(s, i, NUMBER_ROOM)];
    forall k | 0 <= k < |t| ensures NumberChar(t[k]) {
      RunIsNumber(s, i, NUMBER_ROOM, k);
      assert t[k] == s[i + k];
    }
    NumbersArePlain(t);
  }

  lemma SameNumber(c: Libc, s: seq<byte>, i: nat, m: seq<byte>, w: nat)
    requires Buffer(s) && i < |s| && NumberAt(c, s, i).Some?
    requires NumberAt(c, s, i).value.1 == i + NumberRun(s, i, NUMBER_ROOM)
    requires
      var n := NumberRun(s, i, NUMBER_ROOM);
      Terminated(m) && At(m, w, s[i..i + n]) && w + n < |m| && !NumberChar(m[w + n])
    ensures NumberAt(c, m, w) == Some((NumberAt(c, s, i).value.0, w + NumberRun(s, i, NUMBER_ROOM)))
  {
    hide NumberRun, NumberAt, IsLibc;
    var n := NumberRun(s, i, NUMBER_ROOM);
    var t := s[i..i + n];
    assert At(s, i, t) && Terminated(s);
    RunBytes(s, i);
    hide AllPlain, At, Buffer;
    NumberRunOf(m, w, t, NUMBER_ROOM);
    hide NumberChar;
    NumberIs(c, s, i, t);
    NumberIs(c, m, w, t);
  }

  lemma CopiesRun(s: seq<byte>, i: nat, r: Run, w: nat)
    requires Here(s, i, r, w)
    ensures
      var n := NumberRun(s, i, NUMBER_ROOM);
      && i + n < |s| && w + n <= |r.out| && Here(s, i + n, r, w + n) && At(Left(r), w, s[i..i + n])
  {
    hide NumberRun, MinifiedRun;
    var t := s[i..i + NumberRun(s, i, NUMBER_ROOM)];
    RunBytes(s, i);
    assert At(s, i, t);
    hide *;
    CopiesPlain(s, i, r, w, t);
  }

  /** A number that is followed by white space and the end of a value is read to the end of
      its run, copied, and read again. */
  lemma Numbers(c: Libc, s: seq<byte>, i: nat, r: Run, w: nat) returns (w': nat)
    requires Here(s, i, r, w) && NumberAt(c, s, i).Some? && Ender(s[SkipBlanks(s, NumberAt(c, s, i).value.1)])
    ensures w < |r.out| && Here(s, NumberAt(c, s, i).value.1, r, w')
    ensures NumberAt(c, Left(r), w) == Some((NumberAt(c, s, i).value.0, w'))
  {
    hide MinifiedRun, NumberRun, NumberAt, IsLibc;
    var n, e := NumberRun(s, i, NUMBER_ROOM), NumberAt(c, s, i).value.1;
    WholeRun(c, s, i);
    CopiesRun(s, i, r, w);
    w' := w + n;
    var q := Skips(s, e, r, w');
    assert !NumberChar(Left(r)[w']);
    SameNumber(c, s, i, Left(r), w);
  }

  /* ---- Values ---- */

  /** A value starts with none of the bytes that the minifier takes for white space or a
      comment. */
  lemma ValueStarts(c: Libc, s: seq<byte>, i: nat, d: nat)
    requires Buffer(s) && i < |s| && d <= NESTING_LIMIT && ValueAt(c, s, i, d).Some?
    ensures s[i] > 32 && Starts(s, i) && SkipBlanks(s, i) == i && s[i] != RBRACKET && s[i] != RBRACE
  {
    hide ArrayAt, ObjectAt, NumberAt;
    NotALiteral(s, i);
    if s[i] == QUOTE {
      LiteralCloses(s, i + 1);
    }
  }

  /** In both texts stands the same byte, which is not white space. */
  lemma Next(s: seq<byte>, i: nat, r: Run, w: nat)
    requires Here(s, i, r, w) && s[i] > 32 && Starts(s, i) && s[i] != QUOTE
    ensures i + 1 < |s| && w < |r.out| && Left(r)[w] == s[i] && Here(s, i + 1, r, w + 1)
  {
    CopiesOne(s, i, r, w);
  }

  lemma Literals(s: seq<byte>, i: nat, r: Run, w: nat, t: seq<byte>)
    requires Here(s, i, r, w) && At(s, i, t) && (t == NULL_TEXT || t == FALSE_TEXT || t == TRUE_TEXT)
    ensures w + |t| <= |r.out| && Here(s, i + |t|, r, w + |t|) && At(Left(r), w, t)
    ensures Left(r)[w] == t[0] == s[i]
  {
    CopiesPlain(s, i, r, w, t);
    AtIndex(Left(r), w, t, 0);
    AtIndex(s, i, t, 0);
  }

  lemma LiteralValue(c: Libc, s: seq<byte>, i: nat, d: nat, r: Run, w: nat, t: seq<byte>)
    requires Here(s, i, r, w) && d <= NESTING_LIMIT && At(s, i, t)
    requires t == NULL_TEXT || t == FALSE_TEXT || t == TRUE_TEXT
    ensures
      var v := if t == NULL_TEXT then Null else if t == FALSE_TEXT then False else True;
      && w + |t| <= |r.out| && Here(s, i + |t|, r, w + |t|)
      && ValueAt(c, s, i, d) == Some((v, i + |t|)) && ValueAt(c, Left(r), w, d) == Some((v, w + |t|))
  {
    hide At, ArrayAt, ObjectAt, NumberAt, StringAt, Here;
    Literals(s, i, r, w, t);
    NotALiteral(s, i);
    NotALiteral(Left(r), w);
  }

  lemma ItemsStartAt(c: Libc, s: seq<byte>, k: nat, d: nat, before: seq<Json>)
    requires Buffer(s) && k < |s| && d <= NESTING_LIMIT && SkipBlanks(s, k) == k && ItemsAt(c, s, k, d, before).Some?
    ensures Starts(s, k)
  {
    hide ValueAt, Starts;
    ValueStarts(c, s, k, d);
  }

  lemma {:induction false} Items(c: Libc, s: seq<byte>, p: nat, d: nat, before: seq<Json>, r: Run, w: nat)
    returns (w': nat)
    requires Here(s, p, r, w) && d <= NESTING_LIMIT && ItemsAt(c, s, p, d, before).Some?
    ensures ItemsAt(c, Left(r), w, d, before) == Some((ItemsAt(c, s, p, d, before).value.0, w'))
    ensures Here(s, ItemsAt(c, s, p, d, before).value.1, r, w')
    decreases NESTING_LIMIT - d, 3, |s| - p
  {
    hide ItemAt, MinifiedRun;
    var (v, k) := ItemAt(c, s, p, d).value;
    var q := Item(c, s, p, d, r, w);
    Next(s, k, r, q);
    if s[k] == COMMA {
      w' := Items(c, s, k + 1, d, before + [v], r, q + 1);
    } else {
      w' := q + 1;
    }
  }

  lemma {:induction false} Arrays(c: Libc, s: seq<byte>, i: nat, d: nat, r: Run, w: nat) returns (w': nat)
    requires Here(s, i, r, w) && d <= NESTING_LIMIT && s[i] == LBRACKET && ArrayAt(c, s, i, d).Some?
    ensures w < |r.out| && ArrayAt(c, Left(r), w, d) == Some((ArrayAt(c, s, i, d).value.0, w'))
    ensures Here(s, ArrayAt(c, s, i, d).value.1, r, w')
    decreases NESTING_LIMIT - d, 0, 0
  {
    hide ItemsAt, SkipBlanks, MinifiedRun;
    Next(s, i, r, w);
    var k := SkipBlanks(s, i + 1);
    if s[k] == RBRACKET {
      var q := Skips(s, i + 1, r, w + 1);
      Next(s, k, r, q);
      w' := q + 1;
    } else {
      SkipsTwice(s, i + 1);
      ItemsStartAt(c, s, k, d + 1, []);
      var q := Skips(s, i + 1, r, w + 1);
      w' := Items(c, s, k, d + 1, [], r, q);
    }
  }

  lemma MembersStartAt(c: Libc, s: seq<byte>, k: nat, d: nat, before: seq<Member>)
    requires Buffer(s) && k < |s| && d <= NESTING_LIMIT && SkipBlanks(s, k) == k && MembersAt(c, s, k, d, before).Some?
    ensures Starts(s, k)
  {
    hide ItemAt;
    LiteralCloses(s, k + 1);
  }

  lemma {:induction false} Members(c: Libc, s: seq<byte>, p: nat, d: nat, before: seq<Member>, r: Run, w: nat)
    returns (w': nat)
    requires Here(s, p, r, w) && d <= NESTING_LIMIT && MembersAt(c, s, p, d, before).Some?
    ensures MembersAt(c, Left(r), w, d, before) == Some((MembersAt(c, s, p, d, before).value.0, w'))
    ensures Here(s, MembersAt(c, s, p, d, before).value.1, r, w')
    decreases NESTING_LIMIT - d, 4, |s| - p
  {
    hide MemberAt, MinifiedRun;
    var (m, k) := MemberAt(c, s, p, d).value;
    var q := OneMember(c, s, p, d, r, w);
    Next(s, k, r, q);
    if s[k] == COMMA {
      w' := Members(c, s, k + 1, d, before + [m], r, q + 1);
    } else {
      w' := q + 1;
    }
  }

  lemma {:induction false} Objects(c: Libc, s: seq<byte>, i: nat, d: nat, r: Run, w: nat) returns (w': nat)
    requires Here(s, i, r, w) && d <= NESTING_LIMIT && s[i] == LBRACE && ObjectAt(c, s, i, d).Some?
    ensures w < |r.out| && ObjectAt(c, Left(r), w, d) == Some((ObjectAt(c, s, i, d).value.0, w'))
    ensures Here(s, ObjectAt(c, s, i, d).value.1, r, w')
    decreases NESTING_LIMIT - d, 0, 0
  {
    hide MembersAt, SkipBlanks, MinifiedRun;
    Next(s, i, r, w);
    var k := SkipBlanks(s, i + 1);
    if s[k] == RBRACE {
      var q := Skips(s, i + 1, r, w + 1);
      Next(s, k, r, q);
      w' := q + 1;
    } else {
      SkipsTwice(s, i + 1);
      MembersStartAt(c, s, k, d + 1, []);
      var q := Skips(s, i + 1, r, w + 1);
      w' := Members(c, s, k, d + 1, [], r, q);
    }
  }

  /** Whatever the parser reads as a value, it reads again in what the minifier leaves. */
  lemma {:induction false} Values(c: Libc, s: seq<byte>, i: nat, d: nat, r: Run, w: nat) returns (w': nat)
    requires Here(s, i, r, w) && d <= NESTING_LIMIT && ValueAt(c, s, i, d).Some?
    requires Ender(s[SkipBlanks(s, ValueAt(c, s, i, d).value.1)])
    ensures w < |r.out| && ValueAt(c, Left(r), w, d) == Some((ValueAt(c, s, i, d).value.0, w'))
    ensures Here(s, ValueAt(c, s, i, d).value.1, r, w')
    decreases NESTING_LIMIT - d, 1, 0
  {
    hide At, ArrayAt, ObjectAt, NumberAt, StringAt, SkipBlanks, MinifiedRun, Ender, Buffer;
    if At(s, i, NULL_TEXT) {
      LiteralValue(c, s, i, d, r, w, NULL_TEXT);
      w' := w + 4;
    } else if At(s, i, FALSE_TEXT) {
      LiteralValue(c, s, i, d, r, w, FALSE_TEXT);
      w' := w + 5;
    } else if At(s, i, TRUE_TEXT) {
      LiteralValue(c, s, i, d, r, w, TRUE_TEXT);
      w' := w + 4;
    } else {
      ValueStarts(c, s, i, d);
      StartsWith(s, i, r, w);
      NotALiteral(Left(r), w);
      if s[i] == QUOTE {
        w' := Strings(s, i, r, w);
      } else if s[i] == 45 || 48 <= s[i] <= 57 {
        w' := Numbers(c, s, i, r, w);
      } else if s[i] == LBRACKET {
        w' := Arrays(c, s, i, d, r, w);
      } else {
        w' := Objects(c, s, i, d, r, w);
      }
    }
  }

  lemma {:induction false} Item(c: Libc, s: seq<byte>, p: nat, d: nat, r: Run, w: nat) returns (w': nat)
    requires Here(s, p, r, w) && d <= NESTING_LIMIT && ItemAt(c, s, p, d).Some? && Ender(s[ItemAt(c, s, p, d).value.1])
    ensures ItemAt(c, Left(r), w, d) == Some((ItemAt(c, s, p, d).value.0, w'))
    ensures Here(s, ItemAt(c, s, p, d).value.1, r, w') && Left(r)[w'] == s[ItemAt(c, s, p, d).value.1]
    decreases NESTING_LIMIT - d, 2, 0
  {
    hide ValueAt, SkipBlanks, MinifiedRun;
    var q := SkipBlanks(s, p);
    ValueStarts(c, s, q, d);
    var w1 := Skips(s, p, r, w);
    var w2 := Values(c, s, q, d, r, w1);
    w' := Skips(s, ValueAt(c, s, q, d).value.1, r, w2);
  }

  lemma NameParts(s: seq<byte>, p: nat)
    requires Buffer(s) && p < |s| && NameAt(s, p).Some?
    ensures
      var q := SkipBlanks(s, p);
      && Starts(s, q) && StringAt(s, q).Some? && StringAt(s, q).value.1 < |s|
      && s[SkipBlanks(s, StringAt(s, q).value.1)] == COLON
      && NameAt(s, p).value.1 == SkipBlanks(s, StringAt(s, q).value.1) + 1
  {
    hide SkipBlanks, Decode;
    LiteralCloses(s, SkipBlanks(s, p) + 1);
  }

  lemma NameFrom(m: seq<byte>, w: nat, t: seq<byte>, e: nat)
    requires Terminated(m) && w < |m| && StringAt(m, SkipBlanks(m, w)) == Some((t, e)) && e < |m|
    requires m[SkipBlanks(m, e)] == COLON
    ensures NameAt(m, w) == Some((UpToNul(t), SkipBlanks(m, e) + 1))
  {
  }

  lemma ColonCopied(s: seq<byte>, i: nat, r: Run, w: nat)
    requires Here(s, i, r, w) && s[i] == COLON
    ensures i + 1 < |s| && w < |r.out| && Here(s, i + 1, r, w + 1)
  {
    Next(s, i, r, w);
  }

  lemma ColonStarts(s: seq<byte>, i: nat)
    requires i < |s| && s[i] == COLON
    ensures Starts(s, i)
  {
  }

  lemma StringThenColon(s: seq<byte>, q: nat, r: Run, w: nat, t: seq<byte>, e: nat) returns (w1: nat, w2: nat)
    requires Here(s, q, r, w) && StringAt(s, q) == Some((t, e)) && e < |s| && s[SkipBlanks(s, e)] == COLON
    ensures w < |Left(r)| && StringAt(Left(r), w) == Some((t, w1)) && w1 < |Left(r)|
    ensures Left(r)[SkipBlanks(Left(r), w1)] == COLON
    ensures w2 == SkipBlanks(Left(r), w1) + 1 && w2 <= |r.out| && Here(s, SkipBlanks(s, e) + 1, r, w2)
  {
    hide SkipBlanks, MinifiedRun, StringAt, Starts, Buffer;
    w1 := Strings(s, q, r, w);
    ColonStarts(s, SkipBlanks(s, e));
    var w3 := Skips(s, e, r, w1);
    ColonCopied(s, SkipBlanks(s, e), r, w3);
    w2 := w3 + 1;
  }

  lemma Name(s: seq<byte>, p: nat, r: Run, w: nat) returns (w': nat)
    requires Here(s, p, r, w) && NameAt(s, p).Some?
    ensures NameAt(Left(r), w) == Some((NameAt(s, p).value.0, w'))
    ensures w' <= |r.out| && Here(s, NameAt(s, p).value.1, r, w')
  {
    NameParts(s, p);
    var q := SkipBlanks(s, p);
    var (t, e) := StringAt(s, q).value;
    NameFrom(s, p, t, e);
    hide SkipBlanks, MinifiedRun, StringAt, NameAt, UpToNul, Starts, Buffer, At, ClosingQuote, Decode;
    var w1 := Skips(s, p, r, w);
    var w2;
    w2, w' := StringThenColon(s, q, r, w1, t, e);
    NameFrom(Left(r), w, t, w2);
  }

  lemma {:induction false} OneMember(c: Libc, s: seq<byte>, p: nat, d: nat, r: Run, w: nat) returns (w': nat)
    requires Here(s, p, r, w) && d <= NESTING_LIMIT && MemberAt(c, s, p, d).Some?
    requires Ender(s[MemberAt(c, s, p, d).value.1])
    ensures MemberAt(c, Left(r), w, d) == Some((MemberAt(c, s, p, d).value.0, w'))
    ensures Here(s, MemberAt(c, s, p, d).value.1, r, w') && Left(r)[w'] == s[MemberAt(c, s, p, d).value.1]
    decreases NESTING_LIMIT - d, 3, 0
  {
    hide NameAt, ItemAt, MinifiedRun;
    var q := Name(s, p, r, w);
    w' := Item(c, s, NameAt(s, p).value.1, d, r, q);
  }

  /* ---- Documents ---- */

  /** Where the white space before the value starts. */
  function Start(s: seq<byte>): (i: nat)
    requires Terminated(s)
    ensures i < |s|
  {
    if 4 < |s| && At(s, 0, BOM) then 3 else 0
  }

  lemma {:induction false} RunHasNoNul(s: seq<byte>, i: nat, out: seq<byte>)
    requires Buffer(s) && 0 !in out
    ensures 0 !in MinifiedRun(s, i, out).out
    decreases |s| - i
  {
    if i >= |s| || s[i] == 0 {
    } else if IsBlank(s[i]) {
      RunHasNoNul(s, i + 1, out);
    } else if s[i] == SLASH && s[i + 1] == SLASH {
      RunHasNoNul(s, LineEnd(s, i + 1), out);
    } else if s[i] == SLASH && s[i + 1] == STAR {
      var e := CommentEnd(s, i + 1);
      if e.Some? {
        RunHasNoNul(s, e.value, out);
      }
    } else if s[i] == QUOTE {
      var e := LiteralEnd(s, i + 1);
      if e.Some? {
        assert forall k :: i <= k < e.value && k < |s| - 1 ==> s[k] == s[..|s| - 1][k];
        assert 0 !in s[i..e.value];
        RunHasNoNul(s, e.value, out + s[i..e.value]);
      }
    } else {
      RunHasNoNul(s, i + 1, out + [s[i]]);
    }
  }

  /** A byte order mark is copied, and none appears. */
  lemma Mark(s: seq<byte>, r: Run)
    requires Here(s, 0, r, 0) && SkipBlanks(s, Start(s)) < |s| - 1
    requires var q := SkipBlanks(s, Start(s)); Starts(s, q) && s[q] != 0xEF
    ensures Here(s, Start(s), r, Start(s)) && Start(Left(r)) == Start(s)
  {
    var q := SkipBlanks(s, Start(s));
    NotNul(s, q);
    if Start(s) == 3 {
      CopiesPlain(s, 0, r, 0, BOM);
      var w := Skips(s, 3, r, 3);
      assert Left(r)[w] != 0;
    } else {
      var w := Skips(s, 0, r, 0);
      if At(Left(r), 0, BOM) {
        AtIndex(Left(r), 0, BOM, 0);
      }
    }
  }

  lemma FirstByte(c: Libc, s: seq<byte>, i: nat)
    requires Terminated(s) && i < |s| && ValueAt(c, s, i, 0).Some?
    ensures s[i] != 0xEF && s[i] != 0
  {
    NotALiteral(s, i);
  }

  /** At the terminator the minifier stops, having written all. */
  lemma AtEnd(s: seq<byte>, r: Run, w: nat)
    requires |s| > 0 && Here(s, |s| - 1, r, w)
    ensures r.ok && w == |r.out|
  {
  }

  /** Any text that the parser accepts strictly is minified without running past its end,
      and what is left is accepted strictly and is the same tree. */
  lemma MinifyKeepsMeaning(c: Libc, text: cstring)
    requires Document(c, text, true).Some?
    ensures Minified(text + [0], 0, []).Some? && 0 !in Minified(text + [0], 0, []).value
    ensures Document(c, Minified(text + [0], 0, []).value, true) == Document(c, text, true)
  {
    var s := text + [0];
    assert s[..|s| - 1] == text;
    var r := MinifiedRun(s, 0, []);
    assert r.out[..0] == [];
    RunHasNoNul(s, 0, []);
    hide MinifiedRun, ValueAt;
    var q := SkipBlanks(s, Start(s));
    ValueStarts(c, s, q, 0);
    FirstByte(c, s, q);
    NotNul(s, q);
    Mark(s, r);
    var w1 := Skips(s, Start(s), r, Start(s));
    var e := ValueAt(c, s, q, 0).value.1;
    var w2 := Values(c, s, q, 0, r, w1);
    var w3 := Skips(s, e, r, w2);
    NotNul(s, SkipBlanks(s, e));
    AtEnd(s, r, w3);
    assert FirstValue(c, r.out) == Some((ValueAt(c, s, q, 0).value.0, w2));
  }
}
