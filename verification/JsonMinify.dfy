/** The in-place minifier turns formatted text into unformatted text. */
module JsonMinify {
  import opened Bytes
  import opened Wrappers
  import opened JsonText
  import opened JsonParse

  predicate IsBlank(b: byte) {
    b == SPACE || b == TAB || b == CR || b == LF
  }

  /** Where a line comment, being read at `p`, ends. */
  function LineEnd(s: seq<byte>, p: nat): (e: nat)
    requires p <= |s|
    ensures p <= e <= |s|
    decreases |s| - p
  {
    if p < |s| && s[p] != 0 && s[p] != LF then LineEnd(s, p + 1) else p
  }

  /** Behind a block comment that is being read at `p`. */
  function CommentEnd(s: seq<byte>, p: nat): (e: Option<nat>)
    ensures e.Some? ==> p < e.value <= |s| && s[e.value - 1] == SLASH
    decreases |s| - p
  {
    if p + 1 >= |s| || s[p] == 0 then None
    else if s[p] == STAR && s[p + 1] == SLASH then Some(p + 2)
    else CommentEnd(s, p + 1)
  }

  /** Behind the closing quote of a string that is being read at `p`. */
  function LiteralEnd(s: seq<byte>, p: nat): (e: Option<nat>)
    ensures e.Some? ==> p < e.value <= |s| && s[e.value - 1] == QUOTE
    decreases |s| - p
  {
    if p >= |s| || s[p] == 0 then None
    else if s[p] == QUOTE then Some(p + 1)
    else if s[p] == BACKSLASH then
      if p + 1 >= |s| || s[p + 1] == 0 then None else LiteralEnd(s, p + 2)
    else LiteralEnd(s, p + 1)
  }

  /** What the minifier leaves of `s` from `i` on, behind what it has written so far;
      nothing if an unterminated string or block comment leads it past the terminator. */
  function Minified(s: seq<byte>, i: nat, out: seq<byte>): (r: Option<seq<byte>>)
    requires Terminated(s)
    decreases |s| - i
  {
    if i >= |s| then None
    else if s[i] == 0 then Some(out)
    else if IsBlank(s[i]) then Minified(s, i + 1, out)
    else if s[i] == SLASH && s[i + 1] == SLASH then Minified(s, LineEnd(s, i + 1), out)
    else if s[i] == SLASH && s[i + 1] == STAR then
      var e := CommentEnd(s, i + 1);
      if e.None? then None else Minified(s, e.value, out)
    else if s[i] == QUOTE then
      var e := LiteralEnd(s, i + 1);
      if e.None? then None else Minified(s, e.value, out + s[i..e.value])
    else Minified(s, i + 1, out + [s[i]])
  }

  lemma StillEqual(a: seq<byte>, b: seq<byte>, r: nat, r': nat)
    requires r <= r' <= |a| == |b| && a[r..] == b[r..]
    ensures a[r'..] == b[r'..]
  {
    assert a[r'..] == a[r..][r' - r..] && b[r'..] == b[r..][r' - r..];
  }

  method SkipLine(json: array<byte>, r: nat, ghost s: seq<byte>) returns (r': nat)
    requires Terminated(s) && |s| == json.Length && r + 1 < json.Length && json[r..] == s[r..]
    requires json[r] == json[r + 1] == SLASH
    ensures r' == LineEnd(s, r + 1) && r < r' < |s| && json[r'..] == s[r'..]
  {
    r' := r;
    while json[r'] != 0 && json[r'] != LF
      invariant r <= r' < |s| && LineEnd(s, r') == LineEnd(s, r + 1)
      decreases |s| - r'
    {
      assert json[r..][r' - r] == s[r..][r' - r];
      r' := r' + 1;
    }
    StillEqual(json[..], s, r, r');
  }

  /** Skips a block comment, unless that leads past the terminator. */
  method SkipComment(json: array<byte>, r: nat, ghost s: seq<byte>) returns (inside: bool, r': nat)
    requires Terminated(s) && |s| == json.Length && r + 1 < json.Length && json[r..] == s[r..]
    requires json[r] == SLASH && json[r + 1] == STAR
    ensures inside <==> CommentEnd(s, r + 1).Some?
    ensures inside ==> r < r' && r' == CommentEnd(s, r + 1).value && json[r'..] == s[r'..]
  {
    r' := r;
    while json[r'] != 0 && !(json[r'] == STAR && json[r' + 1] == SLASH)
      invariant r <= r' < |s| && CommentEnd(s, r') == CommentEnd(s, r + 1)
      decreases |s| - r'
    {
      assert json[r..][r' - r] == s[r..][r' - r];
      r' := r' + 1;
    }
    assert json[r..][r' - r] == s[r..][r' - r];
    if json[r'] == 0 {
      return false, r';
    }
    inside, r' := true, r' + 2;
    StillEqual(json[..], s, r, r');
  }

  /** Copies one character of a literal, or a backslash and the character behind it, unless
      that is the terminator. */
  method CopyCharacter(json: array<byte>, r: nat, w: nat, ghost s: seq<byte>)
    returns (inside: bool, r': nat, w': nat)
    requires Terminated(s) && |s| == json.Length && w <= r < json.Length && json[r..] == s[r..]
    requires json[r] != QUOTE && json[r] != 0
    modifies json
    ensures !inside ==> LiteralEnd(s, r).None?
    ensures inside ==> r < r' < |s| && LiteralEnd(s, r') == LiteralEnd(s, r) && json[r'..] == s[r'..]
    ensures inside ==> w' == w + (r' - r) && json[..w'] == old(json[..w]) + s[r..r']
  {
    assert json[r] == json[r..][0] == s[r];
    inside, r', w' := true, r, w;
    if json[r] == BACKSLASH {
      r', w' := CopyByte(json, r, w, s);
      assert json[r'] == json[r'..][0] == s[r'];
      if json[r'] == 0 {
        return false, r', w';
      }
    }
    r', w' := CopyByte(json, r', w', s);
  }

  lemma Extend(before: seq<byte>, s: seq<byte>, a: nat, b: nat, c: nat)
    requires a <= b <= c <= |s|
    ensures before + s[a..b] + s[b..c] == before + s[a..c]
  {
  }

  lemma StopsAtQuote(s: seq<byte>, r: nat)
    requires r < |s|
    ensures s[r] == 0 ==> LiteralEnd(s, r).None?
    ensures s[r] == QUOTE ==> LiteralEnd(s, r) == Some(r + 1)
  {
  }

  /** Copies a string literal down from `r` to `w`, unless that leads past the terminator. */
  method CopyLiteral(json: array<byte>, r: nat, w: nat, ghost s: seq<byte>)
    returns (inside: bool, r': nat, w': nat)
    requires Terminated(s) && |s| == json.Length && w <= r < json.Length && json[r..] == s[r..]
    requires json[r] == QUOTE
    modifies json
    ensures inside <==> LiteralEnd(s, r + 1).Some?
    ensures inside ==> r' == LiteralEnd(s, r + 1).value && json[r'..] == s[r'..]
    ensures inside ==> w' == w + (r' - r) && json[..w'] == old(json[..w]) + s[r..r']
  {
    hide LiteralEnd;
    ghost var before := json[..w];
    r', w' := CopyByte(json, r, w, s);
    inside := true;
    while json[r'] != 0 && json[r'] != QUOTE
      invariant r < r' < |s| && w' == w + (r' - r)
      invariant LiteralEnd(s, r') == LiteralEnd(s, r + 1)
      invariant json[r'..] == s[r'..] && json[..w'] == before + s[r..r']
      decreases |s| - r'
    {
      ghost var q := r';
      inside, r', w' := CopyCharacter(json, r', w', s);
      if !inside {
        return;
      }
      Extend(before, s, r, q, r');
    }
    StopsAtQuote(s, r');
    assert json[r'] == json[r'..][0] == s[r'];
    inside := json[r'] == QUOTE;
    if !inside {
      return;
    }
    Extend(before, s, r, r', r' + 1);
    r', w' := CopyByte(json, r', w', s);
  }

  /** Copies one byte down from `r` to `w`. */
  method CopyByte(json: array<byte>, r: nat, w: nat, ghost s: seq<byte>) returns (r': nat, w': nat)
    requires |s| == json.Length && w <= r < json.Length && json[r..] == s[r..]
    modifies json
    ensures r' == r + 1 && w' == w + 1
    ensures json[r'..] == s[r'..] && json[..w'] == old(json[..w]) + [s[r]]
  {
    assert json[r] == json[r..][0] == s[r];
    assert s[r + 1..] == s[r..][1..] && json[r + 1..] == json[r..][1..];
    json[w] := json[r];
    r', w' := r + 1, w + 1;
  }

  lemma UnfoldMinified(s: seq<byte>, i: nat, out: seq<byte>)
    requires Terminated(s) && i < |s|
    ensures Minified(s, i, out) ==
      if s[i] == 0 then Some(out)
      else if IsBlank(s[i]) then Minified(s, i + 1, out)
      else if s[i] == SLASH && s[i + 1] == SLASH then Minified(s, LineEnd(s, i + 1), out)
      else if s[i] == SLASH && s[i + 1] == STAR then
        var e := CommentEnd(s, i + 1);
        if e.None? then None else Minified(s, e.value, out)
      else if s[i] == QUOTE then
        var e := LiteralEnd(s, i + 1);
        if e.None? then None else Minified(s, e.value, out + s[i..e.value])
      else Minified(s, i + 1, out + [s[i]])
  {
  }

  /** Moves on by a blank, a comment, a literal or another byte. */
  method MinifyNext(json: array<byte>, r: nat, w: nat, ghost s: seq<byte>) returns (inside: bool, r': nat, w': nat)
    requires Terminated(s) && |s| == json.Length && w <= r < json.Length && json[r..] == s[r..] && json[r] != 0
    modifies json
    ensures !inside ==> Minified(s, r, old(json[..w])) == None
    ensures inside ==> w' <= r' && r < r' < |s| && json[r'..] == s[r'..]
    ensures inside ==> Minified(s, r', json[..w']) == Minified(s, r, old(json[..w]))
  {
    UnfoldMinified(s, r, json[..w]);
    hide Minified, LineEnd, CommentEnd, LiteralEnd;
    assert json[r] == json[r..][0] == s[r];
    inside, r', w' := true, r, w;
    if IsBlank(json[r]) {
      r' := r + 1;
      StillEqual(json[..], s, r, r');
    } else if json[r] == SLASH && json[r + 1] == SLASH {
      assert s[r + 1] == s[r..][1] == json[r..][1];
      r' := SkipLine(json, r, s);
    } else if json[r] == SLASH && json[r + 1] == STAR {
      assert s[r + 1] == s[r..][1] == json[r..][1];
      inside, r' := SkipComment(json, r, s);
    } else if json[r] == QUOTE {
      inside, r', w' := CopyLiteral(json, r, w, s);
    } else {
      assert s[r] == SLASH ==> s[r + 1] == s[r..][1] == json[r..][1];
      r', w' := CopyByte(json, r, w, s);
    }
  }

  /** Minifies a C string in place; false where the next step would read past the
      terminator, which is the case exactly for the texts without a minified form. */
  method Minify(json: array<byte>) returns (inside: bool)
    requires Terminated(json[..])
    modifies json
    ensures inside <==> Minified(old(json[..]), 0, []).Some?
    ensures inside ==>
      var m := Minified(old(json[..]), 0, []).value;
      |m| < json.Length && json[..|m|] == m && json[|m|] == 0
  {
    ghost var s, expected := json[..], Minified(json[..], 0, []);
    var r, w := 0, 0;
    while json[r] != 0
      invariant 0 <= w <= r < json.Length
      invariant json[r..] == s[r..]
      invariant expected == Minified(s, r, json[..w])
      decreases json.Length - r
    {
      inside, r, w := MinifyNext(json, r, w, s);
      if !inside {
        return;
      }
    }
    assert s[r] == s[r..][0] == json[r..][0];
    json[w] := 0;
    inside := true;
  }

  /* ---- Minifying printed text ---- */

  /** The minifier goes from `i` to the end of `t` and writes `u`. */
  ghost predicate Leaves(s: seq<byte>, i: nat, t: seq<byte>, u: seq<byte>)
    requires Terminated(s)
  {
    forall out :: Minified(s, i, out) == Minified(s, i + |t|, out + u)
  }

  lemma LeavesConcat(s: seq<byte>, i: nat, t: seq<byte>, u: seq<byte>, t': seq<byte>, u': seq<byte>)
    requires Terminated(s) && Leaves(s, i, t, u) && Leaves(s, i + |t|, t', u')
    ensures Leaves(s, i, t + t', u + u')
  {
    hide Minified;
    forall out ensures Minified(s, i, out) == Minified(s, i + |t + t'|, out + (u + u')) {
      assert Minified(s, i, out) == Minified(s, i + |t|, out + u);
      assert Minified(s, i + |t|, out + u) == Minified(s, i + |t| + |t'|, out + u + u');
      assert out + u + u' == out + (u + u');
    }
  }

  lemma LeavesNothing(s: seq<byte>, i: nat)
    requires Terminated(s)
    ensures Leaves(s, i, [], [])
  {
    forall out: seq<byte> ensures Minified(s, i, out) == Minified(s, i, out + []) {
      assert out + [] == out;
    }
  }

  lemma {:induction false} LeavesPlain(s: seq<byte>, i: nat, t: seq<byte>)
    requires Terminated(s) && At(s, i, t) && AllPlain(t)
    ensures Leaves(s, i, t, t)
    decreases |t|
  {
    LeavesNothing(s, i);
    if t == [] {
    } else {
      assert t == t[..1] + t[1..];
      AtConcat(s, i, t[..1], t[1..]);
      AtIndex(s, i, t, 0);
      assert [t[0]] == t[..1];
      assert Leaves(s, i, t[..1], t[..1]);
      LeavesPlain(s, i + 1, t[1..]);
      LeavesConcat(s, i, t[..1], t[..1], t[1..], t[1..]);
    }
  }

  lemma {:induction false} LeavesBlank(s: seq<byte>, i: nat, t: seq<byte>)
    requires Terminated(s) && At(s, i, t) && (forall k :: 0 <= k < |t| ==> IsBlank(t[k]))
    ensures Leaves(s, i, t, [])
    decreases |t|
  {
    LeavesNothing(s, i);
    if t == [] {
    } else {
      assert t == t[..1] + t[1..];
      AtConcat(s, i, t[..1], t[1..]);
      AtIndex(s, i, t, 0);
      forall out: seq<byte> ensures Minified(s, i, out) == Minified(s, i + 1, out + []) {
        assert out + [] == out;
      }
      assert Leaves(s, i, t[..1], []);
      LeavesBlank(s, i + 1, t[1..]);
      LeavesConcat(s, i, t[..1], [], t[1..], []);
    }
  }

  lemma EscapeEnd(s: seq<byte>, p: nat, b: byte)
    requires b != 0 && At(s, p, Escape(b))
    ensures LiteralEnd(s, p) == LiteralEnd(s, p + |Escape(b)|)
  {
    var e := Escape(b);
    forall k | 0 <= k < |e| ensures s[p + k] == e[k] { AtIndex(s, p, e, k); }
    assert s[p + 0] == e[0] && (|e| > 1 ==> s[p + 1] == e[1]);
    if |e| == 6 {
      assert s[p + 2] == e[2] && s[p + 3] == e[3] && s[p + 4] == e[4] && s[p + 5] == e[5];
      assert LiteralEnd(s, p + 2) == LiteralEnd(s, p + 4);
      assert LiteralEnd(s, p + 4) == LiteralEnd(s, p + 6);
    }
  }

  lemma {:induction false} EscapedEnd(s: seq<byte>, p: nat, t: cstring)
    requires At(s, p, Escaped(t)) && p + |Escaped(t)| < |s| && s[p + |Escaped(t)|] == QUOTE
    ensures LiteralEnd(s, p) == Some(p + |Escaped(t)| + 1)
    decreases |t|
  {
    hide At, Escape;
    if t == [] {
    } else {
      AtConcat(s, p, Escape(t[0]), Escaped(t[1..]));
      EscapeEnd(s, p, t[0]);
      EscapedEnd(s, p + |Escape(t[0])|, t[1..]);
    }
  }

  lemma LeavesLiteral(s: seq<byte>, i: nat, t: seq<byte>)
    requires Terminated(s) && At(s, i, t) && t != [] && s[i] == QUOTE && LiteralEnd(s, i + 1) == Some(i + |t|)
    ensures Leaves(s, i, t, t)
  {
    hide LiteralEnd;
  }

  lemma LeavesQuoted(s: seq<byte>, i: nat, t: cstring)
    requires Terminated(s) && At(s, i, Quoted(t))
    ensures Leaves(s, i, Quoted(t), Quoted(t))
  {
    hide At, Escaped, LiteralEnd, Leaves;
    AtConcat(s, i, [QUOTE] + Escaped(t), [QUOTE]);
    AtConcat(s, i, [QUOTE], Escaped(t));
    AtIndex(s, i, [QUOTE], 0);
    AtIndex(s, i + 1 + |Escaped(t)|, [QUOTE], 0);
    EscapedEnd(s, i + 1, t);
    LeavesLiteral(s, i, Quoted(t));
  }

  /** White space in front of a plain text. */
  lemma LeavesIndented(s: seq<byte>, i: nat, blanks: seq<byte>, t: seq<byte>)
    requires Terminated(s) && At(s, i, blanks + t) && AllPlain(t)
    requires forall k :: 0 <= k < |blanks| ==> IsBlank(blanks[k])
    ensures Leaves(s, i, blanks + t, t)
  {
    hide Leaves, At;
    AtConcat(s, i, blanks, t);
    LeavesBlank(s, i, blanks);
    LeavesPlain(s, i + |blanks|, t);
    LeavesConcat(s, i, blanks, [], t, t);
    assert [] + t == t;
  }

  /** White space behind a plain text. */
  lemma LeavesPadded(s: seq<byte>, i: nat, t: seq<byte>, blanks: seq<byte>)
    requires Terminated(s) && At(s, i, t + blanks) && AllPlain(t)
    requires forall k :: 0 <= k < |blanks| ==> IsBlank(blanks[k])
    ensures Leaves(s, i, t + blanks, t)
  {
    hide Leaves, At;
    AtConcat(s, i, t, blanks);
    LeavesPlain(s, i, t);
    LeavesBlank(s, i + |t|, blanks);
    LeavesConcat(s, i, t, t, blanks, []);
    assert t + [] == t;
  }

  lemma UnfoldItems(c: Libc, xs: seq<Json>, fmt: bool, d: nat)
    ensures ItemsText(c, xs, fmt, d) ==
      if xs == [] then [] else ItemText(c, xs[0], fmt, d, |xs| > 1) + ItemsText(c, xs[1..], fmt, d)
  {
  }

  lemma ItemStart(c: Libc, x: Json, fmt: bool, d: nat, more: bool, s: seq<byte>, i: nat)
    requires At(s, i, ItemText(c, x, fmt, d, more))
    ensures At(s, i, Text(c, x, fmt, d))
  {
    hide At, Text;
    AtConcat(s, i, Text(c, x, fmt, d), if more then ItemSeparator(fmt) else []);
  }

  /** An element and the separator behind it, if another element follows. */
  lemma LeavesItem(c: Libc, x: Json, fmt: bool, d: nat, d': nat, more: bool, s: seq<byte>, i: nat)
    requires Terminated(s) && At(s, i, ItemText(c, x, fmt, d, more))
    requires Leaves(s, i, Text(c, x, fmt, d), Text(c, x, false, d'))
    ensures Leaves(s, i, ItemText(c, x, fmt, d, more), ItemText(c, x, false, d', more))
  {
    hide Leaves, At, Text;
    var t, u := Text(c, x, fmt, d), Text(c, x, false, d');
    var sep, sep' := if more then ItemSeparator(fmt) else [], if more then [COMMA] else [];
    var space := if more && fmt then [SPACE] else [];
    AtConcat(s, i, t, sep);
    assert sep == sep' + space;
    LeavesPadded(s, i + |t|, sep', space);
    LeavesConcat(s, i, t, u, sep, sep');
  }

  lemma {:induction false} LeavesItems(c: Libc, xs: seq<Json>, fmt: bool, d: nat, d': nat, s: seq<byte>, i: nat)
    requires Terminated(s) && At(s, i, ItemsText(c, xs, fmt, d))
    ensures Leaves(s, i, ItemsText(c, xs, fmt, d), ItemsText(c, xs, false, d'))
    decreases xs, 0
  {
    hide Leaves, At, Text, ItemsText, ItemText;
    UnfoldItems(c, xs, fmt, d);
    UnfoldItems(c, xs, false, d');
    if xs == [] {
      LeavesNothing(s, i);
    } else {
      var more := |xs| > 1;
      var t, u := ItemText(c, xs[0], fmt, d, more), ItemText(c, xs[0], false, d', more);
      AtConcat(s, i, t, ItemsText(c, xs[1..], fmt, d));
      ItemStart(c, xs[0], fmt, d, more, s, i);
      LeavesText(c, xs[0], fmt, d, d', s, i);
      LeavesItem(c, xs[0], fmt, d, d', more, s, i);
      LeavesItems(c, xs[1..], fmt, d, d', s, i + |t|);
      LeavesConcat(s, i, t, u, ItemsText(c, xs[1..], fmt, d), ItemsText(c, xs[1..], false, d'));
    }
  }

  lemma LeavesName(key: cstring, fmt: bool, d: nat, d': nat, s: seq<byte>, i: nat)
    requires Terminated(s) && At(s, i, MemberName(key, fmt, d))
    ensures Leaves(s, i, MemberName(key, fmt, d), MemberName(key, false, d'))
  {
    hide Leaves, At, Tabs, Quoted;
    var tabs, blanks := if fmt then Tabs(d) else [], if fmt then [TAB] else [];
    assert MemberName(key, fmt, d) == tabs + Quoted(key) + ([COLON] + blanks);
    assert MemberName(key, false, d') == Quoted(key) + [COLON];
    AtConcat(s, i, tabs + Quoted(key), [COLON] + blanks);
    LeavesKey(key, tabs, d, fmt, s, i);
    LeavesColon(s, i, tabs + Quoted(key), Quoted(key), blanks);
  }

  lemma {:induction false} LeavesMember(
    c: Libc, m: Member, fmt: bool, d: nat, d': nat, more: bool, s: seq<byte>, i: nat)
    requires Terminated(s) && At(s, i, MemberText(c, m, fmt, d, more))
    ensures Leaves(s, i, MemberText(c, m, fmt, d, more), MemberText(c, m, false, d', more))
    decreases m, 3
  {
    hide Leaves, At, Text, Tabs, Quoted;
    var name, t, ending := MemberName(m.key, fmt, d), Text(c, m.value, fmt, d), MemberEnding(fmt, more);
    var name', u, ending' := MemberName(m.key, false, d'), Text(c, m.value, false, d'), MemberEnding(false, more);
    AtConcat(s, i, name + t, ending);
    AtConcat(s, i, name, t);
    LeavesName(m.key, fmt, d, d', s, i);
    LeavesText(c, m.value, fmt, d, d', s, i + |name|);
    LeavesConcat(s, i, name, name', t, u);
    assert ending == ending' + if fmt then [LF] else [];
    LeavesPadded(s, i + |name + t|, ending', if fmt then [LF] else []);
    LeavesConcat(s, i, name + t, name' + u, ending, ending');
  }

  lemma {:induction false} LeavesMembers(c: Libc, ms: seq<Member>, fmt: bool, d: nat, d': nat, s: seq<byte>, i: nat)
    requires Terminated(s) && At(s, i, MembersText(c, ms, fmt, d))
    ensures Leaves(s, i, MembersText(c, ms, fmt, d), MembersText(c, ms, false, d'))
    decreases ms, 0
  {
    hide Leaves, At, MemberText;
    if ms == [] {
      LeavesNothing(s, i);
    } else {
      var more := |ms| > 1;
      var t, u := MemberText(c, ms[0], fmt, d, more), MemberText(c, ms[0], false, d', more);
      AtConcat(s, i, t, MembersText(c, ms[1..], fmt, d));
      LeavesMember(c, ms[0], fmt, d, d', more, s, i);
      LeavesMembers(c, ms[1..], fmt, d, d', s, i + |t|);
      LeavesConcat(s, i, t, u, MembersText(c, ms[1..], fmt, d), MembersText(c, ms[1..], false, d'));
    }
  }

  lemma {:induction false} LeavesObject(c: Libc, ms: seq<Member>, fmt: bool, d: nat, d': nat, s: seq<byte>, i: nat)
    requires Terminated(s) && At(s, i, Text(c, Object(ms), fmt, d))
    ensures Leaves(s, i, Text(c, Object(ms), fmt, d), Text(c, Object(ms), false, d'))
    decreases ms, 1
  {
    hide Leaves, At, MembersText, Tabs;
    var opening, t, closing := ObjectOpening(fmt), MembersText(c, ms, fmt, d + 1), ObjectClosing(fmt, d);
    var u := MembersText(c, ms, false, d' + 1);
    AtConcat(s, i, opening + t, closing);
    AtConcat(s, i, opening, t);
    assert opening == [LBRACE] + if fmt then [LF] else [];
    LeavesPadded(s, i, [LBRACE], if fmt then [LF] else []);
    LeavesMembers(c, ms, fmt, d + 1, d' + 1, s, i + |opening|);
    LeavesConcat(s, i, opening, [LBRACE], t, u);
    OnlyTabs(d);
    LeavesIndented(s, i + |opening + t|, if fmt then Tabs(d) else [], [RBRACE]);
    LeavesConcat(s, i, opening + t, [LBRACE] + u, closing, [RBRACE]);
    assert ObjectClosing(false, d') == [RBRACE];
  }

  lemma {:induction false} LeavesText(c: Libc, j: Json, fmt: bool, d: nat, d': nat, s: seq<byte>, i: nat)
    requires Terminated(s) && At(s, i, Text(c, j, fmt, d))
    ensures Leaves(s, i, Text(c, j, fmt, d), Text(c, j, false, d'))
    decreases j, 1
  {
    hide Leaves, At, Quoted, ItemsText, MembersText, Tabs;
    match j
    case Null => LeavesPlain(s, i, NULL_TEXT);
    case False => LeavesPlain(s, i, FALSE_TEXT);
    case True => LeavesPlain(s, i, TRUE_TEXT);
    case Number(x) => LeavesPlain(s, i, c.sprintf(x));
    case String(t) => LeavesQuoted(s, i, t);
    case Array(xs) =>
      var t, u := ItemsText(c, xs, fmt, d + 1), ItemsText(c, xs, false, d' + 1);
      AtConcat(s, i, [LBRACKET] + t, [RBRACKET]);
      AtConcat(s, i, [LBRACKET], t);
      LeavesPlain(s, i, [LBRACKET]);
      LeavesItems(c, xs, fmt, d + 1, d' + 1, s, i + 1);
      LeavesConcat(s, i, [LBRACKET], [LBRACKET], t, u);
      LeavesPlain(s, i + 1 + |t|, [RBRACKET]);
      LeavesConcat(s, i, [LBRACKET] + t, [LBRACKET] + u, [RBRACKET], [RBRACKET]);
    case Object(ms) =>
      LeavesObject(c, ms, fmt, d, d', s, i);
  }

  lemma LeavesKey(key: cstring, tabs: seq<byte>, d: nat, fmt: bool, s: seq<byte>, i: nat)
    requires Terminated(s) && tabs == (if fmt then Tabs(d) else []) && At(s, i, tabs + Quoted(key))
    ensures Leaves(s, i, tabs + Quoted(key), Quoted(key))
  {
    hide Leaves, At, Tabs, Quoted;
    AtConcat(s, i, tabs, Quoted(key));
    OnlyTabs(d);
    LeavesBlank(s, i, tabs);
    LeavesQuoted(s, i + |tabs|, key);
    LeavesConcat(s, i, tabs, [], Quoted(key), Quoted(key));
    assert [] + Quoted(key) == Quoted(key);
  }

  lemma LeavesColon(s: seq<byte>, i: nat, name: seq<byte>, u: seq<byte>, blanks: seq<byte>)
    requires Terminated(s) && At(s, i, name + ([COLON] + blanks)) && Leaves(s, i, name, u)
    requires forall k :: 0 <= k < |blanks| ==> IsBlank(blanks[k])
    ensures Leaves(s, i, name + ([COLON] + blanks), u + [COLON])
  {
    hide Leaves, At;
    AtConcat(s, i, name, [COLON] + blanks);
    LeavesPadded(s, i + |name|, [COLON], blanks);
    LeavesConcat(s, i, name, u, [COLON] + blanks, [COLON]);
  }

  /** Minifying the text of a tree, formatted or not, leaves exactly its unformatted text. */
  lemma MinifyPrinted(c: Libc, j: Json, fmt: bool)
    ensures Minified(Printed(c, j, fmt) + [0], 0, []) == Some(Printed(c, j, false))
  {
    hide Text;
    var t := Printed(c, j, fmt);
    var s := t + [0];
    assert At(s, 0, t);
    LeavesText(c, j, fmt, 0, 0, s, 0);
    assert Minified(s, 0, []) == Minified(s, |t|, [] + Printed(c, j, false));
    assert [] + Printed(c, j, false) == Printed(c, j, false);
  }

  /* ---- Any text, part by part ---- */

  /** A part of a text: a blank, a line comment up to the end of its line, a block comment, a
      string literal, or any other byte. */
  datatype Part =
    | Blank(b: byte)
    | LineComment(t: seq<byte>)
    | BlockComment(t: seq<byte>)
    | Literal(t: seq<byte>)
    | Other(b: byte)

  /** Characters of a literal; a backslash takes the next one with it. */
  predicate Characters(t: seq<byte>)
    decreases |t|
  {
    if t == [] then true
    else if t[0] == 92 then |t| > 1 && t[1] != 0 && Characters(t[2..])
    else t[0] != 34 && t[0] != 0 && Characters(t[1..])
  }

  function Source(x: Part): (t: seq<byte>)
    ensures |t| > 0
  {
    match x
    case Blank(b) => [b]
    case LineComment(t) => [47, 47] + t
    case BlockComment(t) => [47] + t + [42, 47]
    case Literal(t) => [34] + t + [34]
    case Other(b) => [b]
  }

  /** What is kept of it. */
  function Kept(x: Part): seq<byte> {
    match x
    case Literal(t) => [34] + t + [34]
    case Other(b) => [b]
    case _ => []
  }

  /** The part stands in the text, with what it needs behind it. What a block comment holds
      begins with its star, which may be the one that ends it, too. */
  predicate Stands(s: seq<byte>, i: nat, x: Part) {
    && At(s, i, Source(x)) && i + |Source(x)| < |s|
    && var next := s[i + |Source(x)|];
    match x
    case Blank(b) => b == 32 || b == 9 || b == 13 || b == 10
    case LineComment(t) => 10 !in t && 0 !in t && (next == 10 || next == 0)
    case BlockComment(t) =>
      && 0 !in t && (t + [42])[0] == 42
      && forall k :: 0 <= k < |t| ==> !(t[k] == 42 && (t + [42])[k + 1] == 47)
    case Literal(t) => Characters(t)
    case Other(b) =>
      b != 0 && b != 32 && b != 9 && b != 13 && b != 10 && b != 34 && (b == 47 ==> next != 47 && next != 42)
  }

  predicate StandAll(s: seq<byte>, i: nat, xs: seq<Part>)
    decreases |xs|
  {
    if xs == [] then i < |s| && s[i] == 0
    else Stands(s, i, xs[0]) && StandAll(s, i + |Source(xs[0])|, xs[1..])
  }

  function KeptAll(xs: seq<Part>): seq<byte> {
    if xs == [] then [] else Kept(xs[0]) + KeptAll(xs[1..])
  }

  lemma {:induction false} LineEnds(s: seq<byte>, p: nat, t: seq<byte>)
    requires At(s, p, t) && p + |t| < |s| && 10 !in t && 0 !in t && (s[p + |t|] == 10 || s[p + |t|] == 0)
    ensures LineEnd(s, p) == p + |t|
    decreases |t|
  {
    if t == [] {
    } else {
      AtIndex(s, p, t, 0);
      AtConcat(s, p, [t[0]], t[1..]);
      assert [t[0]] + t[1..] == t;
      LineEnds(s, p + 1, t[1..]);
    }
  }

  lemma {:induction false} CommentEnds(s: seq<byte>, p: nat, t: seq<byte>)
    requires At(s, p, t + [42, 47]) && 0 !in t
    requires forall k :: 0 <= k < |t| ==> !(t[k] == 42 && (t + [42])[k + 1] == 47)
    ensures CommentEnd(s, p) == Some(p + |t| + 2)
    decreases |t|
  {
    AtIndex(s, p, t + [42, 47], 0);
    AtIndex(s, p, t + [42, 47], 1);
    if t == [] {
    } else {
      assert t + [42, 47] == [t[0]] + (t[1..] + [42, 47]);
      AtConcat(s, p, [t[0]], t[1..] + [42, 47]);
      assert (t + [42])[1] == (t + [42, 47])[1] == s[p + 1] && t[0] == s[p];
      assert forall k :: 0 <= k < |t| - 1 ==> t[1..][k] == t[k + 1] && (t[1..] + [42])[k + 1] == (t + [42])[k + 2];
      CommentEnds(s, p + 1, t[1..]);
    }
  }

  lemma {:induction false} LiteralEnds(s: seq<byte>, p: nat, t: seq<byte>)
    requires At(s, p, t + [34]) && Characters(t)
    ensures LiteralEnd(s, p) == Some(p + |t| + 1)
    decreases |t|
  {
    AtIndex(s, p, t + [34], 0);
    if t == [] {
    } else {
      var n := if t[0] == 92 then 2 else 1;
      AtIndex(s, p, t + [34], 1);
      assert t + [34] == t[..n] + (t[n..] + [34]);
      AtConcat(s, p, t[..n], t[n..] + [34]);
      LiteralEnds(s, p + n, t[n..]);
    }
  }

  /** How one step of the minifier goes on behind the part. */
  lemma PartPassed(s: seq<byte>, i: nat, x: Part)
    requires Terminated(s) && Stands(s, i, x)
    ensures i + 1 < |s| && s[i] == Source(x)[0] && s[i] != 0
    ensures x.LineComment? ==> s[i] == s[i + 1] == 47 && LineEnd(s, i + 1) == i + |Source(x)|
    ensures x.BlockComment? ==> s[i] == 47 && s[i + 1] == 42 && CommentEnd(s, i + 1) == Some(i + |Source(x)|)
    ensures x.Literal? ==> s[i] == 34 && LiteralEnd(s, i + 1) == Some(i + |Source(x)|)
  {
    hide LineEnd, CommentEnd, LiteralEnd, Characters;
    var t := Source(x);
    AtIndex(s, i, t, 0);
    match x
    case LineComment(u) =>
      AtIndex(s, i, t, 1);
      assert [47] + ([47] + u) == t;
      AtConcat(s, i, [47], [47] + u);
      LineEnds(s, i + 1, [47] + u);
    case BlockComment(u) =>
      Regroup([47], u, [42, 47]);
      AtConcat(s, i, [47], u + [42, 47]);
      AtIndex(s, i + 1, u + [42, 47], 0);
      CommentEnds(s, i + 1, u);
    case Literal(u) =>
      Regroup([34], u, [34]);
      AtConcat(s, i, [34], u + [34]);
      LiteralEnds(s, i + 1, u);
    case _ =>
  }

  /** What decides the step of the minifier at the part. */
  lemma PartShape(s: seq<byte>, i: nat, x: Part)
    requires Stands(s, i, x)
    ensures i + |Source(x)| < |s| && s[i..i + |Source(x)|] == Source(x) && i + 1 < |s| && s[i] == Source(x)[0] != 0
    ensures IsBlank(s[i]) <==> x.Blank?
    ensures x.Blank? || x.Other? ==> |Source(x)| == 1 && s[i] != QUOTE
    ensures x.Other? && s[i] == SLASH ==> s[i + 1] != SLASH && s[i + 1] != STAR
    ensures Kept(x) == if x.Literal? then Source(x) else if x.Other? then [s[i]] else []
  {
    hide Characters;
    AtIndex(s, i, Source(x), 0);
  }

  /** The minifier leaves of a part what is kept of it. */
  lemma LeavesPart(s: seq<byte>, i: nat, x: Part, out: seq<byte>)
    requires Terminated(s) && Stands(s, i, x)
    ensures Minified(s, i, out) == Minified(s, i + |Source(x)|, out + Kept(x))
  {
    hide Minified, LineEnd, CommentEnd, LiteralEnd, Characters, At, Stands, Source, Kept, IsBlank;
    PartPassed(s, i, x);
    PartShape(s, i, x);
    UnfoldMinified(s, i, out);
    assert out + [] == out;
  }

  /** A text of such parts is minified part by part. */
  lemma {:induction false} PartsMinified(s: seq<byte>, i: nat, xs: seq<Part>, out: seq<byte>)
    requires Terminated(s) && StandAll(s, i, xs)
    ensures Minified(s, i, out) == Some(out + KeptAll(xs))
    decreases |xs|
  {
    hide Stands, Source, Kept;
    if xs == [] {
      assert out + [] == out;
    } else {
      hide Minified;
      LeavesPart(s, i, xs[0], out);
      PartsMinified(s, i + |Source(xs[0])|, xs[1..], out + Kept(xs[0]));
      Regroup(out, Kept(xs[0]), KeptAll(xs[1..]));
    }
  }

  lemma {:induction false} LineBefore(s: seq<byte>, p: nat)
    requires Terminated(s) && p < |s|
    ensures
      var e := LineEnd(s, p);
      e < |s| && 10 !in s[p..e] && 0 !in s[p..e] && (s[e] == 10 || s[e] == 0)
    decreases |s| - p
  {
    if s[p] != 0 && s[p] != LF {
      LineBefore(s, p + 1);
      var e := LineEnd(s, p + 1);
      assert s[p..e] == [s[p]] + s[p + 1..e];
    }
  }

  lemma {:induction false} CommentBefore(s: seq<byte>, p: nat)
    requires CommentEnd(s, p).Some?
    ensures
      var e := CommentEnd(s, p).value;
      && p + 2 <= e && s[p..e - 2] + [42, 47] == s[p..e] && 0 !in s[p..e - 2]
      && forall k :: p <= k < e - 2 ==> !(s[k] == 42 && s[k + 1] == 47)
    decreases |s| - p
  {
    if s[p] == STAR && s[p + 1] == SLASH {
      assert s[p..p + 2] == [42, 47];
    } else {
      CommentBefore(s, p + 1);
      var e := CommentEnd(s, p + 1).value;
      assert s[p..e - 2] == [s[p]] + s[p + 1..e - 2] && s[p..e] == [s[p]] + s[p + 1..e];
    }
  }

  lemma {:induction false} LiteralBefore(s: seq<byte>, p: nat)
    requires LiteralEnd(s, p).Some?
    ensures
      var e := LiteralEnd(s, p).value;
      p < e <= |s| && s[e - 1] == 34 && s[p..e - 1] + [34] == s[p..e] && Characters(s[p..e - 1])
    decreases |s| - p
  {
    if s[p] == QUOTE {
      assert s[p..p + 1] == [34];
    } else {
      var n := if s[p] == BACKSLASH then 2 else 1;
      LiteralBefore(s, p + n);
      var e := LiteralEnd(s, p + n).value;
      assert s[p..e - 1][n..] == s[p + n..e - 1] && s[p..e] == s[p..p + n] + s[p + n..e];
      assert s[p..e - 1] == s[p..p + n] + s[p + n..e - 1];
    }
  }

  /** The bytes of a block comment behind its slash, up to `e`. */
  lemma InComment(s: seq<byte>, p: nat, e: nat)
    requires p + 2 <= e <= |s| && s[p] == 42 && s[p..e - 2] + [42, 47] == s[p..e]
    requires forall k :: p <= k < e - 2 ==> !(s[k] == 42 && s[k + 1] == 47)
    ensures s[e - 2] == 42 && s[e - 1] == 47
    ensures
      var t := s[p..e - 2];
      (t + [42])[0] == 42 && forall k :: 0 <= k < |t| ==> !(t[k] == 42 && (t + [42])[k + 1] == 47)
  {
    assert s[p..e][e - 2 - p] == 42 && s[p..e][e - 1 - p] == 47;
    var t := s[p..e - 2];
    forall k | 0 <= k < |t| ensures !(t[k] == 42 && (t + [42])[k + 1] == 47) {
      assert t[k] == s[p + k] && (t + [42])[k + 1] == s[p + k + 1];
    }
  }

  lemma StandsComment(s: seq<byte>, i: nat, t: seq<byte>)
    requires i + |t| + 3 < |s| && s[i] == 47 && s[i + 1..i + |t| + 3] == t + [42, 47]
    requires 0 !in t && (t + [42])[0] == 42
    requires forall k :: 0 <= k < |t| ==> !(t[k] == 42 && (t + [42])[k + 1] == 47)
    ensures Stands(s, i, BlockComment(t)) && |Source(BlockComment(t))| == |t| + 3
  {
    Regroup([47], t, [42, 47]);
    assert s[i..i + |t| + 3] == [47] + s[i + 1..i + |t| + 3];
  }

  lemma CommentStands(s: seq<byte>, i: nat, e: nat)
    requires Terminated(s) && i + 1 < |s| && s[i] == 47 && s[i + 1] == 42 && CommentEnd(s, i + 1) == Some(e)
    ensures i + 3 <= e && Stands(s, i, BlockComment(s[i + 1..e - 2]))
    ensures |Source(BlockComment(s[i + 1..e - 2]))| == e - i
  {
    hide CommentEnd, Stands, Source;
    CommentBefore(s, i + 1);
    InComment(s, i + 1, e);
    StandsComment(s, i, s[i + 1..e - 2]);
  }

  lemma LiteralStands(s: seq<byte>, i: nat, e: nat)
    requires Terminated(s) && i < |s| && s[i] == 34 && LiteralEnd(s, i + 1) == Some(e)
    ensures i + 2 <= e && Stands(s, i, Literal(s[i + 1..e - 1])) && |Source(Literal(s[i + 1..e - 1]))| == e - i
  {
    hide *;
    LiteralBefore(s, i + 1);
    EndsBefore(s, e);
    Quoting(s, i, e);
    StandsQuoted(s, i, s[i + 1..e - 1]);
  }

  lemma EndsBefore(s: seq<byte>, e: nat)
    requires Terminated(s) && 0 < e <= |s| && s[e - 1] != 0
    ensures e < |s|
  {
  }

  lemma Quoting(s: seq<byte>, i: nat, e: nat)
    requires i + 2 <= e <= |s| && s[i] == 34 && s[i + 1..e - 1] + [34] == s[i + 1..e]
    ensures [34] + s[i + 1..e - 1] + [34] == s[i..e]
  {
    assert s[i..e] == [34] + s[i + 1..e];
    Regroup([34], s[i + 1..e - 1], [34]);
  }

  lemma StandsQuoted(s: seq<byte>, i: nat, t: seq<byte>)
    requires i + |t| + 2 < |s| && s[i..i + |t| + 2] == [34] + t + [34] && Characters(t)
    ensures Stands(s, i, Literal(t)) && |Source(Literal(t))| == |t| + 2
  {
    hide Characters;
  }

  lemma LineStands(s: seq<byte>, i: nat)
    requires Terminated(s) && i + 1 < |s| && s[i] == s[i + 1] == 47
    ensures
      var e := LineEnd(s, i + 1);
      i + 2 <= e && Stands(s, i, LineComment(s[i + 2..e])) && |Source(LineComment(s[i + 2..e]))| == e - i
  {
    LineBefore(s, i + 1);
    var e := LineEnd(s, i + 1);
    hide LineEnd;
    assert s[i..e] == [47, 47] + s[i + 2..e] && s[i + 1..e] == [47] + s[i + 2..e];
  }

  /** The part that stands at a byte, if the minifier gets past it. */
  lemma PartAt(s: seq<byte>, i: nat, out: seq<byte>) returns (x: Part)
    requires Terminated(s) && i < |s| && s[i] != 0 && Minified(s, i, out).Some?
    ensures Stands(s, i, x)
  {
    UnfoldMinified(s, i, out);
    hide Minified, LineEnd, CommentEnd, LiteralEnd, Characters;
    if s[i] == 47 && s[i + 1] == 47 {
      LineStands(s, i);
      x := LineComment(s[i + 2..LineEnd(s, i + 1)]);
    } else if s[i] == 47 && s[i + 1] == 42 {
      var e := CommentEnd(s, i + 1).value;
      CommentStands(s, i, e);
      x := BlockComment(s[i + 1..e - 2]);
    } else if s[i] == 34 {
      var e := LiteralEnd(s, i + 1).value;
      LiteralStands(s, i, e);
      x := Literal(s[i + 1..e - 1]);
    } else if IsBlank(s[i]) {
      x := Blank(s[i]);
      assert s[i..i + 1] == [s[i]];
    } else {
      x := Other(s[i]);
      assert s[i..i + 1] == [s[i]];
    }
  }

  /** And every text that is minified consists of such parts. */
  lemma {:induction false} MinifiedIsParts(s: seq<byte>, i: nat, out: seq<byte>) returns (xs: seq<Part>)
    requires Terminated(s) && i < |s| && Minified(s, i, out).Some?
    ensures StandAll(s, i, xs) && Minified(s, i, out) == Some(out + KeptAll(xs))
    decreases |s| - i
  {
    hide Minified, Stands, Source, Kept;
    if s[i] == 0 {
      xs := [];
      PartsMinified(s, i, [], out);
    } else {
      var x := PartAt(s, i, out);
      LeavesPart(s, i, x, out);
      PartInside(s, i, x);
      var more := MinifiedIsParts(s, i + |Source(x)|, out + Kept(x));
      xs := [x] + more;
      assert xs[1..] == more;
      PartsMinified(s, i, xs, out);
    }
  }

  lemma PartInside(s: seq<byte>, i: nat, x: Part)
    requires Stands(s, i, x)
    ensures i + |Source(x)| < |s|
  {
  }
}
