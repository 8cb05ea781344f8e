/** Removing double dots and repeated separators from a path, in place. */
module PathCleaner {
  import opened Bytes
  import opened JsonText
  import Url
  const DOT: byte := 46

  predicate Separator(b: byte) {
    b == SLASH || b == BACKSLASH
  }

  predicate TwoDots(s: seq<byte>, i: nat) {
    i + 1 < |s| && s[i] == DOT && s[i + 1] == DOT
  }

  /** What may stand behind a separator. */
  predicate Harmless(s: seq<byte>, i: nat) {
    !TwoDots(s, i) && (i < |s| ==> !Separator(s[i]))
  }

  predicate HarmlessBehindSeparators(s: seq<byte>) {
    forall k :: 0 <= k < |s| && Separator(s[k]) ==> Harmless(s, k + 1)
  }

  /** No two separators in a row, and no pair of dots at the start or behind a
      separator. */
  predicate Clean(s: seq<byte>) {
    !TwoDots(s, 0) && HarmlessBehindSeparators(s)
  }

  /* ---- What cleaning means ---- */

  /** Leading dots are dropped one by one as long as another one follows. */
  function AfterDots(s: seq<byte>, i: nat): (n: nat)
    ensures i <= n && !TwoDots(s, n) && (i <= |s| ==> n <= |s|)
    decreases |s| - i
  {
    if TwoDots(s, i) then AfterDots(s, i + 1) else i
  }

  /** Behind a separator, further separators and pairs of dots are dropped. */
  function AfterSeparator(s: seq<byte>, i: nat): (n: nat)
    ensures i <= n && Harmless(s, n) && (i <= |s| ==> n <= |s|)
    decreases |s| - i
  {
    if i < |s| && Separator(s[i]) then AfterSeparator(s, i + 1)
    else if TwoDots(s, i) then AfterSeparator(s, i + 2)
    else i
  }

  /** Where copying goes on behind the byte at `i`. */
  function Behind(s: seq<byte>, i: nat): (n: nat)
    requires i < |s|
    ensures i < n <= |s|
  {
    if Separator(s[i]) then AfterSeparator(s, i + 1) else i + 1
  }

  function Copied(s: seq<byte>, i: nat): seq<byte>
    decreases |s| - i
  {
    if i >= |s| then [] else [s[i]] + Copied(s, Behind(s, i))
  }

  function Cleaned(s: seq<byte>): seq<byte> {
    Copied(s, AfterDots(s, 0))
  }

  lemma UnfoldCopied(s: seq<byte>, i: nat)
    ensures Copied(s, i) == if i >= |s| then [] else [s[i]] + Copied(s, Behind(s, i))
  {
  }

  lemma UnfoldBehind(s: seq<byte>, i: nat)
    requires i < |s|
    ensures Behind(s, i) == if Separator(s[i]) then AfterSeparator(s, i + 1) else i + 1
  {
  }

  /* ---- The cleaned path is clean ---- */

  /** A copy starts as the path does where it is taken. */
  lemma SameStart(s: seq<byte>, i: nat)
    ensures TwoDots(Copied(s, i), 0) ==> TwoDots(s, i)
    ensures Harmless(s, i) ==> Harmless(Copied(s, i), 0)
  {
    UnfoldCopied(s, i);
    if i < |s| {
      UnfoldCopied(s, Behind(s, i));
    }
  }

  lemma {:induction false} CopiedIsClean(s: seq<byte>, i: nat)
    ensures HarmlessBehindSeparators(Copied(s, i))
    decreases |s| - i
  {
    if i < |s| {
      var n := Behind(s, i);
      var c, d := Copied(s, i), Copied(s, n);
      CopiedIsClean(s, n);
      SameStart(s, n);
      forall k | 0 <= k < |c| && Separator(c[k]) ensures Harmless(c, k + 1) {
        if k > 0 {
          assert Separator(d[k - 1]) && Harmless(d, k);
        }
      }
    }
  }

  lemma CleanedIsClean(s: seq<byte>)
    ensures Clean(Cleaned(s))
    ensures
      var c := Cleaned(s);
      && !([46, 46] <= c)
      && forall k :: 0 <= k < |c| && (c[k] == 47 || c[k] == 92) ==>
           !([47] <= c[k + 1..]) && !([92] <= c[k + 1..]) && !([46, 46] <= c[k + 1..])
  {
    CopiedIsClean(s, AfterDots(s, 0));
    SameStart(s, AfterDots(s, 0));
  }

  lemma {:induction false} CleanIsCopied(s: seq<byte>, i: nat)
    requires i <= |s| && HarmlessBehindSeparators(s)
    ensures Copied(s, i) == s[i..]
    decreases |s| - i
  {
    if i < |s| {
      assert Behind(s, i) == i + 1;
      CleanIsCopied(s, i + 1);
    }
  }

  /** The paths that cleaning leaves as they are, are the clean ones. */
  lemma UnchangedExactlyWhenClean(s: seq<byte>)
    ensures Cleaned(s) == s <==> Clean(s)
  {
    CleanedIsClean(s);
    if Clean(s) {
      CleanIsCopied(s, 0);
    }
  }

  lemma Idempotent(s: seq<byte>)
    ensures Cleaned(Cleaned(s)) == Cleaned(s)
  {
    CleanedIsClean(s);
    UnchangedExactlyWhenClean(Cleaned(s));
  }

  /** The bytes of `s` from `i` on that are neither dots nor separators. */
  function Names(s: seq<byte>, i: nat): seq<byte>
    decreases |s| - i
  {
    if i >= |s| then []
    else (if s[i] == DOT || Separator(s[i]) then [] else [s[i]]) + Names(s, i + 1)
  }

  lemma {:induction false} AfterDotsNames(s: seq<byte>, i: nat)
    ensures Names(s, AfterDots(s, i)) == Names(s, i)
    decreases |s| - i
  {
    if TwoDots(s, i) {
      AfterDotsNames(s, i + 1);
    }
  }

  lemma {:induction false} AfterSeparatorNames(s: seq<byte>, i: nat)
    ensures Names(s, AfterSeparator(s, i)) == Names(s, i)
    decreases |s| - i
  {
    if i < |s| && Separator(s[i]) {
      AfterSeparatorNames(s, i + 1);
    } else if TwoDots(s, i) {
      AfterSeparatorNames(s, i + 2);
      assert Names(s, i) == Names(s, i + 1) == Names(s, i + 2);
    }
  }

  lemma {:induction false} NamesShift(b: byte, d: seq<byte>, i: nat)
    ensures Names([b] + d, i + 1) == Names(d, i)
    decreases |d| - i
  {
    if i < |d| {
      NamesShift(b, d, i + 1);
    }
  }

  lemma UnfoldNames(s: seq<byte>, i: nat)
    ensures Names(s, i) ==
      if i >= |s| then []
      else (if s[i] == DOT || Separator(s[i]) then [] else [s[i]]) + Names(s, i + 1)
  {
  }

  lemma {:induction false} CopiedNames(s: seq<byte>, i: nat)
    ensures Names(Copied(s, i), 0) == Names(s, i)
    decreases |s| - i
  {
    hide *;
    UnfoldCopied(s, i);
    UnfoldNames(s, i);
    UnfoldNames(Copied(s, i), 0);
    if i < |s| {
      var n := Behind(s, i);
      UnfoldBehind(s, i);
      CopiedNames(s, n);
      NamesShift(s[i], Copied(s, n), 0);
      AfterSeparatorNames(s, i + 1);
    }
  }

  /** Nothing but dots and separators is lost. */
  lemma NamesKept(s: seq<byte>)
    ensures Names(Cleaned(s), 0) == Names(s, 0)
  {
    CopiedNames(s, AfterDots(s, 0));
    AfterDotsNames(s, 0);
  }

  /* ---- Cleaning as rewriting ---- */

  lemma {:induction false} AfterSeparatorShift(a: seq<byte>, b: seq<byte>, i: nat)
    ensures AfterSeparator(a + b, |a| + i) == |a| + AfterSeparator(b, i)
    decreases |b| - i
  {
    if i < |b| && Separator(b[i]) {
      AfterSeparatorShift(a, b, i + 1);
    } else if TwoDots(b, i) {
      AfterSeparatorShift(a, b, i + 2);
    }
  }

  lemma {:induction false} CopiedShift(a: seq<byte>, b: seq<byte>, i: nat)
    ensures Copied(a + b, |a| + i) == Copied(b, i)
    decreases |b| - i
  {
    hide Copied, AfterSeparator;
    UnfoldCopied(a + b, |a| + i);
    UnfoldCopied(b, i);
    if i < |b| {
      AfterSeparatorShift(a, b, i + 1);
      CopiedShift(a, b, Behind(b, i));
    }
  }

  lemma {:induction false} AfterDotsShift(b: byte, s: seq<byte>, i: nat)
    ensures AfterDots([b] + s, i + 1) == 1 + AfterDots(s, i)
    decreases |s| - i
  {
    if TwoDots(s, i) {
      AfterDotsShift(b, s, i + 1);
    }
  }

  /** What may be dropped behind a separator. */
  predicate Dropped(y: seq<byte>) {
    y == [47] || y == [92] || y == [46, 46]
  }

  lemma SkipDropped(a: seq<byte>, y: seq<byte>, b: seq<byte>)
    requires Dropped(y)
    ensures AfterSeparator(a + y + b, |a|) == AfterSeparator(a + y + b, |a| + |y|)
  {
  }

  lemma UnfoldAfterSeparator(s: seq<byte>, i: nat)
    ensures AfterSeparator(s, i) ==
      if i < |s| && Separator(s[i]) then AfterSeparator(s, i + 1)
      else if TwoDots(s, i) then AfterSeparator(s, i + 2)
      else i
  {
  }

  lemma CopiedBehind(p: seq<byte>, b: seq<byte>)
    ensures Copied(p + b, AfterSeparator(p + b, |p|)) == Copied(b, AfterSeparator(b, 0))
  {
    hide Copied, AfterSeparator;
    AfterSeparatorShift(p, b, 0);
    CopiedShift(p, b, AfterSeparator(b, 0));
  }

  /** If what is skipped behind the separator at `i` reaches the end of `p`. */
  lemma AtSeparator(s: seq<byte>, i: nat, p: seq<byte>, b: seq<byte>)
    requires i < |s| && (s[i] == 47 || s[i] == 92) && s == p + b
    requires AfterSeparator(s, i + 1) == AfterSeparator(s, |p|)
    ensures Copied(s, i) == [s[i]] + Copied(b, AfterSeparator(b, 0))
    ensures Copied(s, AfterSeparator(s, i)) == Copied(b, AfterSeparator(b, 0))
  {
    hide Copied, AfterSeparator;
    UnfoldCopied(s, i);
    UnfoldAfterSeparator(s, i);
    CopiedBehind(p, b);
  }

  lemma CopiedAtSeparator(p: seq<byte>, y: seq<byte>, b: seq<byte>, i: nat)
    requires |p| == i + 1 && (p[i] == 47 || p[i] == 92) && Dropped(y)
    ensures Copied(p + y + b, i) == Copied(p + b, i)
    ensures Copied(p + y + b, AfterSeparator(p + y + b, i)) == Copied(p + b, AfterSeparator(p + b, i))
  {
    hide *;
    SkipDropped(p, y, b);
    AtSeparator(p + y + b, i, p + y, b);
    AtSeparator(p + b, i, p, b);
  }

  /** In front of a separator that ends both beginnings the paths look alike. */
  lemma SameFront(p: seq<byte>, u: seq<byte>, v: seq<byte>, i: nat)
    requires i + 1 < |p| && (p[|p| - 1] == 47 || p[|p| - 1] == 92)
    ensures i + 1 < |p + u| && i + 1 < |p + v| && (p + u)[i] == (p + v)[i]
    ensures TwoDots(p + u, i) == TwoDots(p + v, i)
    ensures TwoDots(p + u, i) ==> i + 2 < |p|
  {
  }

  /** With or without what may be dropped, the rest is copied alike. */
  lemma {:induction false} CopiedAlike(p: seq<byte>, y: seq<byte>, b: seq<byte>, i: nat)
    requires i < |p| && (p[|p| - 1] == 47 || p[|p| - 1] == 92) && Dropped(y)
    ensures Copied(p + y + b, i) == Copied(p + b, i)
    ensures Copied(p + y + b, AfterSeparator(p + y + b, i)) == Copied(p + b, AfterSeparator(p + b, i))
    decreases |p| - i
  {
    hide *;
    if i + 1 == |p| {
      CopiedAtSeparator(p, y, b, i);
    } else {
      var s, t := p + y + b, p + b;
      Regroup(p, y, b);
      SameFront(p, y + b, b, i);
      CopiedAlike(p, y, b, i + 1);
      if TwoDots(s, i) {
        CopiedAlike(p, y, b, i + 2);
      }
      UnfoldAfterSeparator(s, i);
      UnfoldAfterSeparator(t, i);
      UnfoldBehind(s, i);
      UnfoldBehind(t, i);
      UnfoldCopied(s, i);
      UnfoldCopied(t, i);
    }
  }

  lemma {:induction false} DotsAlike(p: seq<byte>, u: seq<byte>, v: seq<byte>, i: nat)
    requires i < |p| && (p[|p| - 1] == 47 || p[|p| - 1] == 92)
    ensures AfterDots(p + u, i) == AfterDots(p + v, i) < |p|
    decreases |p| - i
  {
    if i + 1 < |p| {
      SameFront(p, u, v, i);
      if TwoDots(p + u, i) {
        DotsAlike(p, u, v, i + 1);
      }
    }
  }

  /** Cleaning is rewriting: anywhere in a path a separator or two dots behind a separator
      may be dropped, and at its start the first of two dots, without changing what the path
      is cleaned to. Where nothing can be dropped, the path is clean. */
  lemma Rewriting(a: seq<byte>, x: byte, y: seq<byte>, b: seq<byte>)
    ensures (x == 47 || x == 92) && (y == [47] || y == [92] || y == [46, 46]) ==>
      Cleaned(a + [x] + y + b) == Cleaned(a + [x] + b)
    ensures Cleaned([46, 46] + b) == Cleaned([46] + b)
  {
    if (x == 47 || x == 92) && Dropped(y) {
      var p := a + [x];
      Regroup(p, y, b);
      DotsAlike(p, y + b, b, 0);
      CopiedAlike(p, y, b, AfterDots(p + b, 0));
    }
    var s := [46] + b;
    assert [46, 46] + b == [46] + s;
    AfterDotsShift(46, s, 0);
    assert AfterDots([46] + s, 0) == AfterDots([46] + s, 1);
    CopiedShift([46], s, AfterDots(s, 0));
  }

  /* ---- Cleaning in place ---- */

  /** From position `s` on, the array still holds the text and its terminator. */
  predicate Unread(a: array<byte>, s: nat, text: cstring)
    reads a
  {
    && |text| < a.Length && s <= |text| && a[|text|] == 0
    && forall k :: s <= k < |text| ==> a[k] == text[k]
  }

  method SkipDots(a: array<byte>, ghost text: cstring) returns (s: nat)
    requires Unread(a, 0, text)
    ensures s == AfterDots(text, 0) && Unread(a, s, text)
  {
    s := 0;
    while a[s] == DOT && a[s + 1] == DOT
      invariant Unread(a, s, text) && AfterDots(text, s) == AfterDots(text, 0)
      decreases a.Length - s
    {
      s := s + 1;
    }
  }

  method SkipBehindSeparator(a: array<byte>, s: nat, ghost text: cstring) returns (s': nat)
    requires Unread(a, s, text)
    ensures s' == AfterSeparator(text, s) && Unread(a, s', text)
  {
    s' := s;
    while a[s'] != 0
      invariant s <= s' && Unread(a, s', text)
      invariant AfterSeparator(text, s') == AfterSeparator(text, s)
      decreases a.Length - s'
    {
      if Separator(a[s']) {
        s' := s' + 1;
      } else if a[s'] == DOT && a[s' + 1] == DOT {
        s' := s' + 2;
      } else {
        break;
      }
    }
  }

  /** Cleans a C string in place; the write position never passes the read position. */
  method RemoveDoubleDotsAndDoubleSlashes(a: array<byte>, ghost text: cstring)
    requires Unread(a, 0, text)
    modifies a
    ensures
      var c := Cleaned(text);
      |c| < a.Length && a[..|c|] == c && a[|c|] == 0
  {
    hide Copied, Behind;
    var s := SkipDots(a, text);
    var p := 0;
    while a[s] != 0
      invariant p <= s && Unread(a, s, text)
      invariant a[..p] + Copied(text, s) == Cleaned(text)
      decreases a.Length - s
    {
      ghost var before, next := a[..p], Behind(text, s);
      UnfoldBehind(text, s);
      UnfoldCopied(text, s);
      Regroup(before, [text[s]], Copied(text, next));
      a[p] := a[s];
      assert a[..p + 1] == before + [text[s]];
      s, p := s + 1, p + 1;
      if Separator(a[s - 1]) {
        s := SkipBehindSeparator(a, s, text);
      }
      assert s == next;
    }
    UnfoldCopied(text, s);
    a[p] := 0;
  }

  /* ---- From the request line to a path ---- */

  /** The bytes up to the first NUL from `i` on. */
  function UpToNul(s: seq<byte>, i: nat): (n: nat)
    requires i <= |s|
    ensures i <= n <= |s| && (n < |s| ==> s[n] == 0) && (forall k :: i <= k < n ==> s[k] != 0)
    decreases |s| - i
  {
    if i == |s| || s[i] == 0 then i else UpToNul(s, i + 1)
  }

  /** A request URI is decoded and cleaned in its own buffer: whatever was escaped in
      it, an escaped NUL too, the path that is left is clean. */
  method DecodeAndClean(a: array<byte>, ghost uri: cstring)
    requires a.Length == |uri| + 1 && a[..] == uri + [0]
    modifies a
    ensures
      var t := Url.Decode(uri, 0, false);
      var c := Cleaned(t[..UpToNul(t, 0)]);
      && Clean(c) && |c| < a.Length && a[..|c|] == c && a[|c|] == 0
  {
    assert a[..|uri|] == uri;
    ghost var t := Url.Decode(uri, 0, false);
    ghost var n := UpToNul(t, 0);
    Url.DecodeLength(uri, 0, false);
    var ret := Url.UrlDecode(a, a.Length - 1, a, false);
    assert a[ret] == 0 && forall k :: 0 <= k < n ==> a[k] == a[..ret][k] == t[k];
    assert a[n] == if n < |t| then a[..ret][n] else a[ret];
    CleanedIsClean(t[..n]);
    RemoveDoubleDotsAndDoubleSlashes(a, t[..n]);
  }
}
