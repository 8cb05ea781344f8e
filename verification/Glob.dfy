/** Matching the beginning of a string against a pattern with `?`, `*`, `**`, `$` and `|`. */
module Glob {
  import opened Bytes
  import opened Wrappers
  import opened Hex
  import opened JsonText
  const QUESTION: byte := 63
  const DOLLAR: byte := 36
  const BAR: byte := 124

  /** How long the run without a slash is that `s` starts with. */
  function Span(s: seq<byte>): (n: nat)
    ensures n <= |s| && (forall k :: 0 <= k < n ==> s[k] != SLASH) && (n < |s| ==> s[n] == SLASH)
  {
    if s == [] || s[0] == SLASH then 0
    else 1 + Span(s[1..])
  }

  /* ---- What a pattern without bars means ---- */

  /** The same character, but for the case of a letter. */
  predicate SameButCase(a: byte, b: byte) {
    a == b || (65 <= a <= 90 && b == a + 32) || (97 <= a <= 122 && b == a - 32)
  }

  /** A star at the start of `p` takes `n` characters: any if it is double, none of them a
      slash if it is single. */
  ghost predicate StarMatches(p: seq<byte>, s: seq<byte>, k: nat, n: nat)
    requires p != [] && n <= k && n <= |s|
    decreases |p|, 0
  {
    if |p| > 1 && p[1] == 42 then Matches(p[2..], s[n..], k - n)
    else (forall j :: 0 <= j < n ==> s[j] != 47) && Matches(p[1..], s[n..], k - n)
  }

  /** The pattern stands for the first `k` characters of `s`: `?` for any character, `*`
      for a run without a slash, `**` for any run, `$` for the end, whatever follows it, and
      everything else for itself in either case. */
  ghost predicate Matches(p: seq<byte>, s: seq<byte>, k: nat)
    decreases |p|
  {
    if p == [] then k == 0
    else if p[0] == 36 then k == 0 && s == []
    else if p[0] == 42 then exists n :: 0 <= n <= k && n <= |s| && StarMatches(p, s, k, n)
    else
      && k > 0 && s != []
      && (p[0] == 63 || SameButCase(p[0], s[0]))
      && Matches(p[1..], s[1..], k - 1)
  }

  /* ---- Which match is found ---- */

  /** How many characters a star at the start of `p` may take from `s`, and how long the
      star is itself. */
  function StarRoom(p: seq<byte>, s: seq<byte>): nat {
    if ByteAt(p, 1) == STAR then |s| else Span(s)
  }

  function StarLength(p: seq<byte>): nat {
    if ByteAt(p, 1) == STAR then 2 else 1
  }

  lemma StarTakes(p: seq<byte>, s: seq<byte>, k: nat, n: nat)
    requires p != [] && n <= k && n <= |s|
    ensures StarMatches(p, s, k, n) <==>
      n <= StarRoom(p, s) <= |s| && StarLength(p) <= |p| && Matches(p[StarLength(p)..], s[n..], k - n)
  {
    hide Matches;
    if n > Span(s) {
      assert s[Span(s)] == 47;
    }
  }

  /** The match behind a star that takes `n` characters, or else fewer. */
  function GreedyFrom(p: seq<byte>, s: seq<byte>, n: nat): Option<nat>
    requires n <= |s|
    decreases |p|, 2, n
  {
    var r := Greedy(p, s[n..]);
    if r.Some? then Some(n + r.value) else if n == 0 then None else GreedyFrom(p, s, n - 1)
  }

  /** The match of a pattern without bars in which every star, from the first one on,
      takes as much as it can. */
  function Greedy(p: seq<byte>, s: seq<byte>): (r: Option<nat>)
    decreases |p|, 1, 0
  {
    if p == [] then Some(0)
    else if p[0] == DOLLAR then if s == [] then Some(0) else None
    else if p[0] == STAR then
      if StarLength(p) == |p| then Some(StarRoom(p, s))
      else GreedyFrom(p[StarLength(p)..], s, StarRoom(p, s))
    else if s == [] || (p[0] != QUESTION && Lowercase(p[0]) != Lowercase(s[0])) then None
    else
      var r := Greedy(p[1..], s[1..]);
      if r.None? then None else Some(1 + r.value)
  }

  /** The first bar in a pattern. */
  function BarIn(p: seq<byte>): (i: Option<nat>)
    ensures i.Some? ==> i.value < |p| && p[i.value] == BAR && (forall k :: 0 <= k < i.value ==> p[k] != BAR)
    ensures i.None? ==> forall k :: 0 <= k < |p| ==> p[k] != BAR
  {
    if p == [] then None
    else if p[0] == BAR then Some(0)
    else
      var i := BarIn(p[1..]);
      if i.None? then None else Some(i.value + 1)
  }

  /** The first alternative counts only if it matches at least one character. */
  function Found(p: seq<byte>, s: seq<byte>): Option<nat>
    decreases |p|
  {
    var bar := BarIn(p);
    if bar.None? then Greedy(p, s)
    else
      var r := Greedy(p[..bar.value], s);
      if r.Some? && r.value > 0 then r else Found(p[bar.value + 1..], s)
  }

  lemma {:induction false} GreedyFromSound(p: seq<byte>, s: seq<byte>, room: nat) returns (n: nat)
    requires room <= |s|
    ensures GreedyFrom(p, s, room).Some? ==>
      var k := GreedyFrom(p, s, room).value;
      n <= room && n <= k <= |s| && Matches(p, s[n..], k - n)
    decreases |p|, 2, room
  {
    n := room;
    GreedySound(p, s[room..]);
    if Greedy(p, s[room..]).None? && room > 0 {
      n := GreedyFromSound(p, s, room - 1);
    }
  }

  /** A match that is found is a match. */
  lemma {:induction false} GreedySound(p: seq<byte>, s: seq<byte>)
    ensures Greedy(p, s).Some? ==> Greedy(p, s).value <= |s| && Matches(p, s, Greedy(p, s).value)
    decreases |p|, 1, 0
  {
    if p == [] || p[0] == DOLLAR {
    } else if p[0] == STAR {
      var room := StarRoom(p, s);
      if StarLength(p) == |p| {
        StarTakes(p, s, room, room);
        assert StarMatches(p, s, room, room);
      } else {
        var n := GreedyFromSound(p[StarLength(p)..], s, room);
        if Greedy(p, s).Some? {
          StarTakes(p, s, Greedy(p, s).value, n);
          assert StarMatches(p, s, Greedy(p, s).value, n);
        }
      }
    } else if s != [] {
      GreedySound(p[1..], s[1..]);
    }
  }

  lemma {:induction false} GreedyFromComplete(p: seq<byte>, s: seq<byte>, room: nat, n: nat, k: nat)
    requires n <= room <= |s| && Matches(p, s[n..], k)
    ensures GreedyFrom(p, s, room).Some?
    decreases |p|, 2, room
  {
    if n == room {
      GreedyComplete(p, s[n..], k);
    } else {
      GreedyFromComplete(p, s, room - 1, n, k);
    }
  }

  /** If any beginning matches, a match is found. */
  lemma {:induction false} GreedyComplete(p: seq<byte>, s: seq<byte>, k: nat)
    requires Matches(p, s, k)
    ensures Greedy(p, s).Some?
    decreases |p|, 1, 0
  {
    if p == [] || p[0] == DOLLAR {
    } else if p[0] == STAR {
      var n :| 0 <= n <= k && n <= |s| && StarMatches(p, s, k, n);
      StarTakes(p, s, k, n);
      if StarLength(p) < |p| {
        GreedyFromComplete(p[StarLength(p)..], s, StarRoom(p, s), n, k - n);
      }
    } else {
      GreedyComplete(p[1..], s[1..], k - 1);
    }
  }

  /** For a pattern without bars: a result of `k` means that the pattern matches the first
      `k` characters, and no result that it matches no beginning at all. */
  lemma FoundExactly(p: seq<byte>, s: seq<byte>)
    requires BAR !in p
    ensures match Found(p, s)
            case Some(k) => k <= |s| && Matches(p, s, k)
            case None => forall k :: !Matches(p, s, k)
  {
    GreedySound(p, s);
    forall k | Matches(p, s, k) ensures Greedy(p, s).Some? {
      GreedyComplete(p, s, k);
    }
  }

  lemma {:induction false} GreedyFromZero(p: seq<byte>, s: seq<byte>, room: nat, n: nat)
    requires n <= room <= |s| && GreedyFrom(p, s, room) == Some(0)
    ensures Greedy(p, s[n..]) == if n == 0 then Some(0) else None
    decreases room
  {
    if n < room {
      GreedyFromZero(p, s, room - 1, n);
    }
  }

  /** If the match that is found is empty, every match is. */
  lemma {:induction false} GreedyZero(p: seq<byte>, s: seq<byte>, k: nat)
    requires Greedy(p, s) == Some(0) && Matches(p, s, k)
    ensures k == 0
    decreases |p|
  {
    if p != [] && p[0] == STAR {
      var n :| 0 <= n <= k && n <= |s| && StarMatches(p, s, k, n);
      StarTakes(p, s, k, n);
      var rest := p[StarLength(p)..];
      if rest != [] {
        GreedyFromZero(rest, s, StarRoom(p, s), n);
        GreedyComplete(rest, s[n..], k - n);
        assert n == 0 && s[0..] == s;
        GreedyZero(rest, s, k);
      } else {
        assert n == 0 && Matches([], s[n..], k - n);
      }
    }
  }

  /** The parts of a pattern between its bars. */
  function Alternatives(p: seq<byte>): (alts: seq<seq<byte>>)
    ensures |alts| > 0
    decreases |p|
  {
    var bar := BarIn(p);
    if bar.None? then [p] else [p[..bar.value]] + Alternatives(p[bar.value + 1..])
  }

  ghost predicate MatchesSome(alt: seq<byte>, s: seq<byte>) {
    exists k :: k > 0 && Matches(alt, s, k)
  }

  /** What a result means for a pattern with bars: a positive one is a match of the first
      alternative that can match any characters; otherwise there is no such alternative,
      and the last one decides between 0 and no result. */
  ghost predicate Means(r: Option<nat>, alts: seq<seq<byte>>, s: seq<byte>)
    requires |alts| > 0
  {
    match r
    case Some(k) =>
      if k > 0 then
        exists i :: 0 <= i < |alts| && Matches(alts[i], s, k) && forall j :: 0 <= j < i ==> !MatchesSome(alts[j], s)
      else (forall j :: 0 <= j < |alts| ==> !MatchesSome(alts[j], s)) && Matches(alts[|alts| - 1], s, 0)
    case None =>
      (forall j :: 0 <= j < |alts| ==> !MatchesSome(alts[j], s)) && !Matches(alts[|alts| - 1], s, 0)
  }

  lemma NotPositive(alt: seq<byte>, s: seq<byte>)
    requires Greedy(alt, s).None? || Greedy(alt, s) == Some(0)
    ensures !MatchesSome(alt, s)
  {
    forall k | k > 0 && Matches(alt, s, k) ensures false {
      GreedyComplete(alt, s, k);
      GreedyZero(alt, s, k);
    }
  }

  lemma MeansMore(r: Option<nat>, first: seq<byte>, alts: seq<seq<byte>>, s: seq<byte>)
    requires |alts| > 0 && Means(r, alts, s) && !MatchesSome(first, s)
    ensures Means(r, [first] + alts, s)
  {
    hide Matches, MatchesSome;
    var all := [first] + alts;
    assert forall j :: 0 < j < |all| ==> all[j] == alts[j - 1];
    if r.Some? && r.value > 0 {
      var i :| 0 <= i < |alts| && Matches(alts[i], s, r.value) && forall j :: 0 <= j < i ==> !MatchesSome(alts[j], s);
      assert Matches(all[i + 1], s, r.value);
    }
  }

  lemma {:induction false} FoundMeans(p: seq<byte>, s: seq<byte>)
    ensures Means(Found(p, s), Alternatives(p), s)
    decreases |p|
  {
    hide Greedy, Matches, MatchesSome;
    var bar := BarIn(p);
    var first := if bar.None? then p else p[..bar.value];
    var r := Greedy(first, s);
    GreedySound(first, s);
    if r.None? || r.value == 0 {
      NotPositive(first, s);
    }
    if bar.None? {
      if Matches(p, s, 0) {
        GreedyComplete(p, s, 0);
      }
      assert Alternatives(p)[0] == p;
    } else if r.Some? && r.value > 0 {
      assert Alternatives(p)[0] == first;
    } else {
      var rest := p[bar.value + 1..];
      FoundMeans(rest, s);
      MeansMore(Found(rest, s), first, Alternatives(rest), s);
    }
  }

  function AsInt(r: Option<nat>): int {
    match r
    case Some(k) => k
    case None => -1
  }

  lemma NoBar(p: seq<byte>)
    requires BAR !in p
    ensures BarIn(p) == None
  {
  }

  /** A result behind the first `j` characters. */
  function Shift(j: nat, r: int): int {
    if r == -1 then -1 else j + r
  }

  lemma UnfoldGreedy(pattern: cstring, i: nat, str: cstring, j: nat)
    requires i < |pattern| && j <= |str|
    ensures
      var r := Greedy(pattern[i..], str[j..]);
      if pattern[i] == DOLLAR then r == if j == |str| then Some(0) else None
      else if pattern[i] == STAR then true
      else if (pattern[i] == QUESTION && j < |str|) || Lowercase(pattern[i]) == Lowercase(ByteAt(str, j)) then
        j < |str| && AsInt(r) == Shift(1, AsInt(Greedy(pattern[i + 1..], str[j + 1..])))
      else r == None
  {
    assert pattern[i..][1..] == pattern[i + 1..] && (j < |str| ==> str[j..][1..] == str[j + 1..]);
    assert pattern[i] != 0;
  }

  /** The part of a pattern without bars that starts with a star: tries the longest run
      first. */
  method MatchStar(pattern: cstring, str: cstring) returns (res: int)
    requires pattern != [] && pattern[0] == STAR && BAR !in pattern
    ensures res == AsInt(Greedy(pattern, str))
    decreases |pattern|, 0
  {
    var i, len := 1, Span(str);
    if ByteAt(pattern, 1) == STAR {
      i := 2;
      len := |str|;
    }
    if i == |pattern| {
      return len;
    }
    NoBar(pattern[i..]);
    ghost var room := len;
    while true
      invariant 0 <= len <= room == StarRoom(pattern, str)
      invariant GreedyFrom(pattern[i..], str, room) == GreedyFrom(pattern[i..], str, len)
      decreases len
    {
      res := MatchPrefix(pattern[i..], str[len..]);
      if res != -1 || len == 0 {
        break;
      }
      len := len - 1;
    }
    if res != -1 {
      res := res + len;
    }
  }

  lemma NothingLeft(s: seq<byte>)
    ensures Greedy([], s) == Some(0)
  {
  }

  /** The matcher on a pattern without bars. */
  method MatchPlain(pattern: cstring, str: cstring) returns (res: int)
    requires BAR !in pattern
    ensures res == AsInt(Greedy(pattern, str))
    decreases |pattern|, 1
  {
    hide Greedy, StarRoom, StarLength;
    var i, j := 0, 0;
    assert pattern[0..] == pattern && str[0..] == str;
    while i < |pattern|
      invariant 0 <= i <= |pattern| && 0 <= j <= |str|
      invariant AsInt(Greedy(pattern, str)) == Shift(j, AsInt(Greedy(pattern[i..], str[j..])))
    {
      UnfoldGreedy(pattern, i, str, j);
      if pattern[i] == QUESTION && j < |str| {
      } else if pattern[i] == DOLLAR {
        return if j == |str| then j else -1;
      } else if pattern[i] == STAR {
        res := MatchStar(pattern[i..], str[j..]);
        return Shift(j, res);
      } else if Lowercase(pattern[i]) != Lowercase(ByteAt(str, j)) {
        return -1;
      }
      i := i + 1;
      j := j + 1;
    }
    NothingLeft(str[j..]);
    assert pattern[i..] == [];
    res := j;
  }

  /** The matcher. */
  method MatchPrefix(pattern: cstring, str: cstring) returns (res: int)
    ensures res == AsInt(Found(pattern, str))
    decreases |pattern|, 2
  {
    hide Greedy;
    var bar := BarIn(pattern);
    if bar.Some? {
      res := MatchPrefix(pattern[..bar.value], str);
      NoBar(pattern[..bar.value]);
      if res <= 0 {
        res := MatchPrefix(pattern[bar.value + 1..], str);
      }
    } else {
      res := MatchPlain(pattern, str);
    }
  }
}
