/** The chunked transfer coding (section 4.1 of RFC 7230): a writer of chunks, and a
    reader that takes them apart again, whatever the sizes of the reads and however the
    bytes arrive. */
module Chunked {
  import opened Bytes
  import opened Wrappers
  import opened Hex
  const UINT_MAX: nat := 0xFFFF_FFFF
  const INT64_MAX: nat := 0x7FFF_FFFF_FFFF_FFFF
  const ULONG_MAX: nat := 0xFFFF_FFFF_FFFF_FFFF
  const CRLF: seq<byte> := [13, 10]
  const LINE_ROOM: nat := 63

  function Flatten(pieces: seq<seq<byte>>): seq<byte> {
    if pieces == [] then [] else pieces[0] + Flatten(pieces[1..])
  }

  /* ---- Writing ---- */

  /** A number in hexadecimal, as `%x` prints it. */
  function HexText(n: nat): (t: seq<byte>)
    ensures |t| > 0
  {
    if n < 16 then [HexDigit(n)] else HexText(n / 16) + [HexDigit(n % 16)]
  }

  function Chunk(data: seq<byte>): seq<byte> {
    HexText(|data|) + CRLF + data + CRLF
  }

  lemma {:induction false} HexTextShort(n: nat, k: nat)
    requires 0 < k && n < Pow16(k)
    ensures |HexText(n)| <= k
  {
    if n >= 16 {
      assert Pow16(1) == 16;
      HexTextShort(n / 16, k - 1);
    }
  }

  lemma LongestHexText()
    ensures |HexText(UINT_MAX)| == 8
  {
    assert HexText(0xF) == [HexDigit(15)];
    assert |HexText(0xFF)| == 2 && |HexText(0xFFF)| == 3 && |HexText(0xFFFF)| == 4;
    assert |HexText(0xF_FFFF)| == 5 && |HexText(0xFF_FFFF)| == 6 && |HexText(0xFFF_FFFF)| == 7;
  }

  /** As much of `all` as there is room for, a part at a time. */
  lemma PartByPart(a: seq<byte>, b: seq<byte>, room: nat)
    ensures
      var m := Min(|a + b|, room);
      (a + b)[..m] == if room < |a| then a[..room] else a + b[..Min(|b|, room - |a|)]
  {
  }

  /** What follows the length line of a chunk. Above the largest int nothing does, but for
      the one length whose cast is the value that stands for a failed write: there the line
      end is sent without the data. */
  function DataSent(chunk: seq<byte>): seq<byte>
    requires |chunk| <= UINT_MAX
  {
    if |chunk| <= INT_MAX then chunk + CRLF else if |chunk| == UINT_MAX then CRLF else []
  }

  /** What is returned for it if the connection takes it all. */
  function DataTotal(chunk: seq<byte>): int
    requires |chunk| <= UINT_MAX
  {
    if |chunk| <= INT_MAX then |chunk| + 2 else if |chunk| == UINT_MAX then 1 else -1
  }

  /** The output side of a connection, which takes `room` more bytes before it breaks, and
      of these no more at a time than `limits` say, one after the other. */
  class Output {
    var sent: seq<byte>
    var room: nat
    var limits: seq<nat>

    constructor (room: nat, limits: seq<nat>)
      ensures sent == [] && this.room == room && this.limits == limits
    {
      sent, this.room, this.limits := [], room, limits;
    }

    /** Sends some of the bytes; -1 if the connection is broken. */
    method PushInner(bytes: seq<byte>) returns (n: int)
      requires bytes != []
      modifies this
      ensures n == -1 <==> old(room) == 0
      ensures n == -1 ==> sent == old(sent) && room == old(room)
      ensures n != -1 ==>
        0 < n <= Min(|bytes|, old(room)) && sent == old(sent) + bytes[..n] && room == old(room) - n
    {
      if room == 0 {
        return -1;
      }
      n := Min(|bytes|, room);
      if limits != [] {
        n := Min(n, if limits[0] > 0 then limits[0] else 1);
        limits := limits[1..];
      }
      sent := sent + bytes[..n];
      room := room - n;
    }

    /** Sends on until all is sent or the connection breaks. */
    method PushAll(bytes: seq<byte>) returns (nwritten: int)
      modifies this
      ensures
        var m := Min(|bytes|, old(room));
        && sent == old(sent) + bytes[..m] && room == old(room) - m
        && nwritten == if bytes != [] && m == 0 then -1 else m
    {
      nwritten := 0;
      ghost var before := sent;
      assert before + bytes[..0] == before;
      while nwritten < |bytes|
        invariant 0 <= nwritten <= Min(|bytes|, old(room))
        invariant sent == before + bytes[..nwritten] && room == old(room) - nwritten
      {
        var n := PushInner(bytes[nwritten..]);
        if n < 0 {
          if nwritten == 0 {
            nwritten := -1;
          }
          break;
        }
        assert bytes[..nwritten + n] == bytes[..nwritten] + bytes[nwritten..][..n];
        nwritten := nwritten + n;
      }
    }

    /** Sends as much as the connection takes; -1 if that is nothing of something, or if
        there are too many bytes. */
    method Write(bytes: seq<byte>) returns (total: int)
      modifies this
      ensures |bytes| > INT_MAX ==> total == -1 && sent == old(sent) && room == old(room)
      ensures |bytes| <= INT_MAX ==>
        var m := Min(|bytes|, old(room));
        && sent == old(sent) + bytes[..m] && room == old(room) - m
        && total == if bytes != [] && m == 0 then -1 else m
    {
      if |bytes| > INT_MAX {
        return -1;
      }
      total := PushAll(bytes);
    }

    /** Sends the data of a chunk and the line end behind it. */
    method SendData(chunk: seq<byte>) returns (total: int)
      requires |chunk| <= UINT_MAX
      modifies this
      ensures
        var data := DataSent(chunk);
        var m := Min(|data|, old(room));
        && sent == old(sent) + data[..m] && room == old(room) - m
        && total == if m == |data| then DataTotal(chunk) else -1
    {
      ghost var before := sent;
      PartByPart(chunk, CRLF, room);
      var n := Write(chunk);
      if n != ToInt(|chunk|) {
        return -1;
      }
      assert |chunk| <= INT_MAX ==> sent == before + chunk;
      var k := Write(CRLF);
      Regroup(before, chunk, CRLF[..Min(2, old(room) - Min(|chunk|, old(room)))]);
      total := if k == 2 then n + k else -1;
    }

    /** Sends a length line and then the data. */
    method SendLineAndData(line: seq<byte>, chunk: seq<byte>) returns (total: int)
      requires 0 < |line| <= INT_MAX && |chunk| <= UINT_MAX
      modifies this
      ensures
        var all := line + DataSent(chunk);
        var m := Min(|all|, old(room));
        && sent == old(sent) + all[..m] && room == old(room) - m
        && total == if m == |all| && DataTotal(chunk) >= 0 then |line| + DataTotal(chunk) else -1
    {
      hide DataSent, DataTotal;
      ghost var before, data := sent, DataSent(chunk);
      PartByPart(line, data, room);
      var n := Write(line);
      if n != |line| {
        assert old(room) < |line|;
        return -1;
      }
      assert sent == before + line;
      var k := SendData(chunk);
      Regroup(before, line, data[..Min(|data|, old(room) - |line|)]);
      total := if k >= 0 then n + k else -1;
    }

    /** Sends a chunk, or as much of it as the connection takes. */
    method SendChunk(chunk: seq<byte>) returns (total: int)
      requires |chunk| <= UINT_MAX
      modifies this
      ensures
        var all := if |chunk| <= INT_MAX then Chunk(chunk) else HexText(|chunk|) + CRLF + DataSent(chunk);
        var m := Min(|all|, old(room));
        && sent == old(sent) + all[..m] && room == old(room) - m
        && total ==
           if m < |all| then -1
           else if |chunk| <= INT_MAX then |all|
           else if |chunk| == UINT_MAX then 11
           else -1
    {
      var line := HexText(|chunk|) + CRLF;
      HexTextShort(|chunk|, 8);
      LongestHexText();
      hide HexText;
      Regroup(line, chunk, CRLF);
      total := SendLineAndData(line, chunk);
    }
  }

  /* ---- Reading, on the whole byte stream ---- */

  /** How many hexadecimal digits `s` starts with. */
  function HexRun(s: seq<byte>): (n: nat)
    ensures n <= |s| && (forall k :: 0 <= k < n ==> IsHex(s[k])) && (n < |s| ==> !IsHex(s[n]))
  {
    if s == [] || !IsHex(s[0]) then 0 else 1 + HexRun(s[1..])
  }

  /** The number that hexadecimal digits stand for. */
  function HexNumber(s: seq<byte>): nat
    requires forall k :: 0 <= k < |s| ==> IsHex(s[k])
  {
    if s == [] then 0 else 16 * HexNumber(s[..|s| - 1]) + HexOf(s[|s| - 1])
  }

  /** What `strtoul` makes of a line: its leading digits, at most the largest word. */
  function Strtoul(line: seq<byte>): nat {
    Min(HexNumber(line[..HexRun(line)]), ULONG_MAX)
  }

  /** The reader has read `i` bytes of a chunk-size line and accepted them: how long the
      line is, if it is one. */
  function LineLength(s: seq<byte>, i: nat): (r: Option<nat>)
    ensures r.Some? ==> i < r.value <= |s| && r.value <= LINE_ROOM && 2 < r.value
    decreases LINE_ROOM - i
  {
    if i >= LINE_ROOM then None
    else if i > 0 && ByteAt(s, i) == 13 && ByteAt(s, i - 1) != 13 then LineLength(s, i + 1)
    else if i > 1 && ByteAt(s, i) == 10 && ByteAt(s, i - 1) == 13 then Some(i + 1)
    else if !IsHex(ByteAt(s, i)) then None
    else LineLength(s, i + 1)
  }

  /** Byte `j` of `s` may stand in a chunk-size line in front of its end: a digit, or a
      carriage return behind one. */
  predicate InLine(s: seq<byte>, j: nat) {
    j < |s| && (IsHex(s[j]) || (j > 0 && s[j] == 13 && s[j - 1] != 13))
  }

  /** What is accepted as a chunk-size line: 3 to 63 bytes, digits that may have carriage
      returns between them, and a line end. */
  predicate SizeText(t: seq<byte>) {
    && 3 <= |t| <= 63 && t[|t| - 2] == 13 && t[|t| - 1] == 10
    && forall j :: 0 <= j < |t| - 1 ==> InLine(t, j)
  }

  lemma {:induction false} LineFrom(s: seq<byte>, i: nat, n: nat)
    requires i <= 63 && forall j :: 0 <= j < i ==> InLine(s, j)
    ensures LineLength(s, i) == Some(n) <==> i < n <= |s| && SizeText(s[..n])
    decreases 63 - i
  {
    if i < 63 && i < n <= |s| {
      var t := s[..n];
      assert forall j :: 0 <= j < n ==> (InLine(t, j) <==> InLine(s, j));
      if InLine(s, i) {
        LineFrom(s, i + 1, n);
      } else if n > i + 1 {
        assert !InLine(t, i);
      }
    } else if i < 63 && InLine(s, i) {
      LineFrom(s, i + 1, n);
    }
  }

  /** A line is read exactly if the stream starts with one. */
  lemma LineExactly(s: seq<byte>, n: nat)
    ensures LineLength(s, 0) == Some(n) <==> n <= |s| && SizeText(s[..n])
  {
    LineFrom(s, 0, n);
  }

  /** Where the reader is in the stream: what is left of the current chunk, and whether
      the last chunk has been read. */
  datatype Position = Position(stream: seq<byte>, remainder: nat, done: bool)

  datatype Outcome = Failed | Read(data: seq<byte>, next: Position)

  function Prepend(data: seq<byte>, o: Outcome): Outcome {
    match o
    case Failed => Failed
    case Read(more, next) => Read(data + more, next)
  }

  /** The position behind the chunk-size line. */
  function AfterLine(p: Position): (r: Option<Position>)
    ensures r.Some? ==> |r.value.stream| < |p.stream|
  {
    var n := LineLength(p.stream, 0);
    if n.None? then None
    else
      var size := Strtoul(p.stream[..n.value]);
      Some(Position(p.stream[n.value..], size, size == 0))
  }

  /** The position after `m` bytes of the current chunk; behind the last of them stands a
      line end. */
  function AfterData(p: Position, m: nat): (r: Option<Position>)
    requires 0 < m <= p.remainder && m <= |p.stream|
    ensures r.Some? ==> |r.value.stream| < |p.stream|
  {
    var rest := p.stream[m..];
    if p.remainder > m then Some(Position(rest, p.remainder - m, false))
    else if |rest| >= 2 && rest[..2] == CRLF then Some(Position(rest[2..], 0, false))
    else None
  }

  /** One read of up to `len` bytes. */
  function ReadFrom(p: Position, len: nat): (r: Outcome)
    ensures r.Read? ==> |r.data| <= len
    decreases |p.stream|, len
  {
    if len == 0 then Read([], p)
    else if p.done then Read([], p)
    else if p.remainder > 0 then
      var m := Min(Min(p.remainder, len), |p.stream|);
      if m == 0 then Failed
      else
        var next := AfterData(p, m);
        if next.None? then Failed else Prepend(p.stream[..m], ReadFrom(next.value, len - m))
    else
      var next := AfterLine(p);
      if next.None? then Failed
      else if next.value.done then Read([], next.value)
      else ReadFrom(next.value, len)
  }

  lemma ReadNothing(p: Position, len: nat)
    requires len == 0 || p.done
    ensures ReadFrom(p, len) == Read([], p)
  {
  }

  lemma ReadFromChunk(p: Position, len: nat)
    requires len > 0 && !p.done && p.remainder > 0
    ensures
      var m := Min(Min(p.remainder, len), |p.stream|);
      ReadFrom(p, len) ==
        if m == 0 || AfterData(p, m).None? then Failed
        else Prepend(p.stream[..m], ReadFrom(AfterData(p, m).value, len - m))
  {
  }

  lemma ReadFromLine(p: Position, len: nat)
    requires len > 0 && !p.done && p.remainder == 0
    ensures
      ReadFrom(p, len) ==
        if AfterLine(p).None? then Failed
        else if AfterLine(p).value.done then Read([], AfterLine(p).value)
        else ReadFrom(AfterLine(p).value, len)
  {
  }

  /* ---- Reading from a connection ---- */

  lemma TakeTwice(s: seq<byte>, n: nat, k: nat)
    requires n + k <= |s|
    ensures s[..n] + s[n..][..k] == s[..n + k] && s[n..][k..] == s[n + k..]
  {
  }

  /** The first `n` bytes of a line are those of the stream. */
  predicate HoldsLine(line: array<byte>, n: nat, s: seq<byte>)
    reads line
  {
    n <= line.Length && forall k :: 0 <= k < n ==> line[k] == ByteAt(s, k)
  }

  /** The stream without its first `i` bytes, as far as it has them. */
  function Drop(s: seq<byte>, i: nat): seq<byte> {
    s[Min(i, |s|)..]
  }

  lemma DropOne(s: seq<byte>, i: nat)
    ensures ByteAt(Drop(s, i), 0) == ByteAt(s, i)
    ensures Drop(s, i)[Min(1, |Drop(s, i)|)..] == Drop(s, i + 1)
  {
  }

  lemma NothingDropped(s: seq<byte>, line: array<byte>)
    ensures Drop(s, 0) == s && HoldsLine(line, 0, s)
  {
  }

  lemma LineStep(s: seq<byte>, i: nat)
    ensures LineLength(s, i) ==
      if i >= LINE_ROOM then None
      else if i > 0 && ByteAt(s, i) == 13 && ByteAt(s, i - 1) != 13 then LineLength(s, i + 1)
      else if i > 1 && ByteAt(s, i) == 10 && ByteAt(s, i - 1) == 13 then Some(i + 1)
      else if !IsHex(ByteAt(s, i)) then None
      else LineLength(s, i + 1)
  {
  }

  /** What the byte at `i` means for the line. */
  method Examine(line: array<byte>, i: nat, ghost s: seq<byte>) returns (p: Progress)
    requires i < LINE_ROOM && HoldsLine(line, i + 1, s)
    ensures p.More? ==> LineLength(s, i) == LineLength(s, i + 1)
    ensures p.Ended? ==> LineLength(s, i) == Some(i + 1) && i < |s| && line[..i + 1] == s[..i + 1]
                         && Drop(s, i + 1) == s[i + 1..]
    ensures p.Malformed? ==> LineLength(s, i) == None
  {
    LineStep(s, i);
    if i > 0 && line[i] == 13 && line[i - 1] != 13 {
      return More;
    }
    if i > 1 && line[i] == 10 && line[i - 1] == 13 {
      return Ended;
    }
    p := if IsHex(line[i]) then More else Malformed;
  }

  lemma PrependNothing(o: Outcome)
    ensures Prepend([], o) == o
  {
    if o.Read? {
      assert [] + o.data == o.data;
    }
  }

  lemma PrependFailed(data: seq<byte>)
    ensures Prepend(data, Failed) == Failed
  {
  }

  lemma PrependTwice(a: seq<byte>, b: seq<byte>, o: Outcome)
    ensures Prepend(a, Prepend(b, o)) == Prepend(a + b, o)
  {
    if o.Read? {
      Regroup(a, b, o.data);
    }
  }

  lemma PrependEmpty(data: seq<byte>, p: Position)
    ensures Prepend(data, Read([], p)) == Read(data, p)
  {
    assert data + [] == data;
  }

  class Connection {
    const buffered: seq<byte>
    var socket: seq<seq<byte>>
    var isChunked: nat
    var contentLen: int
    var consumed: nat
    var chunkRemainder: nat
    var mustClose: bool

    /** A connection whose request head announced a chunked body: `buffered` arrived with
        the head, the pieces of `socket` are still to arrive. */
    constructor (buffered: seq<byte>, socket: seq<seq<byte>>)
      requires forall k :: 0 <= k < |socket| ==> socket[k] != []
      ensures Valid() && Rest() == buffered + Flatten(socket)
      ensures Where() == Position(buffered + Flatten(socket), 0, false)
      ensures isChunked == 1
    {
      this.buffered, this.socket := buffered, socket;
      isChunked, contentLen, consumed, chunkRemainder, mustClose := 1, -1, 0, 0, false;
    }

    /** A connection with another body, of a known length or, for -1, of as many bytes as
        there are until it is closed. */
    constructor Plain(buffered: seq<byte>, socket: seq<seq<byte>>, contentLen: int)
      requires contentLen >= -1 && forall k :: 0 <= k < |socket| ==> socket[k] != []
      ensures Valid() && isChunked == 0 && Rest() == buffered + Flatten(socket)
      ensures Allowed() == if contentLen == -1 then 0x7FFF_FFFF_FFFF_FFFF else contentLen
    {
      this.buffered, this.socket := buffered, socket;
      isChunked, this.contentLen, consumed, chunkRemainder, mustClose := 0, contentLen, 0, 0, false;
    }

    ghost predicate Valid()
      reads this
    {
      && isChunked <= 3
      && (forall k :: 0 <= k < |socket| ==> socket[k] != [])
      && (isChunked != 2 ==> chunkRemainder == 0)
      && (if isChunked == 1 || contentLen == -1 then isChunked <= 1 && consumed == 0 else consumed <= contentLen)
    }

    /** The bytes that have not been read yet. */
    ghost function Rest(): seq<byte>
      reads this`consumed, this`socket
    {
      (if consumed < |buffered| then buffered[consumed..] else []) + Flatten(socket)
    }

    /** How many more bytes of a body that is not chunked may be read. */
    ghost function Allowed(): nat
      requires Valid() && isChunked == 0
      reads this
    {
      if contentLen == -1 then INT64_MAX else contentLen - consumed
    }

    ghost function Where(): Position
      reads this`consumed, this`socket, this`chunkRemainder, this`isChunked
    {
      Position(Rest(), chunkRemainder, isChunked == 3)
    }

    /** Takes what has arrived, up to `len` bytes. */
    method PullInner(buf: array<byte>, at: nat, len: nat) returns (n: int)
      requires len > 0 && at + len <= buf.Length
      requires forall k :: 0 <= k < |socket| ==> socket[k] != []
      modifies this`socket, buf
      ensures forall k :: 0 <= k < |socket| ==> socket[k] != []
      ensures old(socket) == [] ==> n == -2 && socket == [] && buf[..] == old(buf[..])
      ensures old(socket) != [] ==>
        && 0 < n <= len && n <= |Flatten(old(socket))|
        && buf[..at + n] == old(buf[..at]) + Flatten(old(socket))[..n]
        && Flatten(socket) == Flatten(old(socket))[n..]
    {
      if socket == [] {
        return -2;
      }
      var piece := socket[0];
      var m := Min(len, |piece|);
      forall i | 0 <= i < m {
        buf[at + i] := piece[i];
      }
      ghost var all := Flatten(socket);
      assert buf[..at + m] == old(buf[..at]) + piece[..m];
      assert all[..m] == piece[..m] && all[m..] == piece[m..] + Flatten(socket[1..]);
      if m < |piece| {
        socket := socket[0 := piece[m..]];
        assert socket[1..] == old(socket)[1..];
      } else {
        socket := socket[1..];
        assert piece[m..] == [];
      }
      n := m;
    }

    /** Reads until `len` bytes are there or the stream ends. */
    method PullAll(buf: array<byte>, at: nat, len: nat) returns (nread: int)
      requires at + len <= buf.Length
      requires forall k :: 0 <= k < |socket| ==> socket[k] != []
      modifies this`socket, this`consumed, buf
      ensures forall k :: 0 <= k < |socket| ==> socket[k] != []
      ensures
        var all := Flatten(old(socket));
        var m := Min(len, |all|);
        && nread == (if len > 0 && m == 0 then -1 else m)
        && buf[..at + m] == old(buf[..at]) + all[..m]
        && Flatten(socket) == all[m..]
        && consumed == old(consumed) + m
    {
      ghost var all := Flatten(socket);
      var left := len;
      nread := 0;
      while left > 0
        invariant 0 <= nread <= |all| && 0 <= left && nread + left == len
        invariant forall k :: 0 <= k < |socket| ==> socket[k] != []
        invariant buf[..at + nread] == old(buf[..at]) + all[..nread]
        invariant Flatten(socket) == all[nread..] && consumed == old(consumed) + nread
        decreases left
      {
        ghost var before := nread;
        var n := PullInner(buf, at + nread, left);
        if n == -2 {
          assert |all[nread..]| == 0;
          if nread == 0 {
            nread := -1;
          }
          return;
        }
        consumed := consumed + n;
        nread := nread + n;
        left := left - n;
        assert all[..nread] == all[..before] + all[before..][..n];
        assert all[nread..] == all[before..][n..];
      }
    }

    /** Copies what arrived with the head and has not been read yet, up to `len` bytes. */
    method TakeBuffered(buf: array<byte>, at: nat, len: nat) returns (n: nat)
      requires at + len <= buf.Length
      modifies this`consumed, buf
      ensures n <= len && n <= |old(Rest())|
      ensures n < len ==> consumed >= |buffered|
      ensures consumed == old(consumed) + n
      ensures buf[..at + n] == old(buf[..at]) + old(Rest())[..n]
      ensures Rest() == old(Rest())[n..]
    {
      n := 0;
      var bufferedLen := |buffered| - consumed;
      if bufferedLen > 0 {
        if len < bufferedLen {
          bufferedLen := len;
        }
        forall i | 0 <= i < bufferedLen {
          buf[at + i] := buffered[consumed + i];
        }
        n := bufferedLen;
        ghost var tail := buffered[consumed..];
        assert Rest() == tail + Flatten(socket);
        assert buf[..at + n] == old(buf[..at]) + tail[..n];
        assert (tail + Flatten(socket))[..n] == tail[..n];
        assert (tail + Flatten(socket))[n..] == tail[n..] + Flatten(socket);
        assert tail[n..] == buffered[consumed + n..];
        consumed := consumed + n;
      }
    }

    /** Reads on from the socket, what arrived with the head having been read. */
    method PullRest(buf: array<byte>, at: nat, len: nat) returns (nread: int)
      requires at + len <= buf.Length && (forall k :: 0 <= k < |socket| ==> socket[k] != [])
      requires len > 0 ==> consumed >= |buffered|
      modifies this`consumed, this`socket, buf
      ensures forall k :: 0 <= k < |socket| ==> socket[k] != []
      ensures
        var m := Min(len, |old(Rest())|);
        && consumed == old(consumed) + m
        && nread == (if len > 0 && m == 0 then -1 else m)
        && buf[..at + m] == old(buf[..at]) + old(Rest())[..m]
        && Rest() == old(Rest())[m..]
    {
      hide Flatten;
      ghost var rest := Rest();
      nread := PullAll(buf, at, len);
      if len > 0 {
        assert old(Rest()) == Flatten(old(socket));
      } else {
        assert rest[0..] == rest && rest[..0] == [];
        assert Flatten(old(socket))[0..] == Flatten(old(socket));
      }
    }

    /** Reads `len` bytes, or as many as there are. */
    method Fetch(buf: array<byte>, at: nat, len: nat) returns (nread: int)
      requires at + len <= buf.Length && (forall k :: 0 <= k < |socket| ==> socket[k] != [])
      modifies this`consumed, this`socket, buf
      ensures forall k :: 0 <= k < |socket| ==> socket[k] != []
      ensures
        var m := Min(len, |old(Rest())|);
        && consumed == old(consumed) + m
        && nread == (if len > 0 && m == 0 then -1 else m)
        && buf[..at + m] == old(buf[..at]) + old(Rest())[..m]
        && Rest() == old(Rest())[m..]
    {
      hide Rest;
      ghost var rest, head := Rest(), buf[..at];
      var n := TakeBuffered(buf, at, len);
      var pulled := PullRest(buf, at + n, len - n);
      nread := if pulled >= 0 then n + pulled else if n > 0 then n else pulled;
      ghost var k := Min(len - n, |rest| - n);
      TakeTwice(rest, n, k);
      Regroup(head, rest[..n], rest[n..][..k]);
    }

    method SetContentLength(len: nat)
      requires Valid() && isChunked != 3
      requires isChunked == 2 ==> consumed + len <= contentLen
      modifies this`isChunked, this`contentLen, this`mustClose
      ensures Valid() && contentLen >= 0 && isChunked == if old(isChunked) == 0 then 0 else 2
      ensures old(isChunked) > 0 ==>
        contentLen == (if old(isChunked) == 1 then len else old(contentLen)) && consumed + len <= contentLen
      ensures old(isChunked) == 0 ==> contentLen - consumed == old(Allowed())
    {
      if consumed == 0 {
        if isChunked == 1 {
          contentLen := len;
          isChunked := 2;
        } else if contentLen == -1 {
          contentLen := INT64_MAX;
          mustClose := true;
        }
      }
    }

    method ReadAllowed(buf: array<byte>, at: nat, len: nat) returns (nread: int)
      requires at + len <= buf.Length && consumed <= contentLen && forall k :: 0 <= k < |socket| ==> socket[k] != []
      modifies this`consumed, this`socket, buf
      ensures forall k :: 0 <= k < |socket| ==> socket[k] != []
      ensures
        var want := Min(len, contentLen - old(consumed));
        var m := Min(want, |old(Rest())|);
        && consumed == old(consumed) + m
        && nread == (if want > 0 && m == 0 then -1 else m)
        && buf[..at + m] == old(buf[..at]) + old(Rest())[..m]
        && Rest() == old(Rest())[m..]
    {
      hide Rest;
      ghost var rest, head := Rest(), buf[..at];
      nread := 0;
      if consumed < contentLen {
        var left := contentLen - consumed;
        nread := Fetch(buf, at, Min(len, left));
      } else {
        assert rest[..0] == [] && rest[0..] == rest && head + [] == head;
      }
    }

    /** Reads up to `len` bytes of what the content length allows: first what arrived with
        the head, then from the socket. The first read of a chunked body sets the content
        length, and that of a body without one the largest. */
    method ReadInner(buf: array<byte>, at: nat, len: nat) returns (nread: int)
      requires Valid() && isChunked != 3 && at + len <= buf.Length && len <= INT_MAX
      requires isChunked == 2 ==> consumed + len <= contentLen
      modifies this`isChunked, this`contentLen, this`consumed, this`socket, this`mustClose, buf
      ensures Valid() && isChunked == if old(isChunked) == 0 then 0 else 2
      ensures old(isChunked) > 0 ==> contentLen == if old(isChunked) == 1 then len else old(contentLen)
      ensures
        var want := if old(isChunked) == 0 then Min(len, old(Allowed())) else len;
        var m := Min(want, |old(Rest())|);
        && consumed == old(consumed) + m
        && nread == (if want > 0 && m == 0 then -1 else m)
        && buf[..at + m] == old(buf[..at]) + old(Rest())[..m]
        && Rest() == old(Rest())[m..]
        && (isChunked == 0 ==> Allowed() == old(Allowed()) - m)
    {
      hide Rest;
      SetContentLength(len);
      nread := ReadAllowed(buf, at, len);
    }

    /** One byte; a NUL if there is none. */
    method GetC() returns (c: byte)
      requires Valid() && 1 <= isChunked <= 2 && (isChunked == 2 ==> consumed + 1 <= contentLen)
      modifies this`isChunked, this`contentLen, this`consumed, this`socket, this`mustClose
      ensures Valid() && isChunked == 2
      ensures contentLen == if old(isChunked) == 1 then 1 else old(contentLen)
      ensures c == ByteAt(old(Rest()), 0) && Rest() == old(Rest())[Min(1, |old(Rest())|)..]
      ensures consumed == old(consumed) + Min(1, |old(Rest())|)
    {
      var buf := new byte[1];
      var n := ReadInner(buf, 0, 1);
      if n <= 0 {
        return 0;
      }
      assert buf[..1] == old(Rest())[..1];
      c := buf[0];
    }

    method PutByte(line: array<byte>, i: nat, c: byte, ghost s: seq<byte>)
      requires i < line.Length && HoldsLine(line, i, s) && c == ByteAt(s, i)
      modifies line
      ensures HoldsLine(line, i + 1, s)
    {
      line[i] := c;
    }

    /** Reads one more byte of a chunk-size line, and lets the content length grow. */
    method FetchLineByte(line: array<byte>, i: nat, ghost s: seq<byte>)
      requires Valid() && 1 <= isChunked <= 2 && chunkRemainder == 0 && i < line.Length
      requires Rest() == Drop(s, i) && HoldsLine(line, i, s)
      modifies this`isChunked, this`contentLen, this`consumed, this`socket, this`mustClose, line
      ensures Valid() && isChunked == 2 && Rest() == Drop(s, i + 1) && HoldsLine(line, i + 1, s)
    {
      hide Drop, Rest, ByteAt, HoldsLine;
      DropOne(s, i);
      contentLen := contentLen + 1;
      assert Rest() == Drop(s, i);
      var c := GetC();
      PutByte(line, i, c, s);
    }

    /** Reads a chunk-size line. */
    method FetchLine(line: array<byte>) returns (length: Option<nat>)
      requires Valid() && 1 <= isChunked <= 2 && chunkRemainder == 0 && line.Length == LINE_ROOM + 1
      modifies this`isChunked, this`contentLen, this`consumed, this`socket, this`mustClose, line
      ensures length == LineLength(old(Rest()), 0)
      ensures Valid() && 1 <= isChunked <= 2
      ensures length.Some? ==>
        && isChunked == 2
        && Rest() == old(Rest())[length.value..] && line[..length.value] == old(Rest())[..length.value]
    {
      hide Rest, Valid, LineLength, Drop, HoldsLine;
      ghost var s := Rest();
      var i := 0;
      NothingDropped(s, line);
      while i < LINE_ROOM
        invariant 0 <= i <= LINE_ROOM && Valid() && 1 <= isChunked <= 2
        invariant LineLength(s, i) == LineLength(s, 0)
        invariant Rest() == Drop(s, i) && HoldsLine(line, i, s)
      {
        FetchLineByte(line, i, s);
        var progress := Examine(line, i, s);
        match progress {
          case More =>
          case Ended => return Some(i + 1);
          case Malformed => return None;
        }
        i := i + 1;
      }
      LineStep(s, LINE_ROOM);
      length := None;
    }

    /** Reads a chunk-size line and sets what is left of the chunk. */
    method FetchChunk() returns (ok: bool)
      requires Valid() && 1 <= isChunked <= 2 && chunkRemainder == 0
      modifies this`isChunked, this`contentLen, this`consumed, this`socket, this`mustClose, this`chunkRemainder
      ensures ok <==> AfterLine(old(Where())).Some?
      ensures Valid() && isChunked > 0
      ensures ok ==> isChunked >= 2 && Where() == AfterLine(old(Where())).value
    {
      var line := new byte[LINE_ROOM + 1];
      var length := FetchLine(line);
      if length.None? {
        return false;
      }
      var size := Strtoul(line[..length.value]);
      if size == 0 {
        isChunked := 3;
      }
      chunkRemainder := size;
      ok := true;
    }

    /** Reads the line end behind the data of a chunk. */
    method ExpectLineEnd() returns (ok: bool)
      requires Valid() && isChunked == 2
      modifies this`isChunked, this`contentLen, this`consumed, this`socket, this`mustClose
      ensures ok <==> |old(Rest())| >= 2 && old(Rest())[..2] == CRLF
      ensures Valid() && isChunked == 2
      ensures ok ==> Rest() == old(Rest())[2..]
    {
      hide Rest;
      ghost var rest := Rest();
      contentLen := contentLen + 2;
      assert Rest() == rest;
      var x1 := GetC();
      var x2 := GetC();
      ok := x1 == 13 && x2 == 10;
      assert |rest| >= 2 ==> rest[..2] == [rest[0], rest[1]];
    }

    /** Reads from what is left of the current chunk. */
    method ReadData(buf: array<byte>, at: nat, len: nat) returns (n: int)
      requires Valid() && isChunked == 2 && chunkRemainder > 0 && 0 < len <= INT_MAX && at + len <= buf.Length
      modifies this`isChunked, this`contentLen, this`consumed, this`socket, this`mustClose, this`chunkRemainder, buf
      ensures Valid() && isChunked == 2
      ensures
        var m := Min(Min(old(chunkRemainder), len), |old(Rest())|);
        if m == 0 || AfterData(old(Where()), m).None? then n == -1
        else
          && n == m && Where() == AfterData(old(Where()), m).value
          && buf[..at + m] == old(buf[..at]) + old(Rest())[..m]
    {
      hide Rest;
      ghost var rest := Rest();
      var readNow := Min(chunkRemainder, len);
      contentLen := contentLen + readNow;
      assert Rest() == rest;
      n := ReadInner(buf, at, readNow);
      if n < 1 {
        return -1;
      }
      chunkRemainder := chunkRemainder - n;
      if chunkRemainder == 0 {
        var ok := ExpectLineEnd();
        if !ok {
          return -1;
        }
      }
    }

    /** One read of up to `len` bytes into `buf`: how many it is, or -1. */
    method ReadChunked(buf: array<byte>, len: nat) returns (ret: int)
      requires Valid() && isChunked > 0 && len <= buf.Length
      modifies this`isChunked, this`contentLen, this`consumed, this`socket, this`mustClose, this`chunkRemainder, buf
      ensures Valid() && isChunked > 0
      ensures
        match ReadFrom(old(Where()), Min(len, INT_MAX))
        case Failed => ret == -1
        case Read(data, next) => ret == |data| && buf[..ret] == data && Where() == next
    {
      hide Rest, AfterData, AfterLine, ReadFrom, Prepend;
      ghost var start, all := Where(), Min(len, INT_MAX);
      var left, allRead := Min(len, INT_MAX), 0;
      assert buf[..0] == [];
      PrependNothing(ReadFrom(start, all));
      while left > 0
        invariant Valid() && isChunked > 0 && 0 <= left && 0 <= allRead && allRead + left == all
        invariant isChunked == 3 ==> allRead == 0
        invariant ReadFrom(start, all) == Prepend(buf[..allRead], ReadFrom(Where(), left))
        decreases |Where().stream|
      {
        if isChunked == 3 {
          PrependNothing(ReadFrom(Where(), left));
          ReadNothing(Where(), left);
          assert buf[..allRead] == [];
          return 0;
        }
        ghost var before, p := buf[..allRead], Where();
        PrependFailed(before);
        if chunkRemainder > 0 {
          ReadFromChunk(p, left);
          var n := ReadData(buf, allRead, left);
          if n < 1 {
            return -1;
          }
          PrependTwice(before, p.stream[..n], ReadFrom(Where(), left - n));
          allRead := allRead + n;
          left := left - n;
        } else {
          ReadFromLine(p, left);
          var ok := FetchChunk();
          if !ok {
            return -1;
          }
          assert buf[..allRead] == before;
          if isChunked == 3 {
            break;
          }
        }
      }
      ret := allRead;
      ReadNothing(Where(), left);
      PrependEmpty(buf[..allRead], Where());
    }

    /** One read: of a chunked body as above, of any other up to what its length allows. Also
        where it fails, no more is consumed than the content length. */
    method Read(buf: array<byte>, len: nat) returns (ret: int)
      requires Valid() && len <= buf.Length
      modifies this`isChunked, this`contentLen, this`consumed, this`socket, this`mustClose, this`chunkRemainder, buf
      ensures Valid() && (isChunked == 0 <==> old(isChunked) == 0)
      ensures contentLen >= 0 ==> consumed <= contentLen
      ensures old(isChunked) > 0 ==>
        match ReadFrom(old(Where()), Min(len, INT_MAX))
        case Failed => ret == -1
        case Read(data, next) => ret == |data| && buf[..ret] == data && Where() == next
      ensures old(isChunked) == 0 ==>
        var want := Min(Min(len, INT_MAX), old(Allowed()));
        var m := Min(want, |old(Rest())|);
        && ret == (if want > 0 && m == 0 then -1 else m)
        && buf[..m] == old(Rest())[..m]
        && Rest() == old(Rest())[m..] && Allowed() == old(Allowed()) - m
    {
      hide ReadFrom, Rest;
      if isChunked > 0 {
        ret := ReadChunked(buf, len);
      } else {
        ret := ReadInner(buf, 0, Min(len, INT_MAX));
      }
    }
  }

  /* ---- The reader undoes the writer ---- */

  function Chunks(chunks: seq<seq<byte>>): seq<byte> {
    if chunks == [] then [] else Chunk(chunks[0]) + Chunks(chunks[1..])
  }

  predicate AllNonEmpty(chunks: seq<seq<byte>>) {
    forall k :: 0 <= k < |chunks| ==> 0 < |chunks[k]| <= INT_MAX
  }

  /** The zero chunk up to the end of its size line. */
  const LAST_LINE: seq<byte> := [48] + CRLF

  /** The reader is inside the first of `chunks`, or in front of it, and the stream goes
      on with the last chunk and `tail`. */
  predicate Framed(p: Position, chunks: seq<seq<byte>>, tail: seq<byte>) {
    && AllNonEmpty(chunks) && !p.done
    && if p.remainder == 0 then p.stream == Chunks(chunks) + (LAST_LINE + tail)
       else
         && chunks != [] && p.remainder == |chunks[0]|
         && p.stream == chunks[0] + (CRLF + (Chunks(chunks[1..]) + (LAST_LINE + tail)))
  }

  lemma {:induction false} HexTextNumber(n: nat)
    ensures forall k :: 0 <= k < |HexText(n)| ==> IsHex(HexText(n)[k])
    ensures HexNumber(HexText(n)) == n
  {
    if n >= 16 {
      HexTextNumber(n / 16);
      assert HexText(n)[..|HexText(n)| - 1] == HexText(n / 16);
    } else {
      assert HexText(n)[..0] == [];
    }
  }

  lemma {:induction false} HexRunOf(t: seq<byte>, rest: seq<byte>)
    requires forall k :: 0 <= k < |t| ==> IsHex(t[k])
    requires rest != [] && !IsHex(rest[0])
    ensures HexRun(t + rest) == |t|
  {
    if t == [] {
      assert t + rest == rest;
    } else {
      assert (t + rest)[1..] == t[1..] + rest;
      HexRunOf(t[1..], rest);
    }
  }

  /** A size line stands for the number of the digits it starts with, in either case, at most
      the largest word. */
  lemma SizeRead(t: seq<byte>, more: seq<byte>)
    requires forall k :: 0 <= k < |t| ==> IsHex(t[k])
    ensures Strtoul(t + ([13] + more)) ==
      if HexNumber(t) < 0x1_0000_0000_0000_0000 then HexNumber(t) else 0xFFFF_FFFF_FFFF_FFFF
    ensures t != [] ==> HexNumber(t) == 16 * HexNumber(t[..|t| - 1]) + HexOf(t[|t| - 1])
    ensures HexNumber([]) == 0
  {
    HexRunOf(t, [13] + more);
    assert (t + ([13] + more))[..|t|] == t;
  }

  /** The reader accepts a line of digits, byte by byte. */
  lemma {:induction false} LineOf(t: seq<byte>, rest: seq<byte>, i: nat)
    requires 0 < |t| && |t| + 2 <= LINE_ROOM && i <= |t|
    requires forall k :: 0 <= k < |t| ==> IsHex(t[k])
    ensures LineLength(t + CRLF + rest, i) == Some(|t| + 2)
    decreases |t| - i
  {
    var s := t + CRLF + rest;
    if i < |t| {
      assert s[i] == t[i] && (i > 0 ==> s[i - 1] == t[i - 1]);
      LineOf(t, rest, i + 1);
    } else {
      assert s[i - 1] == t[i - 1] && s[i] == 13 && s[i + 1] == 10;
      assert LineLength(s, i + 1) == Some(i + 2);
    }
  }

  lemma SizeLine(n: nat, rest: seq<byte>)
    requires n <= INT_MAX
    ensures AfterLine(Position(HexText(n) + CRLF + rest, 0, false)) == Some(Position(rest, n, n == 0))
  {
    var t := HexText(n);
    var s := t + CRLF + rest;
    HexTextNumber(n);
    assert n < Pow16(8) by { assert Pow16(4) == 0x1_0000; }
    HexTextShort(n, 8);
    LineOf(t, rest, 0);
    var line := s[..|t| + 2];
    assert line == t + CRLF && s[|t| + 2..] == rest;
    HexRunOf(t, CRLF);
    assert line[..|t|] == t;
  }

  /** In front of a chunk the reader moves into it; in front of the last chunk it is
      done. */
  lemma FramedLine(p: Position, chunks: seq<seq<byte>>, tail: seq<byte>)
    requires Framed(p, chunks, tail) && p.remainder == 0
    ensures chunks == [] ==> AfterLine(p) == Some(Position(tail, 0, true))
    ensures chunks != [] ==>
      AfterLine(p).Some? && AfterLine(p).value.remainder > 0 && Framed(AfterLine(p).value, chunks, tail)
  {
    hide AfterLine;
    if chunks == [] {
      SizeLine(0, tail);
      assert p.stream == HexText(0) + CRLF + tail;
    } else {
      var c, more := chunks[0], Chunks(chunks[1..]) + (LAST_LINE + tail);
      SizeLine(|c|, c + (CRLF + more));
      assert p.stream == HexText(|c|) + CRLF + (c + (CRLF + more));
      assert p == Position(HexText(|c|) + CRLF + (c + (CRLF + more)), 0, false);
    }
  }

  /** After `m` bytes the rest of the chunk is left, or the chunks behind it. */
  lemma FramedData(p: Position, chunks: seq<seq<byte>>, tail: seq<byte>, m: nat)
    requires Framed(p, chunks, tail) && 0 < m <= p.remainder
    ensures m <= |p.stream| && m <= |Flatten(chunks)| && p.stream[..m] == Flatten(chunks)[..m] && AfterData(p, m).Some?
    ensures
      var left := if m == p.remainder then chunks[1..] else [chunks[0][m..]] + chunks[1..];
      Framed(AfterData(p, m).value, left, tail) && Flatten(left) == Flatten(chunks)[m..]
  {
    var c, more := chunks[0], Chunks(chunks[1..]) + (LAST_LINE + tail);
    var rest := p.stream[m..];
    assert Flatten(chunks)[m..] == c[m..] + Flatten(chunks[1..]) && Flatten(chunks)[..m] == c[..m];
    if m == p.remainder {
      assert rest == CRLF + more;
      assert rest[..2] == CRLF && rest[2..] == more;
      assert c[m..] + Flatten(chunks[1..]) == Flatten(chunks[1..]);
    } else {
      assert rest == c[m..] + (CRLF + more);
      assert ([c[m..]] + chunks[1..])[1..] == chunks[1..];
    }
  }

  lemma FramedOpen(p: Position, chunks: seq<seq<byte>>, tail: seq<byte>)
    requires Framed(p, chunks, tail)
    ensures !p.done && (p.remainder > 0 ==> chunks != [] && p.remainder == |chunks[0]| <= |p.stream|)
    ensures p.remainder > 0 ==> |Flatten(chunks)| >= p.remainder
  {
  }

  lemma NoPayload()
    ensures Flatten([]) == []
  {
  }

  /** A read gives exactly the next bytes of the payload, and less than it asked for only
      at the end, behind the line of the last chunk. */
  lemma {:induction false} ReadDelivers(p: Position, chunks: seq<seq<byte>>, tail: seq<byte>, len: nat)
    returns (left: seq<seq<byte>>)
    requires Framed(p, chunks, tail)
    ensures
      var payload := Flatten(chunks);
      var m := Min(len, |payload|);
      && ReadFrom(p, len).Read?
      && ReadFrom(p, len).data == payload[..m]
      && Flatten(left) == payload[m..]
      && (len > |payload| ==> ReadFrom(p, len).next == Position(tail, 0, true))
      && (len <= |payload| ==> Framed(ReadFrom(p, len).next, left, tail))
    decreases |p.stream|
  {
    hide AfterLine, AfterData, Framed, Chunks, Flatten, ReadFrom;
    var payload := Flatten(chunks);
    if len == 0 {
      left := chunks;
      assert payload[..0] == [] && payload[0..] == payload;
      ReadNothing(p, 0);
    } else if p.remainder == 0 {
      FramedOpen(p, chunks, tail);
      ReadFromLine(p, len);
      FramedLine(p, chunks, tail);
      if chunks == [] {
        left := [];
        assert payload == [] by { NoPayload(); }
      } else {
        FramedOpen(AfterLine(p).value, chunks, tail);
        left := ReadDelivers(AfterLine(p).value, chunks, tail, len);
      }
    } else {
      FramedOpen(p, chunks, tail);
      var m := Min(p.remainder, len);
      ReadFromChunk(p, len);
      FramedData(p, chunks, tail, m);
      var next := AfterData(p, m).value;
      var rest := if m == p.remainder then chunks[1..] else [chunks[0][m..]] + chunks[1..];
      left := ReadDelivers(next, rest, tail, len - m);
      TakeTwice(payload, m, Min(len - m, |payload| - m));
    }
  }

  /** A sequence of reads, each from where the one before left off. */
  function Reads(p: Position, sizes: seq<nat>): seq<Outcome>
    decreases |sizes|
  {
    if sizes == [] then []
    else
      var o := ReadFrom(p, sizes[0]);
      [o] + match o
            case Failed => []
            case Read(_, next) => Reads(next, sizes[1..])
  }

  function Sum(sizes: seq<nat>): nat {
    if sizes == [] then 0 else sizes[0] + Sum(sizes[1..])
  }

  /** Behind the end every read gives nothing. */
  lemma {:induction false} ReadsAtEnd(tail: seq<byte>, sizes: seq<nat>, k: nat)
    requires k < |sizes|
    ensures k < |Reads(Position(tail, 0, true), sizes)|
    ensures Reads(Position(tail, 0, true), sizes)[k] == Read([], Position(tail, 0, true))
  {
    if k == 0 {
    } else {
      ReadsAtEnd(tail, sizes[1..], k - 1);
    }
  }

  lemma SumFirst(sizes: seq<nat>, k: nat)
    requires 0 < k <= |sizes|
    ensures Sum(sizes[..k]) == sizes[0] + Sum(sizes[1..][..k - 1])
  {
    assert sizes[..k][1..] == sizes[1..][..k - 1];
  }

  lemma {:induction false} SumGrows(sizes: seq<nat>, k: nat)
    requires k < |sizes|
    ensures Sum(sizes[..k]) <= Sum(sizes[..k + 1])
  {
    SumFirst(sizes, k + 1);
    if k == 0 {
    } else {
      SumFirst(sizes, k);
      SumGrows(sizes[1..], k - 1);
    }
  }

  lemma Window(s: seq<byte>, m: nat, a: nat, b: nat)
    requires a <= b && m + b <= |s|
    ensures s[m..][a..b] == s[m + a..m + b]
  {
  }

  lemma UnfoldReads(p: Position, sizes: seq<nat>, k: nat)
    requires k < |sizes| && ReadFrom(p, sizes[0]).Read?
    ensures
      var rs, more := Reads(p, sizes), Reads(ReadFrom(p, sizes[0]).next, sizes[1..]);
      |rs| == 1 + |more| && rs[0] == ReadFrom(p, sizes[0]) && (0 < k <= |more| ==> rs[k] == more[k - 1])
  {
  }

  lemma NoSum(sizes: seq<nat>)
    requires sizes != []
    ensures Sum(sizes[..0]) == 0 && Sum(sizes[1..][..0]) == 0
  {
  }

  /** Whatever the sizes of the reads, the `k`-th read gives the bytes of the payload from
      where the reads before it stopped; so together they give the payload, in order and
      once, and then nothing for ever. */
  lemma {:induction false} ReadsDeliver(p: Position, chunks: seq<seq<byte>>, tail: seq<byte>, sizes: seq<nat>, k: nat)
    requires Framed(p, chunks, tail) && k < |sizes|
    ensures
      var payload := Flatten(chunks);
      var from, to := Min(Sum(sizes[..k]), |payload|), Min(Sum(sizes[..k + 1]), |payload|);
      && k < |Reads(p, sizes)| && Reads(p, sizes)[k].Read?
      && from <= to && Reads(p, sizes)[k].data == payload[from..to]
    decreases k
  {
    hide ReadFrom, Framed, Flatten, Sum, Reads;
    var payload := Flatten(chunks);
    var left := ReadDelivers(p, chunks, tail, sizes[0]);
    UnfoldReads(p, sizes, k);
    SumFirst(sizes, k + 1);
    if k == 0 {
      NoSum(sizes);
    } else {
      SumFirst(sizes, k);
      SumGrows(sizes[1..], k - 1);
      var next, m := ReadFrom(p, sizes[0]).next, Min(sizes[0], |payload|);
      if sizes[0] > |payload| {
        ReadsAtEnd(tail, sizes[1..], k - 1);
      } else {
        ReadsDeliver(next, left, tail, sizes[1..], k - 1);
        Window(payload, m, Min(Sum(sizes[1..][..k - 1]), |payload| - m), Min(Sum(sizes[1..][..k]), |payload| - m));
      }
    }
  }

  /** The reads of a body that is not chunked, `left` bytes of which may still be read. */
  function PlainReads(stream: seq<byte>, left: nat, sizes: seq<nat>): (datas: seq<seq<byte>>)
    ensures |datas| == |sizes|
  {
    if sizes == [] then []
    else
      var m := Min(Min(sizes[0], left), |stream|);
      [stream[..m]] + PlainReads(stream[m..], left - m, sizes[1..])
  }

  lemma UnfoldPlain(stream: seq<byte>, left: nat, sizes: seq<nat>, k: nat)
    requires k < |sizes|
    ensures
      var m := Min(Min(sizes[0], left), |stream|);
      PlainReads(stream, left, sizes)[k] ==
        if k == 0 then stream[..m] else PlainReads(stream[m..], left - m, sizes[1..])[k - 1]
  {
  }

  lemma FirstOfBody(stream: seq<byte>, left: nat, size: nat)
    ensures
      var body := stream[..Min(left, |stream|)];
      stream[..Min(Min(size, left), |stream|)] == body[0..Min(size, |body|)]
  {
  }

  lemma RestOfBody(stream: seq<byte>, left: nat, m: nat)
    requires m <= left && m <= |stream|
    ensures stream[m..][..Min(left - m, |stream| - m)] == stream[..Min(left, |stream|)][m..]
  {
  }

  lemma MinSum(a: nat, b: nat, n: nat)
    ensures Min(a + b, n) == Min(a, n) + Min(b, n - Min(a, n))
  {
  }

  /** A part of what is left behind the first `size` bytes is a part of the whole. */
  lemma FromBody(body: seq<byte>, size: nat, a: nat, b: nat)
    requires Min(a, |body| - Min(size, |body|)) <= Min(b, |body| - Min(size, |body|))
    ensures
      var rest := body[Min(size, |body|)..];
      && Min(size + a, |body|) <= Min(size + b, |body|)
      && rest[Min(a, |rest|)..Min(b, |rest|)] == body[Min(size + a, |body|)..Min(size + b, |body|)]
  {
    MinSum(size, a, |body|);
    MinSum(size, b, |body|);
    var m := Min(size, |body|);
    Window(body, m, Min(a, |body| - m), Min(b, |body| - m));
  }

  /** The same for what a read of `size` bytes leaves of the stream. */
  lemma BodyBehind(stream: seq<byte>, left: nat, size: nat, a: nat, b: nat)
    requires
      var m := Min(Min(size, left), |stream|);
      var rest := stream[m..][..Min(left - m, |stream[m..]|)];
      Min(a, |rest|) <= Min(b, |rest|)
    ensures
      var m := Min(Min(size, left), |stream|);
      var body, rest := stream[..Min(left, |stream|)], stream[m..][..Min(left - m, |stream[m..]|)];
      && Min(size + a, |body|) <= Min(size + b, |body|)
      && rest[Min(a, |rest|)..Min(b, |rest|)] == body[Min(size + a, |body|)..Min(size + b, |body|)]
  {
    var m := Min(Min(size, left), |stream|);
    RestOfBody(stream, left, m);
    assert m == Min(size, Min(left, |stream|));
    FromBody(stream[..Min(left, |stream|)], size, a, b);
  }

  /** They give the body, as much of the stream as its length allows, in order and once, and
      then nothing for ever. */
  lemma {:induction false} PlainReadsDeliver(stream: seq<byte>, left: nat, sizes: seq<nat>, k: nat)
    requires k < |sizes|
    ensures
      var body := stream[..Min(left, |stream|)];
      var from, to := Min(Sum(sizes[..k]), |body|), Min(Sum(sizes[..k + 1]), |body|);
      from <= to && PlainReads(stream, left, sizes)[k] == body[from..to]
    decreases k
  {
    hide Sum, PlainReads;
    var m := Min(Min(sizes[0], left), |stream|);
    UnfoldPlain(stream, left, sizes, k);
    SumFirst(sizes, k + 1);
    NoSum(sizes);
    if k == 0 {
      FirstOfBody(stream, left, sizes[0]);
    } else {
      SumFirst(sizes, k);
      PlainReadsDeliver(stream[m..], left - m, sizes[1..], k - 1);
      BodyBehind(stream, left, sizes[0], Sum(sizes[1..][..k - 1]), Sum(sizes[1..][..k]));
    }
  }

  lemma {:induction false} ChunksAppend(chunks: seq<seq<byte>>, c: seq<byte>)
    ensures Chunks(chunks + [c]) == Chunks(chunks) + Chunk(c)
  {
    hide Chunk;
    if chunks == [] {
      assert chunks + [c] == [c];
      assert Chunks([c]) == Chunk(c) + Chunks([]);
    } else {
      assert (chunks + [c])[1..] == chunks[1..] + [c];
      ChunksAppend(chunks[1..], c);
      Regroup(Chunk(chunks[0]), Chunks(chunks[1..]), Chunk(c));
    }
  }

  /** What the writer sends for a list of non-empty chunks and then an empty one is a body
      that the reader is in front of, with the line end of the last chunk as its tail. */
  lemma {:induction false} WrittenIsFramed(chunks: seq<seq<byte>>, rest: seq<byte>)
    requires AllNonEmpty(chunks)
    ensures Framed(Position(Chunks(chunks + [[]]) + rest, 0, false), chunks, CRLF + rest)
  {
    ChunksAppend(chunks, []);
    assert Chunk([]) + rest == LAST_LINE + (CRLF + rest);
    Regroup(Chunks(chunks), Chunk([]), rest);
  }

  datatype Progress = More | Ended | Malformed
}
