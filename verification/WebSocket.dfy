/** WebSocket frames (section 5.2 of RFC 6455): the writer, and the reader that hands
    complete frames to a handler however the bytes arrive. */
module WebSocket {
  import opened Bytes
  import opened Wrappers
  import Chunked
  const MAX_PAYLOAD: nat := 0x7FFF_0000
  const CLOSE: nat := 8

  /** What the handler is given: the first byte of the frame and the payload. */
  datatype Frame = Frame(mop: byte, payload: seq<byte>)

  /* ---- Masking ---- */

  /** Every byte combined with the key, whose bytes are used in turn. */
  function Masked(data: seq<byte>, key: seq<byte>): (m: seq<byte>)
    requires |key| == 4
    ensures |m| == |data|
  {
    seq(|data|, i requires 0 <= i < |data| => Xor(data[i], key[i % 4]))
  }

  lemma MaskedTwice(data: seq<byte>, key: seq<byte>)
    requires |key| == 4
    ensures Masked(Masked(data, key), key) == data
  {
    forall i | 0 <= i < |data| ensures Masked(Masked(data, key), key)[i] == data[i] {
      XorInvolution(data[i], key[i % 4]);
    }
  }

  const NO_KEY: seq<byte> := [0, 0, 0, 0]

  lemma MaskedByZero(data: seq<byte>)
    ensures Masked(data, NO_KEY) == data
  {
    forall i | 0 <= i < |data| ensures Masked(data, NO_KEY)[i] == data[i] {
      XorZero(data[i]);
    }
  }

  ghost predicate MaskedUpTo(input: array<byte>, key: seq<byte>, output: array<byte>, i: nat)
    requires |key| == 4 && i <= input.Length <= output.Length
    reads input, output
  {
    forall k :: 0 <= k < i ==> output[k] == Xor(input[k], key[k % 4])
  }

  /** Masks one aligned word. */
  method MaskWord(input: array<byte>, key: seq<byte>, output: array<byte>, i: nat)
    requires |key| == 4 && input != output && i % 4 == 0 && i + 4 <= input.Length <= output.Length
    requires MaskedUpTo(input, key, output, i)
    modifies output
    ensures MaskedUpTo(input, key, output, i + 4)
  {
    hide Xor;
    output[i], output[i + 1], output[i + 2], output[i + 3] :=
      Xor(input[i], key[0]), Xor(input[i + 1], key[1]), Xor(input[i + 2], key[2]), Xor(input[i + 3], key[3]);
  }

  /** Masks `input` into `output`: whole words as long as there are any if the input is
      aligned, then single bytes. */
  method MaskData(input: array<byte>, key: seq<byte>, aligned: bool, output: array<byte>)
    requires |key| == 4 && input != output && input.Length <= output.Length
    modifies output
    ensures output[..input.Length] == Masked(input[..], key)
  {
    var i := 0;
    if input.Length > 3 && aligned {
      while i < input.Length - 3
        invariant 0 <= i <= input.Length && i % 4 == 0
        invariant MaskedUpTo(input, key, output, i)
      {
        MaskWord(input, key, output, i);
        i := i + 4;
      }
    }
    while i < input.Length
      invariant 0 <= i <= input.Length
      invariant MaskedUpTo(input, key, output, i)
    {
      output[i] := Xor(input[i], key[i % 4]);
      i := i + 1;
    }
  }

  /* ---- Writing ---- */

  /** The first byte of a frame: the final-fragment flag and the opcode. */
  function FirstByte(opcode: int): byte {
    0x80 + opcode % 16
  }

  /** The length field, its first byte without the mask flag. */
  function LengthField(n: nat): (t: seq<byte>)
    ensures |t| > 0 && t[0] < 128
  {
    if n < 126 then [n]
    else if n <= 0xFFFF then [126] + BigEndian(n, 2)
    else [127] + BigEndian(n, 8)
  }

  function Header(opcode: int, n: nat, key: seq<byte>): (h: seq<byte>)
    requires |key| == 4
    ensures |h| <= 14
  {
    var f := LengthField(n);
    [FirstByte(opcode)] + (if key == NO_KEY then f else [f[0] + 0x80] + f[1..] + key)
  }

  /** A frame on the wire; a key of zeros means that the frame is not masked. */
  function Wire(opcode: int, payload: seq<byte>, key: seq<byte>): seq<byte>
    requires |key| == 4
  {
    Header(opcode, |payload|, key) + Masked(payload, key)
  }

  /** How many bytes the header of a frame takes. */
  function HeaderSize(n: nat, key: seq<byte>): nat {
    (if n < 126 then 2 else if n < 65536 then 4 else 10) + (if key == [0, 0, 0, 0] then 0 else 4)
  }

  /** The header of a final frame with `n` bytes of payload: flags and opcode, mask flag and
      length, in the shortest of the three forms, and the key. */
  predicate Announces(h: seq<byte>, opcode: int, n: nat, key: seq<byte>) {
    && |h| == HeaderSize(n, key)
    && h[0] >= 128 && h[0] / 16 % 8 == 0 && h[0] % 16 == opcode % 16
    && (h[1] >= 128 <==> key != [0, 0, 0, 0])
    && (key != [0, 0, 0, 0] ==> h[|h| - 4..] == key)
    && h[1] % 128 == (if n < 126 then n else if n < 65536 then 126 else 127)
    && (126 <= n < 65536 ==> (h[2] as int) * 0x100 + h[3] == n)
    && (65536 <= n ==>
         (((((((h[2] as int) * 0x100 + h[3]) * 0x100 + h[4]) * 0x100 + h[5]) * 0x100
              + h[6]) * 0x100 + h[7]) * 0x100 + h[8]) * 0x100 + h[9] == n)
  }

  lemma TwoBytes(s: seq<byte>)
    requires |s| == 2
    ensures FromBigEndian(s) == (s[0] as int) * 0x100 + s[1]
  {
    assert FromBigEndian(s[..1]) == s[0];
  }

  lemma EightBytes(s: seq<byte>)
    requires |s| == 8
    ensures FromBigEndian(s) ==
      (((((((s[0] as int) * 0x100 + s[1]) * 0x100 + s[2]) * 0x100 + s[3]) * 0x100
           + s[4]) * 0x100 + s[5]) * 0x100 + s[6]) * 0x100 + s[7]
  {
    TwoBytes(s[..2]);
    LastByte(s[..3]);
    LastByte(s[..4]);
    LastByte(s[..5]);
    LastByte(s[..6]);
    LastByte(s[..7]);
    LastByte(s);
    hide FromBigEndian;
    assert s[..3][..2] == s[..2] && s[..4][..3] == s[..3] && s[..5][..4] == s[..4];
    assert s[..6][..5] == s[..5] && s[..7][..6] == s[..6];
  }

  lemma LastByte(s: seq<byte>)
    requires s != []
    ensures FromBigEndian(s) == FromBigEndian(s[..|s| - 1]) * 0x100 + s[|s| - 1]
  {
  }

  lemma HeaderAnnounces(opcode: int, n: nat, key: seq<byte>)
    requires |key| == 4 && n < 0x1_0000_0000_0000_0000
    ensures Announces(Header(opcode, n, key), opcode, n, key)
  {
    WordSizes();
    hide BigEndian, FromBigEndian, Pow256;
    var h := Header(opcode, n, key);
    if 126 <= n {
      var w := if n <= 0xFFFF then 2 else 8;
      BigEndianRoundTrip(n, w);
      assert h[2..2 + w] == BigEndian(n, w);
      if w == 2 {
        TwoBytes(h[2..4]);
      } else {
        EightBytes(h[2..10]);
      }
    }
  }

  method MakeHeader(opcode: int, n: nat, key: seq<byte>) returns (header: seq<byte>)
    requires |key| == 4
    ensures header == Header(opcode, n, key)
  {
    header := [FirstByte(opcode)];
    if n < 126 {
      header := header + [n];
    } else if n <= 0xFFFF {
      header := header + [126] + BigEndian(n, 2);
    } else {
      header := header + [127] + BigEndian(n, 8);
    }
    assert header == [FirstByte(opcode)] + LengthField(n);
    hide LengthField, FirstByte;
    if key != NO_KEY {
      SetMaskFlag(FirstByte(opcode), LengthField(n), key);
      header := header[1 := header[1] + 0x80];
      header := header + key;
    }
  }

  lemma SetMaskFlag(first: byte, f: seq<byte>, key: seq<byte>)
    requires |f| > 0 && f[0] < 128
    ensures ([first] + f)[1 := f[0] + 0x80] + key == [first] + ([f[0] + 0x80] + f[1..] + key)
  {
  }

  /** Sends a header and the data behind it, which the caller has masked, or as much as
      the connection takes. */
  method WriteExec(out: Chunked.Output, opcode: int, data: seq<byte>, key: seq<byte>) returns (ret: int)
    requires |key| == 4
    modifies out
    ensures
      var header := Header(opcode, |data|, key);
      var all := if |data| <= INT_MAX then header + data else header;
      var m := Min(|all|, old(out.room));
      && out.sent == old(out.sent) + all[..m] && out.room == old(out.room) - m
      && ret == (if m < |header| then -1
                 else if data == [] then |header|
                 else if m == |header| then -1 else m - |header|)
    ensures |data| < 0x1_0000_0000_0000_0000 ==> Announces(Header(opcode, |data|, key), opcode, |data|, key)
  {
    hide Header, Announces;
    if |data| < 0x1_0000_0000_0000_0000 {
      HeaderAnnounces(opcode, |data|, key);
    }
    ghost var before := out.sent;
    var header := MakeHeader(opcode, |data|, key);
    Chunked.PartByPart(header, data, out.room);
    ret := out.Write(header);
    if ret != |header| {
      return -1;
    }
    assert out.sent == before + header;
    if |data| > 0 {
      ret := out.Write(data);
      Regroup(before, header, data[..Min(|data|, old(out.room) - |header|)]);
    }
  }

  /** A server does not mask its frames. */
  method Write(out: Chunked.Output, opcode: int, data: seq<byte>) returns (ret: int)
    modifies out
    ensures |data| <= INT_MAX ==>
      var wire := Wire(opcode, data, NO_KEY);
      var m := Min(|wire|, old(out.room));
      && out.sent == old(out.sent) + wire[..m] && out.room == old(out.room) - m
      && (m == |wire| ==> ret == if data == [] then 2 else |data|)
    ensures |data| > INT_MAX ==> ret == -1
  {
    MaskedByZero(data);
    ret := WriteExec(out, opcode, data, NO_KEY);
  }

  /** A client masks its frames with a key that is not zero. */
  method ClientWrite(out: Chunked.Output, opcode: int, data: array<byte>, aligned: bool, key: seq<byte>)
    returns (ret: int)
    requires |key| == 4 && key != NO_KEY
    modifies out
    ensures data.Length <= INT_MAX ==>
      var wire := Wire(opcode, data[..], key);
      var m := Min(|wire|, old(out.room));
      && out.sent == old(out.sent) + wire[..m] && out.room == old(out.room) - m
      && (m == |wire| ==> ret == if data.Length == 0 then 6 else data.Length)
    ensures data.Length > INT_MAX ==> ret == -1
  {
    var masked := new byte[(data.Length + 7) / 4 * 4];
    MaskData(data, key, aligned, masked);
    ret := WriteExec(out, opcode, masked[..data.Length], key);
  }

  /* ---- Reading, on the whole byte stream ---- */

  datatype HeaderInfo = Incomplete | TooLarge | Info(maskLen: nat, headerLen: nat, dataLen: nat)

  /** What the reader makes of the bytes it has. */
  function HeaderOf(s: seq<byte>): (h: HeaderInfo)
    ensures h.Info? ==> 2 <= h.headerLen && h.maskLen <= h.headerLen - 2 && (h.maskLen == 0 || h.maskLen == 4)
  {
    if |s| < 2 then Incomplete
    else
      var len, maskLen := s[1] % 128, if s[1] >= 128 then 4 else 0;
      if len < 126 && |s| >= maskLen then Info(maskLen, 2 + maskLen, len)
      else if len == 126 && |s| >= 4 + maskLen then Info(maskLen, 4 + maskLen, FromBigEndian(s[2..4]))
      else if |s| >= 10 + maskLen then
        var n := FromBigEndian(s[2..10]);
        if n > MAX_PAYLOAD then TooLarge else Info(maskLen, 10 + maskLen, n)
      else Incomplete
  }

  /** The payload of the frame that `s` starts with. */
  function PayloadOf(s: seq<byte>, h: HeaderInfo): seq<byte>
    requires h == HeaderOf(s) && h.Info? && h.headerLen + h.dataLen <= |s|
  {
    var data := s[h.headerLen..h.headerLen + h.dataLen];
    if h.maskLen == 0 then data else Masked(data, s[h.headerLen - 4..h.headerLen])
  }

  /** The handler has been given `frames`, the last of them just now: whether the reader
      goes on. */
  predicate GoesOn(keep: seq<Frame> -> bool, frames: seq<Frame>)
    requires frames != []
  {
    keep(frames) && frames[|frames| - 1].mop % 16 != CLOSE
  }

  /** All frames the handler is given if the stream goes on with `s` and then ends, and
      the queue has room for `room` bytes: a header that does not fit ends the reading. */
  function Delivered(s: seq<byte>, room: nat, before: seq<Frame>, keep: seq<Frame> -> bool): seq<Frame>
    decreases |s|
  {
    var h := HeaderOf(s);
    if !h.Info? || h.headerLen > room || h.headerLen + h.dataLen > |s| then before
    else
      var frames := before + [Frame(s[0], PayloadOf(s, h))];
      if GoesOn(keep, frames) then Delivered(s[h.headerLen + h.dataLen..], room, frames, keep) else frames
  }

  /** More bytes do not change a header that is there. */
  lemma HeaderStays(s: seq<byte>, more: seq<byte>)
    ensures HeaderOf(s) != Incomplete ==> HeaderOf(s + more) == HeaderOf(s)
  {
    var t := s + more;
    if |s| >= 4 {
      assert t[2..4] == s[2..4];
    }
    if |s| >= 10 {
      assert t[2..10] == s[2..10];
    }
  }

  /** If a header is not complete in a full queue, it does not fit. */
  lemma FullQueue(s: seq<byte>, more: seq<byte>)
    requires HeaderOf(s) == Incomplete || (HeaderOf(s).Info? && |s| < HeaderOf(s).headerLen)
    ensures HeaderOf(s + more).Info? ==> HeaderOf(s + more).headerLen > |s|
  {
    var t := s + more;
    if |s| >= 4 {
      assert t[2..4] == s[2..4];
    }
    if |s| >= 10 {
      assert t[2..10] == s[2..10];
    }
  }

  /* ---- Reading from a connection ---- */

  /** The input side of a connection. The queue is what the buffer holds behind the
      request that opened the connection; the pieces of `socket` are still to arrive, an
      empty piece is a timeout. */
  class Input {
    const buf: array<byte>
    const requestLen: nat
    var dataLen: nat
    var socket: seq<seq<byte>>
    var log: seq<Frame>

    constructor (buf: array<byte>, requestLen: nat, dataLen: nat, socket: seq<seq<byte>>)
      requires requestLen <= dataLen <= buf.Length
      ensures Valid() && this.buf == buf && this.requestLen == requestLen && log == []
      ensures Stream() == buf[requestLen..dataLen] + Chunked.Flatten(socket)
    {
      this.buf, this.requestLen, this.dataLen, this.socket, log := buf, requestLen, dataLen, socket, [];
    }

    predicate Valid()
      reads this
    {
      requestLen <= dataLen <= buf.Length
    }

    /** How many bytes the queue can hold behind the request. */
    function Room(): nat
      requires Valid()
      reads this
    {
      buf.Length - requestLen
    }

    function Queue(): seq<byte>
      requires Valid()
      reads this, buf
    {
      buf[requestLen..dataLen]
    }

    /** All bytes that have not been taken out as frames. */
    ghost function Stream(): seq<byte>
      requires Valid()
      reads this, buf
    {
      Queue() + Chunked.Flatten(socket)
    }

    /** Takes what has arrived, up to `len` bytes. */
    method PullInner(target: array<byte>, at: nat, len: nat) returns (n: int)
      requires len > 0 && at + len <= target.Length
      modifies this`socket, target
      ensures n == -2 <==> old(socket) == []
      ensures n == -2 ==> socket == []
      ensures n == -1 || n == -2 || 0 < n <= len
      ensures
        var m, all := (if n < 0 then 0 else n), Chunked.Flatten(old(socket));
        && m <= |all| && Chunked.Flatten(socket) == all[m..]
        && target[..at + m] == old(target[..at]) + all[..m]
      ensures n == -1 ==> |socket| < |old(socket)|
    {
      if socket == [] {
        return -2;
      }
      var piece := socket[0];
      if piece == [] {
        socket := socket[1..];
        return -1;
      }
      var m := Min(len, |piece|);
      forall i | 0 <= i < m {
        target[at + i] := piece[i];
      }
      ghost var all := Chunked.Flatten(socket);
      assert target[..at + m] == old(target[..at]) + piece[..m];
      assert all[..m] == piece[..m] && all[m..] == piece[m..] + Chunked.Flatten(socket[1..]);
      socket := socket[0 := piece[m..]];
      assert socket[1..] == old(socket)[1..];
      n := m;
    }

    /** Pulls the rest of a payload straight into `data`, which holds `len` bytes of it. */
    method PullPayload(data: array<byte>, len: nat) returns (ok: bool)
      requires len <= data.Length && data != buf
      modifies this`socket, data
      ensures
        var all, need := Chunked.Flatten(old(socket)), data.Length - len;
        && (ok <==> need <= |all|)
        && (ok ==> data[..] == old(data[..len]) + all[..need] && Chunked.Flatten(socket) == all[need..])
    {
      hide Chunked.Flatten;
      ghost var all, head := Chunked.Flatten(socket), data[..len];
      var have := len;
      assert all[..0] == [] && all[0..] == all;
      while have < data.Length
        invariant len <= have <= data.Length && have - len <= |all|
        invariant data[..have] == head + all[..have - len]
        invariant Chunked.Flatten(socket) == all[have - len..]
        decreases data.Length - have, |socket|
      {
        var n := PullInner(data, have, data.Length - have);
        if n <= -2 {
          NothingLeft();
          return false;
        }
        if n > 0 {
          Chunked.TakeTwice(all, have - len, n);
          Regroup(head, all[..have - len], all[have - len..][..n]);
          have := have + n;
        }
      }
      assert data[..] == data[..have];
      ok := true;
    }

    lemma NothingLeft()
      ensures Chunked.Flatten([]) == []
    {
    }

    /** Combines a payload with the mask in place. */
    method Unmask(data: array<byte>, mask: seq<byte>)
      requires |mask| == 4
      modifies data
      ensures data[..] == Masked(old(data[..]), mask)
    {
      var i := 0;
      while i < data.Length
        invariant 0 <= i <= data.Length
        invariant forall k :: 0 <= k < i ==> data[k] == Xor(old(data[k]), mask[k % 4])
        invariant forall k :: i <= k < data.Length ==> data[k] == old(data[k])
      {
        data[i] := Xor(data[i], mask[i % 4]);
        i := i + 1;
      }
    }

    /** Moves the queue forward by `len` bytes. */
    method Advance(len: nat)
      requires Valid() && requestLen + len <= dataLen
      modifies this`dataLen, buf
      ensures Valid() && Queue() == old(Queue())[len..]
    {
      var rest := dataLen - requestLen - len;
      ghost var moved := Queue()[len..];
      assert forall i :: 0 <= i < rest ==> moved[i] == buf[requestLen + len + i];
      forall i | 0 <= i < rest {
        buf[requestLen + i] := buf[requestLen + len + i];
      }
      dataLen := dataLen - len;
      assert Queue() == moved;
    }

    /** Takes a header of `headerLen` bytes and a payload out of the stream, if they arrive
        as a whole; the payload goes to `data`. */
    method TakePayload(headerLen: nat, data: array<byte>) returns (ok: bool)
      requires Valid() && |Queue()| >= headerLen && data != buf
      modifies this`dataLen, this`socket, buf, data
      ensures Valid()
      ensures
        var s, total := old(Stream()), headerLen + data.Length;
        && (ok <==> total <= |s|)
        && (ok ==> data[..] == s[headerLen..total] && Stream() == s[total..])
    {
      ghost var s, queue, all := Stream(), Queue(), Chunked.Flatten(socket);
      hide Chunked.Flatten;
      var total, bodyLen := headerLen + data.Length, dataLen - requestLen;
      if total > bodyLen {
        var len := bodyLen - headerLen;
        CopyOut(headerLen, data, len);
        assert queue[headerLen..bodyLen] == queue[headerLen..];
        ok := PullPayload(data, len);
        if ok {
          dataLen := requestLen;
          SplitPayload(queue, all, headerLen, data.Length);
        }
      } else {
        CopyOut(headerLen, data, data.Length);
        assert data[..data.Length] == data[..];
        Advance(total);
        WithinQueue(queue, all, headerLen, total);
        ok := true;
      }
    }

    /** Copies `len` bytes of the queue behind the header. */
    method CopyOut(headerLen: nat, data: array<byte>, len: nat)
      requires Valid() && headerLen + len <= |Queue()| && len <= data.Length && data != buf
      modifies data
      ensures data[..len] == Queue()[headerLen..headerLen + len]
    {
      forall i | 0 <= i < len {
        data[i] := buf[requestLen + headerLen + i];
      }
      assert forall i :: 0 <= i < len ==> data[i] == Queue()[headerLen + i];
    }

    lemma WithinQueue(queue: seq<byte>, all: seq<byte>, from: nat, total: nat)
      requires from <= total <= |queue|
      ensures queue[from..total] == (queue + all)[from..total] && queue[total..] + all == (queue + all)[total..]
    {
    }

    /** Takes the frame whose header stands in the queue out of the stream, if it arrives
        as a whole. */
    method TakeFrame(h: HeaderInfo) returns (frame: Option<Frame>)
      requires Valid() && h == HeaderOf(Queue()) && h.Info? && |Queue()| >= h.headerLen
      modifies this`dataLen, this`socket, buf
      ensures Valid()
      ensures
        var s, total := old(Stream()), h.headerLen + h.dataLen;
        && (frame.Some? <==> total <= |s|)
        && h == HeaderOf(s)
        && (frame.Some? ==> frame.value == Frame(s[0], PayloadOf(s, h)) && Stream() == s[total..])
    {
      ghost var s, queue, all := Stream(), Queue(), Chunked.Flatten(socket);
      HeaderStays(queue, all);
      hide HeaderOf, Stream, Chunked.Flatten;
      var data := new byte[h.dataLen];
      var mask := new byte[4];
      if h.maskLen > 0 {
        CopyOut(h.headerLen - 4, mask, 4);
        assert mask[..] == mask[..4];
        WithinQueue(queue, all, h.headerLen - 4, h.headerLen);
      }
      var mop := buf[requestLen];
      assert mop == queue[0] == s[0];
      var ok := TakePayload(h.headerLen, data);
      if !ok {
        return None;
      }
      if h.maskLen > 0 {
        Unmask(data, mask[..]);
      }
      frame := Some(Frame(mop, data[..]));
    }

    lemma SplitPayload(queue: seq<byte>, all: seq<byte>, from: nat, n: nat)
      requires from <= |queue| <= from + n <= |queue| + |all|
      ensures
        var need := n - (|queue| - from);
        && queue[from..] + all[..need] == (queue + all)[from..from + n]
        && [] + all[need..] == (queue + all)[from + n..]
    {
    }

    /** Reads what arrives into the buffer; not, if the stream has ended or something
        arrives for which there is no room. */
    method PullMore() returns (ok: bool)
      requires Valid()
      modifies this`dataLen, this`socket, buf
      ensures Valid() && (ok ==> Stream() == old(Stream()))
      ensures !ok ==> old(Stream()) == old(Queue()) || |old(Queue())| == Room()
      ensures |Chunked.Flatten(socket)| <= |Chunked.Flatten(old(socket))|
      ensures ok && |Chunked.Flatten(socket)| == |Chunked.Flatten(old(socket))| ==> |socket| < |old(socket)|
    {
      if dataLen == buf.Length {
        ok := WaitWhenFull();
      } else {
        ok := PullIntoRoom();
      }
    }

    /** With a full buffer, a timeout is waited for again, and anything else ends it. */
    method WaitWhenFull() returns (ok: bool)
      requires Valid()
      modifies this`socket
      ensures Valid() && (ok ==> Stream() == old(Stream()))
      ensures |Chunked.Flatten(socket)| == |Chunked.Flatten(old(socket))|
      ensures ok ==> |socket| < |old(socket)|
    {
      if |socket| == 0 || socket[0] != [] {
        return false;
      }
      socket := socket[1..];
      ok := true;
    }

    method PullIntoRoom() returns (ok: bool)
      requires Valid() && dataLen < buf.Length
      modifies this`dataLen, this`socket, buf
      ensures Valid() && Stream() == old(Stream())
      ensures !ok ==> old(Stream()) == old(Queue())
      ensures |Chunked.Flatten(socket)| <= |Chunked.Flatten(old(socket))|
      ensures ok && |Chunked.Flatten(socket)| == |Chunked.Flatten(old(socket))| ==> |socket| < |old(socket)|
    {
      hide Chunked.Flatten;
      ghost var head, queue, all := buf[..dataLen], Queue(), Chunked.Flatten(socket);
      var n := PullInner(buf, dataLen, buf.Length - dataLen);
      ghost var m := if n < 0 then 0 else n;
      assert buf[requestLen..dataLen + m] == buf[..dataLen + m][requestLen..];
      DropHead(head, all[..m], requestLen);
      assert queue == head[requestLen..];
      TakeAll(queue, all, m);
      ok := n > -2;
      if n > 0 {
        dataLen := dataLen + n;
      } else if !ok {
        NothingLeft();
      }
    }

    lemma DropHead(head: seq<byte>, more: seq<byte>, r: nat)
      requires r <= |head|
      ensures (head + more)[r..] == head[r..] + more
    {
    }

    lemma TakeAll(queue: seq<byte>, all: seq<byte>, m: nat)
      requires m <= |all|
      ensures queue + all == queue + all[..m] + all[m..] && queue + all[..0] == queue + [] == queue
    {
    }

    /** What is still to come, for the termination of the reader. */
    ghost predicate Less(bytes: nat, pieces: nat, stream: nat)
      requires Valid()
      reads this, buf
    {
      var left := |Chunked.Flatten(socket)|;
      |Stream()| < stream || (|Stream()| == stream && (left < bytes || (left == bytes && |socket| < pieces)))
    }

    /** One turn of the reader: a frame is handed to the handler, or more is read. */
    method Turn(keep: seq<Frame> -> bool) returns (on: bool)
      requires Valid()
      modifies this, buf
      ensures Valid() && Room() == old(Room())
      ensures
        var expected := Delivered(old(Stream()), Room(), old(log), keep);
        if on then Delivered(Stream(), Room(), log, keep) == expected else log == expected
      ensures on ==> Less(old(|Chunked.Flatten(socket)|), old(|socket|), old(|Stream()|))
    {
      var bodyLen := dataLen - requestLen;
      var h := HeaderOf(Queue());
      HeaderStays(Queue(), Chunked.Flatten(socket));
      if h.TooLarge? {
        return false;
      }
      if h.Info? && bodyLen >= h.headerLen {
        on := HandOver(h, keep);
      } else {
        FullQueue(Queue(), Chunked.Flatten(socket));
        hide HeaderOf;
        on := PullMore();
      }
    }

    /** Takes the frame that stands in the queue and hands it to the handler. */
    method HandOver(h: HeaderInfo, keep: seq<Frame> -> bool) returns (on: bool)
      requires Valid() && h == HeaderOf(Queue()) && h.Info? && |Queue()| >= h.headerLen
      modifies this, buf
      ensures Valid() && Room() == old(Room())
      ensures
        var expected := Delivered(old(Stream()), Room(), old(log), keep);
        if on then Delivered(Stream(), Room(), log, keep) == expected && |Stream()| < |old(Stream())|
        else log == expected
    {
      hide HeaderOf;
      var frame := TakeFrame(h);
      if frame.None? {
        return false;
      }
      log := log + [frame.value];
      on := keep(log) && frame.value.mop % 16 != CLOSE;
    }

    /** The reader: hands frames to the handler, and takes what arrives, until the stream
        ends, the handler stops it or a close frame comes. */
    method ReadWebsocket(keep: seq<Frame> -> bool)
      requires Valid() && log == []
      modifies this, buf
      ensures Valid() && log == Delivered(old(Stream()), Room(), [], keep)
    {
      hide Delivered;
      ghost var expected := Delivered(Stream(), Room(), [], keep);
      var on := true;
      while on
        invariant Valid() && Room() == old(Room())
        invariant if on then Delivered(Stream(), Room(), log, keep) == expected else log == expected
        decreases on, |Stream()|, |Chunked.Flatten(socket)|, |socket|
      {
        on := Turn(keep);
      }
    }
  }

  /* ---- The reader undoes the writer ---- */

  /** A message as the sender gives it; a key of zeros means that it is not masked. */
  datatype Message = Message(opcode: int, payload: seq<byte>, key: seq<byte>)

  /** The reader takes payloads up to 2^31 - 2^16 bytes. */
  predicate Sendable(m: Message) {
    |m.key| == 4 && |m.payload| <= 0x7FFF_0000
  }

  function Received(m: Message): Frame {
    Frame(FirstByte(m.opcode), m.payload)
  }

  function WireAll(ms: seq<Message>): seq<byte>
    requires forall k :: 0 <= k < |ms| ==> Sendable(ms[k])
  {
    if ms == [] then []
    else
      assert Sendable(ms[0]);
      Wire(ms[0].opcode, ms[0].payload, ms[0].key) + WireAll(ms[1..])
  }

  /** The messages up to the one at which the handler stops or the close message, and to
      before the first one whose header does not fit the room. */
  function UpToStop(ms: seq<Message>, room: nat, before: seq<Frame>, keep: seq<Frame> -> bool): seq<Frame>
    requires forall k :: 0 <= k < |ms| ==> Sendable(ms[k])
  {
    if ms == [] then before
    else
      assert Sendable(ms[0]);
      if |Header(ms[0].opcode, |ms[0].payload|, ms[0].key)| > room then before
      else
        var frames := before + [Received(ms[0])];
        if GoesOn(keep, frames) then UpToStop(ms[1..], room, frames, keep) else frames
  }

  /** The length field tells its own form and the length. */
  lemma LengthRead(n: nat)
    requires n <= MAX_PAYLOAD
    ensures
      var f := LengthField(n);
      if n < 126 then f == [n]
      else if n <= 0xFFFF then |f| == 3 && f[0] == 126 && FromBigEndian(f[1..]) == n
      else |f| == 9 && f[0] == 127 && FromBigEndian(f[1..]) == n
  {
    WordSizes();
    var w := if n <= 0xFFFF then 2 else 8;
    assert n < Pow256(w);
    hide FromBigEndian, BigEndian, Pow256;
    BigEndianRoundTrip(n, w);
    if n >= 126 {
      assert LengthField(n)[1..] == BigEndian(n, w);
    }
  }

  /** The reader finds the header that the writer wrote. */
  lemma HeaderRead(m: Message, rest: seq<byte>)
    requires Sendable(m)
    ensures
      var h := Header(m.opcode, |m.payload|, m.key);
      HeaderOf(h + rest) == Info(if m.key == NO_KEY then 0 else 4, |h|, |m.payload|)
  {
    var n := |m.payload|;
    var f, h := LengthField(n), Header(m.opcode, n, m.key);
    var s := h + rest;
    LengthRead(n);
    hide LengthField, FromBigEndian, BigEndian, Pow256;
    assert s[1] % 128 == f[0];
    if n >= 126 {
      assert s[2..1 + |f|] == f[1..];
    }
  }

  lemma WireRead(m: Message, rest: seq<byte>)
    requires Sendable(m)
    ensures
      var s := Wire(m.opcode, m.payload, m.key) + rest;
      var h := HeaderOf(s);
      && h.Info? && h.headerLen == HeaderSize(|m.payload|, m.key)
      && h.headerLen == |Header(m.opcode, |m.payload|, m.key)|
      && h.headerLen + h.dataLen == |Wire(m.opcode, m.payload, m.key)|
      && s[0] >= 128 && s[0] / 16 % 8 == 0 && s[0] % 16 == m.opcode % 16
      && s[0] == FirstByte(m.opcode) && PayloadOf(s, h) == m.payload
      && s[h.headerLen + h.dataLen..] == rest
  {
    var header, data := Header(m.opcode, |m.payload|, m.key), Masked(m.payload, m.key);
    var s := header + data + rest;
    HeaderRead(m, data + rest);
    Regroup(header, data, rest);
    var h := HeaderOf(s);
    hide HeaderOf;
    assert s[h.headerLen..h.headerLen + h.dataLen] == data;
    if m.key == NO_KEY {
      MaskedByZero(m.payload);
    } else {
      assert s[h.headerLen - 4..h.headerLen] == header[|header| - 4..] == m.key;
      MaskedTwice(m.payload, m.key);
    }
  }

  /** What stands on the wire: the header, then each byte of the payload, combined with the
      key byte of its position unless the key is zero. */
  lemma WireLayout(opcode: int, payload: seq<byte>, key: seq<byte>)
    requires |key| == 4 && |payload| < 0x1_0000_0000_0000_0000
    ensures
      var (w, n) := (Wire(opcode, payload, key), HeaderSize(|payload|, key));
      && |w| == n + |payload| && Announces(w[..n], opcode, |payload|, key)
      && forall i :: 0 <= i < |payload| ==>
           w[n..][i] == if key == [0, 0, 0, 0] then payload[i] else Xor(payload[i], key[i % 4])
  {
    hide Header, Xor;
    HeaderAnnounces(opcode, |payload|, key);
    var h := Header(opcode, |payload|, key);
    assert |h| == HeaderSize(|payload|, key);
    hide Announces;
    var w := Wire(opcode, payload, key);
    assert w[..|h|] == h && w[|h|..] == Masked(payload, key);
    if key == NO_KEY {
      MaskedByZero(payload);
    }
  }

  /** A frame of any sender: any first byte, the length in any of the three forms, and
      masked or not. */
  function FrameBytes(first: byte, width: nat, key: Option<seq<byte>>, payload: seq<byte>): seq<byte>
    requires key.Some? ==> |key.value| == 4
    requires width == 0 ==> |payload| < 126
  {
    var flag := if key.Some? then 128 else 0;
    var len := if width == 0 then |payload| else if width == 2 then 126 else 127;
    [first, flag + len] + BigEndian(|payload|, width)
    + if key.Some? then key.value + Masked(payload, key.value) else payload
  }

  predicate FrameFits(width: nat, key: Option<seq<byte>>, payload: seq<byte>) {
    && (key.Some? ==> |key.value| == 4)
    && (|| (width == 0 && |payload| < 126)
        || (width == 2 && |payload| < 65536)
        || (width == 8 && |payload| <= 0x7FFF_0000))
  }

  /** Where its length stands. */
  lemma LengthPlace(first: byte, width: nat, key: Option<seq<byte>>, payload: seq<byte>, rest: seq<byte>)
    requires FrameFits(width, key, payload)
    ensures
      var s := FrameBytes(first, width, key, payload) + rest;
      && |s| >= 2 + width + (if key.Some? then 4 else 0)
      && s[1] == (if key.Some? then 128 else 0) + (if width == 0 then |payload| else if width == 2 then 126 else 127)
      && s[2..2 + width] == BigEndian(|payload|, width)
      && |FrameBytes(first, width, key, payload)| == 2 + width + (if key.Some? then 4 else 0) + |payload|
  {
    hide BigEndian, Masked;
    var (s, n) := (FrameBytes(first, width, key, payload) + rest, BigEndian(|payload|, width));
    assert forall k :: 0 <= k < width ==> s[2..2 + width][k] == n[k];
  }

  /** Its header is read. */
  lemma FrameHeaderRead(first: byte, width: nat, key: Option<seq<byte>>, payload: seq<byte>, rest: seq<byte>)
    requires FrameFits(width, key, payload)
    ensures
      var f := FrameBytes(first, width, key, payload);
      HeaderOf(f + rest) == Info(if key.Some? then 4 else 0, |f| - |payload|, |payload|)
  {
    WordSizes();
    hide FromBigEndian, BigEndian, Pow256, FrameBytes;
    BigEndianRoundTrip(|payload|, if width == 0 then 8 else width);
    LengthPlace(first, width, key, payload, rest);
  }

  /** Every such frame is read, whatever stands behind it. */
  lemma FrameRead(first: byte, width: nat, key: Option<seq<byte>>, payload: seq<byte>, rest: seq<byte>)
    requires FrameFits(width, key, payload)
    ensures
      var (f, h) := (FrameBytes(first, width, key, payload), HeaderOf(FrameBytes(first, width, key, payload) + rest));
      && h == Info(if key.Some? then 4 else 0, |f| - |payload|, |payload|)
      && Frame((f + rest)[0], PayloadOf(f + rest, h)) == Frame(first, payload)
  {
    hide HeaderOf, Masked, BigEndian;
    FrameHeaderRead(first, width, key, payload, rest);
    var f := FrameBytes(first, width, key, payload);
    var (s, k) := (f + rest, |f| - |payload|);
    if key.Some? {
      assert s[k - 4..k] == key.value && s[k..|f|] == Masked(payload, key.value);
      MaskedTwice(payload, key.value);
    } else {
      assert s[k..|f|] == payload;
    }
  }

  lemma NoBytes(n: nat)
    ensures BigEndian(n, 0) == []
  {
  }

  /** The length of a frame that is read, in its own form. */
  lemma LengthOfFrame(s: seq<byte>)
    requires HeaderOf(s).Info? && HeaderOf(s).headerLen <= |s|
    ensures
      var h := HeaderOf(s);
      var width := if s[1] % 128 < 126 then 0 else if s[1] % 128 == 126 then 2 else 8;
      && h.maskLen == (if s[1] >= 128 then 4 else 0) && h.headerLen == 2 + width + h.maskLen
      && BigEndian(h.dataLen, width) == s[2..2 + width]
      && if width == 0 then h.dataLen == s[1] % 128
         else h.dataLen < 65536 || (width == 8 && h.dataLen <= 0x7FFF_0000)
  {
    WordSizes();
    hide FromBigEndian, BigEndian, Pow256;
    var h := HeaderOf(s);
    NoBytes(h.dataLen);
    if s[1] % 128 >= 126 {
      BigEndianOfBytes(s[2..2 + if s[1] % 128 == 126 then 2 else 8]);
    }
  }

  lemma FourParts(s: seq<byte>, a: nat, b: nat, c: nat)
    requires 2 <= a <= b <= c <= |s|
    ensures s[..c] == [s[0], s[1]] + s[2..a] + (s[a..b] + s[b..c])
    ensures a == b ==> s[a..b] + s[b..c] == s[b..c]
  {
  }

  /** And nothing else is: what the reader takes for a frame is one. */
  lemma ReadIsFrame(s: seq<byte>)
    requires HeaderOf(s).Info? && HeaderOf(s).headerLen + HeaderOf(s).dataLen <= |s|
    ensures
      var h := HeaderOf(s);
      var width := if s[1] % 128 < 126 then 0 else if s[1] % 128 == 126 then 2 else 8;
      var key := if s[1] >= 128 then Some(s[h.headerLen - 4..h.headerLen]) else None;
      && FrameFits(width, key, PayloadOf(s, h))
      && s[..h.headerLen + h.dataLen] == FrameBytes(s[0], width, key, PayloadOf(s, h))
  {
    hide HeaderOf, BigEndian, Masked;
    LengthOfFrame(s);
    var h := HeaderOf(s);
    var width := if s[1] % 128 < 126 then 0 else if s[1] % 128 == 126 then 2 else 8;
    var data := s[h.headerLen..h.headerLen + h.dataLen];
    FourParts(s, 2 + width, h.headerLen, h.headerLen + h.dataLen);
    if s[1] >= 128 {
      var key := s[h.headerLen - 4..h.headerLen];
      MaskedTwice(data, key);
      assert s[1] == 128 + s[1] % 128;
    } else {
      assert s[1] == s[1] % 128;
    }
  }

  lemma EmptyStream()
    ensures HeaderOf([]) == Incomplete
  {
  }

  predicate HasRoom(m: Message, room: nat) {
    HeaderSize(|m.payload|, m.key) <= room
  }

  /** The frame is the only one of its message, with its opcode and its payload, and its
      header fits the room. */
  predicate Carries(f: Frame, m: Message, room: nat) {
    && f.mop >= 128 && f.mop / 16 % 8 == 0 && f.mop % 16 == m.opcode % 16 && f.payload == m.payload
    && HasRoom(m, room)
  }

  /** The last frame closes, or the handler stops at it. */
  predicate EndsAt(fs: seq<Frame>, keep: seq<Frame> -> bool)
    requires fs != []
  {
    fs[|fs| - 1].mop % 16 == 8 || !keep(fs)
  }

  /** The frames `fs` begin with `before` and go on with messages in order. They end with
      the messages, or behind a close message or one after which the handler stops, or
      before the first one whose header does not fit the room. */
  predicate InOrder(fs: seq<Frame>, ms: seq<Message>, room: nat, before: seq<Frame>, keep: seq<Frame> -> bool) {
    && before <= fs && |fs| <= |before| + |ms|
    && (forall i :: |before| <= i < |fs| ==> Carries(fs[i], ms[i - |before|], room))
    && (forall i :: |before| < i < |fs| ==> !EndsAt(fs[..i], keep))
    && (|fs| < |before| + |ms| ==> !HasRoom(ms[|fs| - |before|], room) || (|fs| > |before| && EndsAt(fs, keep)))
  }

  lemma SizeOfHeader(m: Message)
    requires Sendable(m)
    ensures |Header(m.opcode, |m.payload|, m.key)| == HeaderSize(|m.payload|, m.key)
  {
    HeaderAnnounces(m.opcode, |m.payload|, m.key);
  }

  lemma ReceivedCarries(m: Message, room: nat, before: seq<Frame>, keep: seq<Frame> -> bool)
    requires HasRoom(m, room)
    ensures Carries(Received(m), m, room)
    ensures GoesOn(keep, before + [Received(m)]) <==> !EndsAt(before + [Received(m)], keep)
  {
  }

  lemma OneInOrder(f: Frame, m: Message, rest: seq<Message>, room: nat, before: seq<Frame>, keep: seq<Frame> -> bool)
    requires Carries(f, m, room) && EndsAt(before + [f], keep)
    ensures InOrder(before + [f], [m] + rest, room, before, keep)
  {
    hide HasRoom, Carries, EndsAt;
  }

  lemma MoreInOrder(fs: seq<Frame>, f: Frame, m: Message, rest: seq<Message>, room: nat, before: seq<Frame>,
                    keep: seq<Frame> -> bool)
    requires Carries(f, m, room) && !EndsAt(before + [f], keep)
    requires InOrder(fs, rest, room, before + [f], keep)
    ensures InOrder(fs, [m] + rest, room, before, keep)
  {
    hide HasRoom, Carries, EndsAt;
    var (frames, ms, b) := (before + [f], [m] + rest, |before|);
    assert fs[..b + 1] == frames && fs[b] == f && fs[..b] == before;
    forall i | b <= i < |fs| ensures Carries(fs[i], ms[i - b], room) {
      if i > b {
        assert ms[i - b] == rest[i - |frames|];
      }
    }
    forall i | b < i < |fs| ensures !EndsAt(fs[..i], keep) {
      assert i == b + 1 || |frames| < i;
    }
    assert before <= fs && |fs| <= b + |ms|;
    if |fs| < b + |ms| {
      var k := |fs| - |frames|;
      assert ms[|fs| - b] == ms[k + 1] == rest[k];
    }
  }

  lemma {:induction false} UpToStopInOrder(ms: seq<Message>, room: nat, before: seq<Frame>, keep: seq<Frame> -> bool)
    requires forall k :: 0 <= k < |ms| ==> Sendable(ms[k])
    ensures InOrder(UpToStop(ms, room, before, keep), ms, room, before, keep)
    decreases |ms|
  {
    hide Header, HeaderSize, GoesOn, EndsAt, Received, Carries;
    if ms == [] {
    } else {
      var (m, f) := (ms[0], Received(ms[0]));
      SizeOfHeader(m);
      if HasRoom(m, room) {
        hide InOrder;
        ReceivedCarries(m, room, before, keep);
        assert ms == [m] + ms[1..];
        if GoesOn(keep, before + [f]) {
          UpToStopInOrder(ms[1..], room, before + [f], keep);
          MoreInOrder(UpToStop(ms, room, before, keep), f, m, ms[1..], room, before, keep);
        } else {
          OneInOrder(f, m, ms[1..], room, before, keep);
        }
      }
    }
  }

  /** For any messages, masked or not, the frames on the wire are delivered as exactly
      these opcodes and payloads, in order, up to the stop. */
  lemma {:induction false} WireDelivered(ms: seq<Message>, room: nat, before: seq<Frame>, keep: seq<Frame> -> bool)
    requires forall k :: 0 <= k < |ms| ==> Sendable(ms[k])
    ensures Delivered(WireAll(ms), room, before, keep) == UpToStop(ms, room, before, keep)
    ensures InOrder(Delivered(WireAll(ms), room, before, keep), ms, room, before, keep)
    decreases |ms|
  {
    hide HeaderOf, PayloadOf, GoesOn, Wire, Header, InOrder;
    UpToStopInOrder(ms, room, before, keep);
    if ms == [] {
      EmptyStream();
    } else {
      WireRead(ms[0], WireAll(ms[1..]));
      WireDelivered(ms[1..], room, before + [Received(ms[0])], keep);
    }
  }

  /** However the wire bytes of the messages are split into what is in the queue already
      and what arrives later, piece by piece, the handler is given the same frames. */
  method ReceiveAll(input: Input, ghost ms: seq<Message>, keep: seq<Frame> -> bool)
    requires input.Valid() && input.log == []
    requires forall k :: 0 <= k < |ms| ==> Sendable(ms[k])
    requires input.Stream() == WireAll(ms)
    modifies input, input.buf
    ensures input.Valid() && input.log == UpToStop(ms, input.Room(), [], keep)
    ensures InOrder(input.log, ms, input.Room(), [], keep)
  {
    WireDelivered(ms, input.Room(), [], keep);
    input.ReadWebsocket(keep);
  }
}
