// Streams of frames through the receiver, and the frame encoder and decoder over buffers
// (etc/ws_transcode.c, etc/ws_encode.c, etc/ws_decode.c).
module WsCodec {
  import opened Bytes
  import opened WsFrame

  const BUFFER: nat := 65536

  datatype Frame = Frame(msg: seq<byte>, bFinal: int, key: Option<Key>)

  function Wire(f: Frame): seq<byte> {
    Encode(f.msg, f.bFinal, f.key)
  }

  /** The decoder knows the opcode, and the frame fits the receive buffer. */
  predicate Receivable(f: Frame) {
    Accepts(FirstByte(f.bFinal)) && |Wire(f)| <= BUFFER
  }

  predicate AllReceivable(fs: seq<Frame>) {
    forall i :: 0 <= i < |fs| ==> Receivable(fs[i])
  }

  function Stream(fs: seq<Frame>): seq<byte> {
    if fs == [] then [] else Wire(fs[0]) + Stream(fs[1..])
  }

  function Messages(fs: seq<Frame>): seq<seq<byte>> {
    if fs == [] then [] else [fs[0].msg] + Messages(fs[1..])
  }

  /** How many frames are complete in the first `n` bytes of their stream. */
  function Complete(fs: seq<Frame>, n: nat): (k: nat)
    ensures k <= |fs|
  {
    if fs == [] || n < |Wire(fs[0])| then 0 else 1 + Complete(fs[1..], n - |Wire(fs[0])|)
  }

  /** The state of the receiver: the bytes kept, and the messages written out. */
  datatype Receiver = Receiver(buf: seq<byte>, out: seq<seq<byte>>)

  const START := Receiver([], [])

  /** One turn of the receive loop. A negative return means wait for more bytes. */
  function Receive(r: Receiver, b: byte): Receiver {
    var net := r.buf + [b];
    if DecodeRet(net) < 0 then Receiver(net, r.out)
    else Receiver([], r.out + [DecodeMsg(net)[..Min(DecodeRet(net), |DecodeMsg(net)|)]])
  }

  function Feed(r: Receiver, input: seq<byte>): Receiver
    decreases |input|
  {
    if input == [] then r else Receive(Feed(r, input[..|input| - 1]), input[|input| - 1])
  }

  lemma {:induction false} FeedConcat(r: Receiver, a: seq<byte>, b: seq<byte>)
    ensures Feed(r, a + b) == Feed(Feed(r, a), b)
    decreases |b|
  {
    if b == [] {
      assert a + b == a;
    } else {
      FeedConcat(r, a, b[..|b| - 1]);
      assert (a + b)[..|a + b| - 1] == a + b[..|b| - 1];
    }
  }

  /** Part of a frame is kept and nothing is written. */
  lemma {:induction false} PartOfFrame(out: seq<seq<byte>>, f: Frame, m: nat)
    requires Receivable(f) && m < |Wire(f)|
    ensures Feed(Receiver([], out), Wire(f)[..m]) == Receiver(Wire(f)[..m], out)
    decreases m
  {
    hide DecodeRet, DecodeMsg, Encode, FirstByte, Accepts;
    var w := Wire(f);
    if m > 0 {
      PartOfFrame(out, f, m - 1);
      assert w[..m][..m - 1] == w[..m - 1];
      assert w[..m - 1] + [w[m - 1]] == w[..m];
      NonEmptyFrame(f.msg, f.bFinal, f.key);
      PrefixDeficit(f.msg, f.bFinal, f.key, m);
    }
  }

  /** A whole frame writes its message and leaves an empty buffer. */
  lemma WholeOfFrame(out: seq<seq<byte>>, f: Frame)
    requires Receivable(f)
    ensures Feed(Receiver([], out), Wire(f)) == Receiver([], out + [f.msg])
  {
    hide DecodeRet, DecodeMsg, Encode, FirstByte, Accepts, WholeFrame, FrameKey;
    var w := Wire(f);
    NonEmptyFrame(f.msg, f.bFinal, f.key);
    PartOfFrame(out, f, |w| - 1);
    assert w[..|w| - 1] + [w[|w| - 1]] == w;
    DecodeEncode(f.msg, f.bFinal, f.key);
    assert f.msg[..|f.msg|] == f.msg;
  }

  lemma StreamHead(fs: seq<Frame>, n: nat)
    requires fs != [] && n <= |Stream(fs)|
    ensures n <= |Wire(fs[0])| ==> Stream(fs)[..n] == Wire(fs[0])[..n]
    ensures n >= |Wire(fs[0])| ==>
              && n - |Wire(fs[0])| <= |Stream(fs[1..])|
              && Stream(fs)[..n] == Wire(fs[0]) + Stream(fs[1..])[..n - |Wire(fs[0])|]
  {
  }

  lemma TakeOneMore(fs: seq<Frame>, k: nat)
    requires fs != [] && k <= |fs| - 1
    ensures Stream(fs[..k + 1]) == Wire(fs[0]) + Stream(fs[1..][..k])
    ensures Messages(fs[..k + 1]) == [fs[0].msg] + Messages(fs[1..][..k])
  {
    assert fs[..k + 1][1..] == fs[1..][..k];
  }

  /** The receive theorem: after any number of bytes of a stream of frames, exactly the messages of the
      frames that are complete have been written, in order, and the buffer holds exactly the part of the
      frame in progress. */
  lemma {:induction false} StreamIsReceived(fs: seq<Frame>, out: seq<seq<byte>>, n: nat)
    returns (k: nat, part: seq<byte>)
    requires AllReceivable(fs) && n <= |Stream(fs)|
    ensures k == Complete(fs, n) && Stream(fs)[..n] == Stream(fs[..k]) + part
    ensures Feed(Receiver([], out), Stream(fs)[..n]) == Receiver(part, out + Messages(fs[..k]))
    ensures if k == |fs| then part == [] else part < Wire(fs[k])
    decreases |fs|
  {
    hide Receive, Receivable, Wire, Feed;
    if fs == [] {
      k, part := 0, [];
      NothingFed(Receiver([], out));
      return;
    }
    var f, w := fs[0], Wire(fs[0]);
    StreamHead(fs, n);
    if n < |w| {
      k, part := 0, w[..n];
      PartOfFrame(out, f, n);
    } else {
      var j;
      j, part := StreamIsReceived(fs[1..], out + [f.msg], n - |w|);
      WholeOfFrame(out, f);
      FeedConcat(Receiver([], out), w, Stream(fs[1..])[..n - |w|]);
      TakeOneMore(fs, j);
      k := j + 1;
      assert w + (Stream(fs[1..][..j]) + part) == Stream(fs[..k]) + part;
      assert out + [f.msg] + Messages(fs[1..][..j]) == out + Messages(fs[..k]);
    }
  }

  lemma NothingFed(r: Receiver)
    ensures Feed(r, []) == r
  {
  }

  // ---------------------------------------------------------------- the functions over buffers

  /** The length bytes of encodeWebSockMsg; returns the header length so far. */
  method WriteLength(buf: array<byte>, n: nat) returns (headLen: nat)
    requires buf.Length >= 2 + LengthSize(n)
    modifies buf
    ensures headLen == 2 + LengthSize(n)
    ensures buf[1] == LengthCode(n) && buf[2..headLen] == Extended(n)
    ensures forall i :: headLen <= i < buf.Length ==> buf[i] == old(buf[i])
  {
    if n > 65535 {
      headLen := 10;
      buf[1] := 127;
      buf[2] := n / 0x100_0000_0000_0000 % 128;
      buf[3] := n / 0x1_0000_0000_0000 % 256;
      buf[4] := n / 0x100_0000_0000 % 256;
      buf[5] := n / 0x1_0000_0000 % 256;
      buf[6] := n / 0x100_0000 % 256;
      buf[7] := n / 0x1_0000 % 256;
      buf[8] := n / 0x100 % 256;
      buf[9] := n % 256;
    } else if n > 125 {
      headLen := 4;
      buf[1] := 126;
      buf[2] := n / 256 % 256;
      buf[3] := n % 256;
    } else {
      headLen := 2;
      buf[1] := n;
    }
  }

  /** The payload loop: the masked bytes of `src` from `from`, written at `at`. */
  method WriteMasked(dst: array<byte>, at: nat, src: array<byte>, from: nat, n: nat, key: seq<byte>)
    requires dst != src && at + n <= dst.Length && from + n <= src.Length && |key| == 4
    modifies dst
    ensures dst[at..at + n] == Masked(src[from..from + n], key)
    ensures forall i :: 0 <= i < dst.Length && !(at <= i < at + n) ==> dst[i] == old(dst[i])
  {
    for i := 0 to n
      invariant forall j :: 0 <= j < i ==> dst[at + j] == Xor(src[from + j], key[j % 4])
      invariant forall j :: 0 <= j < dst.Length && !(at <= j < at + i) ==> dst[j] == old(dst[j])
    {
      dst[at + i] := Xor(src[from + i], key[i % 4]);
    }
  }

  /** memcpy(dst + at, s, |s|). */
  method Copy(dst: array<byte>, at: nat, s: seq<byte>)
    requires at + |s| <= dst.Length
    modifies dst
    ensures dst[at..at + |s|] == s
    ensures forall i :: 0 <= i < dst.Length && !(at <= i < at + |s|) ==> dst[i] == old(dst[i])
  {
    forall i | 0 <= i < |s| {
      dst[at + i] := s[i];
    }
  }

  /** The header of a frame, written in place. */
  method WriteHead(buf: array<byte>, n: nat, bFinal: int, key: Option<Key>) returns (headLen: nat)
    requires buf.Length >= |Head(n, bFinal, key)|
    modifies buf
    ensures headLen == |Head(n, bFinal, key)| && buf[..headLen] == Head(n, bFinal, key)
    ensures forall i :: headLen <= i < buf.Length ==> buf[i] == old(buf[i])
  {
    HeadBytes(n, bFinal, key);
    hide LongLength, Head, Extended;
    headLen := WriteLength(buf, n);
    buf[0] := FirstByte(bFinal);
    ghost var e := headLen;
    if key.Some? {
      buf[1] := buf[1] + 128;
      Copy(buf, headLen, key.value);
      headLen := headLen + 4;
    }
    assert buf[2..e] == Extended(n);
    HeadInParts(buf[..headLen], n, bFinal, key);
  }

  lemma HeadInParts(s: seq<byte>, n: nat, bFinal: int, key: Option<Key>)
    requires |s| == 2 + LengthSize(n) + if key.Some? then 4 else 0
    requires s[0] == FirstByte(bFinal) && s[1] == LengthCode(n) + if key.Some? then 128 else 0
    requires s[2..2 + LengthSize(n)] == Extended(n)
    requires key.Some? ==> s[2 + LengthSize(n)..] == key.value
    ensures s == Head(n, bFinal, key)
  {
    hide LongLength, Extended;
    var e := 2 + LengthSize(n);
    assert s == [s[0], s[1]] + s[2..e] + s[e..];
  }

  /** encodeWebSockMsg: the frame is written at the start of the buffer, nothing behind it changes. */
  method EncodeWebSockMsg(webSockMsg: array<byte>, msg: array<byte>, msgLen: nat, bFinal: int, key: Option<Key>)
    returns (len: nat)
    requires webSockMsg != msg && msgLen <= msg.Length && msgLen < INT_LIMIT
    requires webSockMsg.Length >= |Head(msgLen, bFinal, key)| + msgLen
    modifies webSockMsg
    ensures len == |Encode(msg[..msgLen], bFinal, key)|
    ensures webSockMsg[..len] == Encode(msg[..msgLen], bFinal, key)
    ensures Carries(webSockMsg[..len], msg[..msgLen], key)
    ensures forall i :: len <= i < webSockMsg.Length ==> webSockMsg[i] == old(webSockMsg[i])
  {
    hide Head, Masked, Word, Carries;
    ghost var h := Head(msgLen, bFinal, key);
    var headLen := WriteHead(webSockMsg, msgLen, bFinal, key);
    if key.Some? {
      WriteMasked(webSockMsg, headLen, msg, 0, msgLen, key.value);
    } else {
      Copy(webSockMsg, headLen, msg[..msgLen]);
    }
    len := msgLen + headLen;
    assert webSockMsg[..headLen] == h;
    assert webSockMsg[..len] == webSockMsg[..headLen] + webSockMsg[headLen..len];
    ghost var e, start := WireLayout(msg[..msgLen], bFinal, key);
  }

  /** The length analysis of decodeWebSockMsg: a return value to fail with, or where the payload is. */
  method Analyse(buf: array<byte>, netLen: nat, ghost net: seq<byte>)
    returns (ret: int, headLen: nat, masked: bool, whole: bool)
    requires netLen <= buf.Length && netLen < INT_LIMIT && net == buf[..netLen]
    ensures ret == DecodeRet(net) && (whole <==> WholeFrame(net))
    ensures whole ==> headLen == HeadLen(net) <= netLen && (masked <==> net[1] >= 128)
  {
    hide Word, ToInt32;
    ret, headLen, masked, whole := 0, 0, false, false;
    if netLen < 2 {
      ret := -(2 - netLen);
      return;
    }
    if !(buf[0] == 0x81 || buf[0] == 0x88 || buf[0] == 0x8a || buf[0] == 0x89) {
      ret := -9999;
      return;
    }
    var payloadLen: int := buf[1] % 128;
    masked := buf[1] >= 128;
    headLen := 2;
    if payloadLen == 126 {
      if netLen < if masked then 8 else 4 {
        ret := -((if masked then 8 else 4) - netLen);
        return;
      }
      payloadLen := Word(0, 0, buf[2], buf[3]);
      ShortWord(buf[2], buf[3]);
      headLen := headLen + 2;
    } else if payloadLen == 127 {
      if netLen < if masked then 14 else 10 {
        ret := -((if masked then 14 else 10) - netLen);
        return;
      }
      payloadLen := ToInt32(Word(buf[6], buf[7], buf[8], buf[9]));
      headLen := headLen + 8;
    }
    if masked {
      headLen := headLen + 4;
    }
    var declared := ToInt32(headLen + payloadLen);
    IntDifference(netLen, headLen + payloadLen);
    if declared != netLen {
      ret := ToInt32(netLen - declared);
      return;
    }
    ret, whole := payloadLen, true;
  }

  /** The sum of the lengths may wrap; the comparison and the difference come out as without. */
  lemma IntDifference(n: nat, sum: int)
    requires n < INT_LIMIT && -INT_LIMIT <= sum < INT_LIMIT + 14
    ensures ToInt32(sum) == n <==> sum == n
    ensures ToInt32(n - ToInt32(sum)) == ToInt32(n - sum)
  {
    hide ToInt32;
    if sum < INT_LIMIT {
      InRange32(sum);
    } else {
      PastRange32(sum);
      SameLow32(n - sum);
    }
  }

  lemma SameLow32(u: int)
    ensures ToInt32(u + 0x1_0000_0000) == ToInt32(u)
  {
    assert (u + 0x1_0000_0000) % 0x1_0000_0000 == u % 0x1_0000_0000;
  }

  /** decodeWebSockMsg: the return value, the message buffer, the close flag (written for a whole frame
      only) and the opcode nibble. */
  method DecodeWebSockMsg(msg: array<byte>, webSockMsg: array<byte>, netLen: nat)
    returns (ret: int, bFinal: Option<bool>, nCtrl: nat)
    requires msg != webSockMsg && 1 <= webSockMsg.Length && netLen <= webSockMsg.Length && netLen <= msg.Length
    requires netLen < INT_LIMIT
    modifies msg
    ensures var net := webSockMsg[..netLen];
            && ret == DecodeRet(net)
            && |DecodeMsg(net)| <= netLen && msg[..|DecodeMsg(net)|] == DecodeMsg(net)
            && bFinal == if WholeFrame(net) then Some(net[0] == 0x88) else None
    ensures WholeFrame(webSockMsg[..netLen]) ==> 0 <= ret <= netLen && TextOf(webSockMsg[..netLen], msg[..ret])
    ensures nCtrl == webSockMsg[0] % 16
  {
    hide DecodeRet, Masked, Accepts, Need, PayloadLen, TextOf;
    ghost var net := webSockMsg[..netLen];
    nCtrl, bFinal := webSockMsg[0] % 16, None;
    var headLen, masked, whole;
    ret, headLen, masked, whole := Analyse(webSockMsg, netLen, net);
    if !whole {
      Copy(msg, 0, webSockMsg[..netLen]);
      return;
    }
    WholeReturn(net);
    PayloadIsText(net);
    assert webSockMsg[headLen..headLen + ret] == net[headLen..];
    if masked {
      var key := webSockMsg[headLen - 4..headLen];
      assert forall i :: 0 <= i < 4 ==> key[i] == net[headLen - 4 + i];
      assert key == FrameKey(net).value;
      WriteMasked(msg, 0, webSockMsg, headLen, ret, key);
    } else {
      Copy(msg, 0, webSockMsg[headLen..headLen + ret]);
    }
    bFinal := Some(webSockMsg[0] == 0x88);
  }

  lemma WholeReturn(net: seq<byte>)
    requires WholeFrame(net)
    ensures DecodeRet(net) == |net| - HeadLen(net) >= 0
  {
  }
}
