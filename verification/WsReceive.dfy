// The byte-at-a-time receive loop (etc/ws_decode.c) on any input.
module WsReceive {
  import opened Bytes
  import opened WsFrame
  import opened WsCodec

  /** How many of the first bytes of `s` the receiver takes at once: a header with a negative length alone,
      or a frame; 0 if it waits, because bytes are missing, the opcode is refused, or the length is the
      least `int`, which overflows. */
  function Unit(s: seq<byte>): (u: nat)
    ensures u <= |s|
  {
    if |s| < 2 || !Accepts(s[0]) || |s| < Need(s) then 0
    else
      LengthSign(s);
      var n := PayloadLen(s);
      if n == -INT_LIMIT then 0
      else if n < 0 then HeadLen(s)
      else if |s| < HeadLen(s) + n then 0
      else HeadLen(s) + n
  }

  lemma UnitIsPositive(s: seq<byte>)
    ensures Unit(s) > 0 ==> |s| >= 2 && Accepts(s[0]) && |s| >= Need(s) && Unit(s) >= HeadLen(s) >= Need(s) >= 2
  {
    hide PayloadLen, Need, HeadLen, Accepts;
    if |s| >= 2 && |s| >= Need(s) {
      LengthSign(s);
    }
  }

  /** The input, cut into units, fits: every unit and what is left over fit the buffer, and a negative
      length asks for no more bytes than its header has. */
  predicate Holdable(s: seq<byte>)
    decreases |s|
  {
    var u := Unit(s);
    UnitIsPositive(s);
    if u == 0 then |s| <= BUFFER
    else u <= BUFFER && -PayloadLen(s) <= HeadLen(s) && Holdable(s[u..])
  }

  /** What is written for one unit: the payload of a frame, or raw header bytes, as many as the negative
      length says without its sign. */
  function UnitText(s: seq<byte>): seq<byte>
    requires Unit(s) > 0
  {
    UnitIsPositive(s);
    var n := PayloadLen(s);
    if n >= 0 then UnitIsFrame(s); Payload(s[..Unit(s)]) else s[..Min(-n, HeadLen(s))]
  }

  /** All that is written, and the bytes that are kept. */
  function Written(s: seq<byte>): seq<seq<byte>>
    decreases |s|
  {
    if Unit(s) == 0 then [] else [UnitText(s)] + Written(s[Unit(s)..])
  }

  function Kept(s: seq<byte>): seq<byte>
    decreases |s|
  {
    if Unit(s) == 0 then s else Kept(s[Unit(s)..])
  }

  lemma UnitIsFrame(s: seq<byte>)
    requires Unit(s) > 0 && PayloadLen(s) >= 0
    ensures WholeFrame(s[..Unit(s)])
  {
    hide PayloadLen, Need, HeadLen, Accepts;
    UnitIsPositive(s);
    SameHeader(s[..Unit(s)], s);
  }

  // ---------------------------------------------------------------- one unit

  /** Before the end of its unit the receiver waits. */
  lemma UnitTurn(s: seq<byte>, m: nat)
    requires 0 < m <= |s| && (if Unit(s) == 0 then m <= BUFFER else m < Unit(s))
    ensures DecodeRet(s[..m]) < 0
  {
    hide PayloadLen, Need, HeadLen, Accepts, DecodeRet, ToInt32;
    var net := s[..m];
    if m >= 2 {
      SameHeader(net, s);
      UnitIsPositive(s);
    }
    if m < 2 || !Accepts(s[0]) || m < Need(s) {
      NotMeasured(net);
    } else {
      LengthSign(s);
      SurplusReturned(net);
    }
  }

  /** At the end of its unit the receiver writes. */
  lemma UnitEnd(s: seq<byte>)
    requires Unit(s) > 0
    ensures var net, n := s[..Unit(s)], PayloadLen(s);
            && DecodeRet(net) == (if n < 0 then -n else n)
            && DecodeMsg(net)[..Min(DecodeRet(net), |DecodeMsg(net)|)] == UnitText(s)
            && (n >= 0 ==> Unit(s) == HeadLen(s) + n) && (n < 0 ==> Unit(s) == HeadLen(s) <= 14)
  {
    hide PayloadLen, Need, HeadLen, Accepts, DecodeRet, ToInt32;
    var net, n := s[..Unit(s)], PayloadLen(s);
    UnitIsPositive(s);
    SameHeader(net, s);
    LengthSign(s);
    SurplusReturned(net);
    LengthRange(s);
    if n >= 0 {
      UnitIsFrame(s);
      assert Payload(net)[..|Payload(net)|] == Payload(net);
    } else {
      assert s[..Unit(s)][..Min(-n, HeadLen(s))] == s[..Min(-n, HeadLen(s))];
    }
  }

  /** Part of a unit is kept and nothing is written. */
  lemma {:induction false} PartOfUnit(s: seq<byte>, out: seq<seq<byte>>, m: nat)
    requires m <= |s| && (if Unit(s) == 0 then m <= BUFFER else m < Unit(s))
    ensures Feed(Receiver([], out), s[..m]) == Receiver(s[..m], out)
    decreases m
  {
    hide DecodeRet, DecodeMsg, Unit, Feed;
    NothingFed(Receiver([], out));
    if m > 0 {
      PartOfUnit(s, out, m - 1);
      FeedOneMore(Receiver([], out), s, m - 1);
      assert s[..m - 1] + [s[m - 1]] == s[..m];
      UnitTurn(s, m);
    }
  }

  lemma WholeUnit(s: seq<byte>, out: seq<seq<byte>>)
    requires Unit(s) > 0
    ensures Feed(Receiver([], out), s[..Unit(s)]) == Receiver([], out + [UnitText(s)])
  {
    hide DecodeRet, DecodeMsg, Unit, Feed, UnitText;
    var u := Unit(s);
    PartOfUnit(s, out, u - 1);
    FeedOneMore(Receiver([], out), s, u - 1);
    assert s[..u - 1] + [s[u - 1]] == s[..u];
    UnitEnd(s);
  }

  /** The receiver on any input that fits. */
  lemma {:induction false} AnyInput(s: seq<byte>, out: seq<seq<byte>>)
    requires Holdable(s)
    ensures Feed(Receiver([], out), s) == Receiver(Kept(s), out + Written(s))
    decreases |s|
  {
    hide Feed, Unit, UnitText;
    var u := Unit(s);
    UnitIsPositive(s);
    if u == 0 {
      PartOfUnit(s, out, |s|);
      assert s[..|s|] == s;
    } else {
      WholeUnit(s, out);
      AnyInput(s[u..], out + [UnitText(s)]);
      FeedConcat(Receiver([], out), s[..u], s[u..]);
      assert s[..u] + s[u..] == s;
      assert out + [UnitText(s)] + Written(s[u..]) == out + ([UnitText(s)] + Written(s[u..]));
    }
  }

  // ---------------------------------------------------------------- when the loop stays inside its buffers

  /** One turn leaves neither buffer, and writes no byte that the decoder did not put there. */
  predicate GoodTurn(buf: seq<byte>, b: byte) {
    var net := buf + [b];
    |net| <= BUFFER && DecodeRet(net) <= |net| && DecodeRet(net) < BUFFER
  }

  predicate Bounded(input: seq<byte>) {
    forall i :: 0 <= i < |input| ==> GoodTurn(Feed(START, input[..i]).buf, input[i])
  }

  /** What is kept does not depend on what was written before. */
  lemma {:induction false} SameBuffer(buf: seq<byte>, out: seq<seq<byte>>, x: seq<byte>)
    ensures Feed(Receiver(buf, out), x).buf == Feed(Receiver(buf, []), x).buf
    decreases |x|
  {
    hide DecodeRet, DecodeMsg;
    if x != [] {
      SameBuffer(buf, out, x[..|x| - 1]);
    }
  }

  /** The turns inside the first unit. */
  lemma UnitIsGood(s: seq<byte>)
    requires Unit(s) > 0
    ensures (forall i :: 0 <= i < Unit(s) ==> GoodTurn(s[..i], s[i]))
            <==> Unit(s) <= BUFFER && -PayloadLen(s) <= HeadLen(s)
  {
    hide DecodeRet, DecodeMsg, Unit, PayloadLen, HeadLen, UnitText;
    var u := Unit(s);
    UnitIsPositive(s);
    UnitEnd(s);
    assert s[..u - 1] + [s[u - 1]] == s[..u];
    if u <= BUFFER && -PayloadLen(s) <= HeadLen(s) {
      forall i | 0 <= i < u
        ensures GoodTurn(s[..i], s[i])
      {
        assert s[..i] + [s[i]] == s[..i + 1];
        if i + 1 < u {
          UnitTurn(s, i + 1);
        }
      }
    } else {
      assert !GoodTurn(s[..u - 1], s[u - 1]);
    }
  }

  /** The turns on input that never completes a unit. */
  lemma WaitIsGood(s: seq<byte>)
    requires Unit(s) == 0
    ensures Bounded(s) <==> |s| <= BUFFER
  {
    hide DecodeRet, Unit, Feed;
    if |s| <= BUFFER {
      forall i | 0 <= i < |s|
        ensures GoodTurn(Feed(START, s[..i]).buf, s[i])
      {
        PartOfUnit(s, [], i);
        assert s[..i] + [s[i]] == s[..i + 1];
        UnitTurn(s, i + 1);
      }
    } else {
      PartOfUnit(s, [], BUFFER);
      assert !GoodTurn(Feed(START, s[..BUFFER]).buf, s[BUFFER]);
    }
  }

  /** The turns after the first unit are those of the rest. */
  lemma TurnsOfRest(s: seq<byte>, i: nat)
    requires 0 < Unit(s) && i <= |s| - Unit(s)
    ensures Feed(START, s[..Unit(s) + i]).buf == Feed(START, s[Unit(s)..][..i]).buf
  {
    hide Feed, Unit, UnitText;
    var u := Unit(s);
    var rest := s[u..][..i];
    WholeUnit(s, []);
    FeedConcat(START, s[..u], rest);
    assert s[..u] + rest == s[..u + i];
    SameBuffer([], [] + [UnitText(s)], rest);
  }

  /** The loop stays inside its buffers exactly on input that fits, unit by unit. */
  lemma {:induction false} BoundedIsHoldable(s: seq<byte>)
    ensures Bounded(s) <==> Holdable(s)
    decreases |s|
  {
    hide Feed, Unit, GoodTurn, PayloadLen, HeadLen, Bounded;
    var u := Unit(s);
    UnitIsPositive(s);
    if u == 0 {
      WaitIsGood(s);
    } else {
      BoundedIsHoldable(s[u..]);
      BoundedSplits(s);
      UnitIsGood(s);
    }
  }

  lemma BoundedSplits(s: seq<byte>)
    requires Unit(s) > 0
    ensures Bounded(s) <==> (forall i :: 0 <= i < Unit(s) ==> GoodTurn(s[..i], s[i])) && Bounded(s[Unit(s)..])
  {
    hide Feed, Unit, GoodTurn;
    var u := Unit(s);
    forall i | 0 <= i < u
      ensures Feed(START, s[..i]).buf == s[..i]
    {
      PartOfUnit(s, [], i);
    }
    forall i | 0 <= i < |s| - u
      ensures GoodTurn(Feed(START, s[..u + i]).buf, s[u + i]) == GoodTurn(Feed(START, s[u..][..i]).buf, s[u..][i])
    {
      TurnsOfRest(s, i);
    }
    if (forall i :: 0 <= i < u ==> GoodTurn(s[..i], s[i])) && Bounded(s[u..]) {
      forall i | 0 <= i < |s|
        ensures GoodTurn(Feed(START, s[..i]).buf, s[i])
      {
        if i >= u {
          assert GoodTurn(Feed(START, s[u..][..i - u]).buf, s[u..][i - u]);
          assert s[..u + (i - u)] == s[..i];
        }
      }
    }
    if Bounded(s) {
      forall i | 0 <= i < u
        ensures GoodTurn(s[..i], s[i])
      {
        assert GoodTurn(Feed(START, s[..i]).buf, s[i]);
      }
      forall i | 0 <= i < |s| - u
        ensures GoodTurn(Feed(START, s[u..][..i]).buf, s[u..][i])
      {
        assert GoodTurn(Feed(START, s[..u + i]).buf, s[u + i]);
      }
    }
  }

  lemma FeedOneMore(r: Receiver, input: seq<byte>, i: nat)
    requires i < |input|
    ensures Feed(r, input[..i + 1]) == Receive(Feed(r, input[..i]), input[i])
  {
    assert input[..i + 1][..i] == input[..i];
  }

  /** The receive loop on any input that fits. */
  method ReceiveLoop(input: seq<byte>) returns (out: seq<seq<byte>>)
    requires Holdable(input)
    ensures out == Written(input)
  {
    hide Feed, DecodeRet, DecodeMsg, WholeFrame, Holdable, Written, Kept;
    var websockMsg := new byte[BUFFER](_ => NUL);
    var str := new byte[BUFFER](_ => NUL);
    var netLen := 0;
    out := [];
    NothingFed(START);
    BoundedIsHoldable(input);
    for i := 0 to |input|
      invariant 0 <= netLen <= BUFFER
      invariant Feed(START, input[..i]) == Receiver(websockMsg[..netLen], out)
    {
      ghost var net := websockMsg[..netLen] + [input[i]];
      assert GoodTurn(Feed(START, input[..i]).buf, input[i]);
      FeedOneMore(START, input, i);
      websockMsg[netLen] := input[i];
      netLen := netLen + 1;
      assert websockMsg[..netLen] == net;
      var ret, bFinal, nCtrl := DecodeWebSockMsg(str, websockMsg, netLen);
      assert websockMsg[..netLen] == net;
      if ret >= 0 {
        netLen := 0;
        DecodedBytes(net);
        assert DecodeMsg(net)[..ret] == str[..ret];
        out := out + [str[..ret]];
      }
    }
    assert input[..|input|] == input;
    AnyInput(input, []);
    assert [] + Written(input) == Written(input);
  }

  lemma DecodedBytes(net: seq<byte>)
    requires 0 <= DecodeRet(net) <= |net|
    ensures DecodeRet(net) <= |DecodeMsg(net)|
  {
  }

  // ---------------------------------------------------------------- streams of frames

  lemma {:induction false} StreamAt(fs: seq<Frame>, k: nat)
    requires k < |fs|
    ensures Stream(fs[..k + 1]) == Stream(fs[..k]) + Wire(fs[k])
    ensures Stream(fs[..k + 1]) <= Stream(fs)
    decreases |fs|
  {
    hide Wire;
    TakeOneMore(fs, k);
    if k == 0 {
      assert Stream(fs[1..][..0]) == [] && Stream(fs[..0]) == [];
    } else {
      TakeOneMore(fs, k - 1);
      StreamAt(fs[1..], k - 1);
    }
  }

  /** The frame that the next byte of a stream belongs to. */
  lemma InProgress(fs: seq<Frame>, n: nat) returns (f: Frame)
    requires AllReceivable(fs) && n < |Stream(fs)|
    ensures Receivable(f)
    ensures var buf := Feed(START, Stream(fs)[..n]).buf;
            buf < Wire(f) && buf + [Stream(fs)[n]] <= Wire(f)
  {
    hide Receive, Receivable, Wire, Feed;
    var k, part := StreamIsReceived(fs, [], n);
    assert fs[..|fs|] == fs;
    f := fs[k];
    StreamAt(fs, k);
    assert Stream(fs)[n] == Stream(fs[..k + 1])[n] == Wire(f)[|part|];
  }

  /** The decoder on the bytes of the frame in progress: wait, or the message. */
  lemma OnFrame(net: seq<byte>, f: Frame)
    requires Receivable(f) && net != [] && net <= Wire(f)
    ensures |net| <= BUFFER
    ensures net < Wire(f) ==> DecodeRet(net) < 0 && |net| < BUFFER
    ensures net == Wire(f) ==> DecodeRet(net) == |f.msg| == |DecodeMsg(net)| < |net|
  {
    hide DecodeRet, DecodeMsg, Encode, FirstByte, Accepts, WholeFrame, FrameKey;
    NonEmptyFrame(f.msg, f.bFinal, f.key);
    DecodeEncode(f.msg, f.bFinal, f.key);
    if net < Wire(f) {
      assert Wire(f)[..|net|] == net;
      PrefixDeficit(f.msg, f.bFinal, f.key, |net|);
    }
  }

  lemma FrameTurn(fs: seq<Frame>, i: nat)
    requires AllReceivable(fs) && i < |Stream(fs)|
    ensures GoodTurn(Feed(START, Stream(fs)[..i]).buf, Stream(fs)[i])
  {
    hide Receivable, Wire, Feed, Stream, DecodeRet, DecodeMsg;
    var f := InProgress(fs, i);
    OnFrame(Feed(START, Stream(fs)[..i]).buf + [Stream(fs)[i]], f);
  }

  /** On any prefix of a stream of frames that fit, the loop stays inside its buffers and writes exactly
      the messages of the complete frames. */
  lemma StreamIsHoldable(fs: seq<Frame>, input: seq<byte>)
    requires AllReceivable(fs) && input <= Stream(fs)
    ensures Holdable(input) && Written(input) == Messages(fs[..Complete(fs, |input|)])
    ensures input == Stream(fs) ==> Written(input) == Messages(fs)
  {
    hide Receivable, Stream, Receive, Messages, Complete, Feed, GoodTurn, Holdable, Written, Kept;
    forall i | 0 <= i < |input|
      ensures GoodTurn(Feed(START, input[..i]).buf, input[i])
    {
      assert Stream(fs)[..i] == input[..i];
      FrameTurn(fs, i);
    }
    BoundedIsHoldable(input);
    AnyInput(input, []);
    MessagesOut(fs, |input|);
    assert Stream(fs)[..|input|] == input && [] + Written(input) == Written(input);
    if input == Stream(fs) {
      AllComplete(fs);
      assert fs[..|fs|] == fs;
    }
  }

  lemma MessagesOut(fs: seq<Frame>, n: nat)
    requires AllReceivable(fs) && n <= |Stream(fs)|
    ensures Feed(START, Stream(fs)[..n]).out == Messages(fs[..Complete(fs, n)])
  {
    hide Receivable, Stream, Receive, Messages, Complete, Feed;
    var k, part := StreamIsReceived(fs, [], n);
    assert [] + Messages(fs[..k]) == Messages(fs[..k]);
  }

  lemma {:induction false} AllComplete(fs: seq<Frame>)
    ensures Complete(fs, |Stream(fs)|) == |fs|
  {
    hide Wire;
    if fs != [] {
      AllComplete(fs[1..]);
    }
  }

  // ---------------------------------------------------------------- refused opcodes

  /** After a byte that is no accepted first byte nothing is ever written again. */
  lemma {:induction false} Silenced(r: Receiver, x: seq<byte>)
    requires r.buf != [] && !Accepts(r.buf[0])
    ensures Feed(r, x) == Receiver(r.buf + x, r.out)
    decreases |x|
  {
    hide Accepts, Need, HeadLen, PayloadLen;
    if x == [] {
      assert r.buf + x == r.buf;
    } else {
      var front := x[..|x| - 1];
      Silenced(r, front);
      assert r.buf + front + [x[|x| - 1]] == r.buf + x;
      NotMeasured(r.buf + x);
    }
  }

  /** One frame with a refused opcode ends the reception: of all that follows the messages before it,
      nothing is written. */
  lemma RefusedFrame(fs: seq<Frame>, f: Frame, more: seq<byte>)
    requires AllReceivable(fs) && !Accepts(FirstByte(f.bFinal))
    ensures Feed(START, Stream(fs) + (Wire(f) + more)) == Receiver(Wire(f) + more, Messages(fs))
  {
    hide Feed, Receive, Receivable, Stream, Messages, Accepts, DecodeRet;
    var first, rest := Wire(f)[..1], Wire(f)[1..] + more;
    OpcodeIsRead(f.msg, f.bFinal, f.key);
    MessagesIn(fs);
    FeedConcat(START, Stream(fs), Wire(f) + more);
    assert Wire(f) + more == first + rest && first[0] == FirstByte(f.bFinal);
    FeedConcat(Receiver([], Messages(fs)), first, rest);
    FirstByteWaits(Messages(fs), first);
    Silenced(Receiver(first, Messages(fs)), rest);
  }

  lemma MessagesIn(fs: seq<Frame>)
    requires AllReceivable(fs)
    ensures Feed(START, Stream(fs)) == Receiver([], Messages(fs))
  {
    hide Feed, Receive, Receivable, Stream, Messages, Complete;
    var k, part := StreamIsReceived(fs, [], |Stream(fs)|);
    AllComplete(fs);
    assert Stream(fs)[..|Stream(fs)|] == Stream(fs) && fs[..|fs|] == fs;
    assert [] + Messages(fs) == Messages(fs);
  }

  lemma FirstByteWaits(out: seq<seq<byte>>, first: seq<byte>)
    requires |first| == 1
    ensures Feed(Receiver([], out), first) == Receiver(first, out)
  {
    NothingFed(Receiver([], out));
    FeedOneMore(Receiver([], out), first, 0);
    assert first[..1] == first && [] + [first[0]] == first;
  }
}
