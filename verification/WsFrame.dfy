// WebSocket frames as values (etc/ws_transcode.c; sections 5.2 and 5.3 of RFC 6455).
module WsFrame {
  import opened Bytes

  const INT_LIMIT: int := 0x8000_0000

  type Key = k: seq<byte> | |k| == 4 witness [0, 0, 0, 0]

  /** Exclusive or of the `n` low bits. */
  function XorBits(a: nat, b: nat, n: nat): (x: nat)
    ensures x < Pow2(n)
  {
    if n == 0 then 0 else 2 * XorBits(a / 2, b / 2, n - 1) + if a % 2 == b % 2 then 0 else 1
  }

  /** Bit by bit: `c` differs from `a` in exactly the bits that are set in `b`. */
  predicate Differs(c: byte, a: byte, b: byte) {
    forall k :: 0 <= k < 8 ==> (Bit(c, k) != Bit(a, k) <==> Bit(b, k) == 1)
  }

  lemma {:induction false} XorBitAt(a: nat, b: nat, n: nat, k: nat)
    requires k < n
    ensures Bit(XorBits(a, b, n), k) != Bit(a, k) <==> Bit(b, k) == 1
  {
    hide Bit;
    var y, r := XorBits(a / 2, b / 2, n - 1), if a % 2 == b % 2 then 0 else 1;
    Halve(y, r);
    if k == 0 {
      LowBit(XorBits(a, b, n));
      LowBit(a);
      LowBit(b);
    } else {
      XorBitAt(a / 2, b / 2, n - 1, k - 1);
      ShiftBit(a, k);
      ShiftBit(b, k);
      ShiftBit(XorBits(a, b, n), k);
    }
  }

  lemma LowBit(v: nat)
    ensures Bit(v, 0) == v % 2
  {
    assert Pow2(0) == 1;
  }

  lemma ShiftBit(v: nat, k: nat)
    requires k > 0
    ensures Bit(v, k) == Bit(v / 2, k - 1)
  {
    DivideTwice(v, Pow2(k - 1));
  }

  lemma XorDiffers(a: byte, b: byte)
    ensures Differs(Xor(a, b), a, b)
  {
    hide Bit;
    forall k | 0 <= k < 8
      ensures Bit(Xor(a, b), k) != Bit(a, k) <==> Bit(b, k) == 1
    {
      XorBitAt(a, b, 8, k);
    }
  }

  function Xor(a: byte, b: byte): byte {
    assert Pow2(8) == 256;
    XorBits(a, b, 8)
  }

  lemma Halve(y: nat, r: nat)
    requires r < 2
    ensures (2 * y + r) / 2 == y && (2 * y + r) % 2 == r
  {
  }

  lemma {:induction false} XorBitsTwice(a: nat, b: nat, n: nat)
    requires a < Pow2(n)
    ensures XorBits(XorBits(a, b, n), b, n) == a
  {
    if n > 0 {
      XorBitsTwice(a / 2, b / 2, n - 1);
      Halve(XorBits(a / 2, b / 2, n - 1), if a % 2 == b % 2 then 0 else 1);
    }
  }

  lemma XorTwice(a: byte, b: byte)
    ensures Xor(Xor(a, b), b) == a
  {
    assert Pow2(8) == 256;
    XorBitsTwice(a, b, 8);
  }

  /** Masking, which also unmasks. */
  function Masked(data: seq<byte>, key: seq<byte>): (m: seq<byte>)
    requires |key| == 4
    ensures |m| == |data|
  {
    seq(|data|, i requires 0 <= i < |data| => Xor(data[i], key[i % 4]))
  }

  /** Byte `i` differs from the message in the bits of key byte i mod 4. */
  lemma MaskedBits(data: seq<byte>, key: seq<byte>, i: nat)
    requires |key| == 4 && i < |data|
    ensures Differs(Masked(data, key)[i], data[i], key[i % 4])
  {
    XorDiffers(data[i], key[i % 4]);
  }

  /** `text` is the end of the frame `net`, unmasked bit by bit with the four bytes in front of it when the
      frame is masked. */
  predicate TextOf(net: seq<byte>, text: seq<byte>) {
    var h := |net| - |text|;
    && h >= 2
    && if net[1] >= 128 then
         h >= 6 && forall i :: 0 <= i < |text| ==> Differs(text[i], net[h + i], net[h - 4 + i % 4])
       else text == net[h..]
  }

  lemma MaskTwice(data: seq<byte>, key: seq<byte>)
    requires |key| == 4
    ensures Masked(Masked(data, key), key) == data
  {
    forall i | 0 <= i < |data|
      ensures Xor(Xor(data[i], key[i % 4]), key[i % 4]) == data[i]
    {
      XorTwice(data[i], key[i % 4]);
    }
  }

  // ---------------------------------------------------------------- encoding

  /** 0 means text; otherwise the low four bits are the opcode. The final-fragment bit is always set. */
  function FirstByte(bFinal: int): byte {
    if bFinal == 0 then 0x81 else 0x80 + bFinal % 16
  }

  /** The eight bytes of the long length form, for a length of 32-bit `int` type. */
  function LongLength(n: nat): seq<byte> {
    [n / 0x100_0000_0000_0000 % 128, n / 0x1_0000_0000_0000 % 256, n / 0x100_0000_0000 % 256, n / 0x1_0000_0000 % 256,
     n / 0x100_0000 % 256, n / 0x1_0000 % 256, n / 0x100 % 256, n % 256]
  }

  /** The length form: the value of the second byte's low seven bits, and the bytes that follow it. */
  function LengthCode(n: nat): (c: nat)
    ensures c < 128
  {
    if n > 65535 then 127 else if n > 125 then 126 else n
  }

  function LengthSize(n: nat): nat {
    if n > 65535 then 8 else if n > 125 then 2 else 0
  }

  function Extended(n: nat): (s: seq<byte>)
    ensures |s| == LengthSize(n)
  {
    if n > 65535 then LongLength(n) else if n > 125 then [n / 256 % 256, n % 256] else []
  }

  function Head(n: nat, bFinal: int, key: Option<Key>): seq<byte> {
    [FirstByte(bFinal), LengthCode(n) + if key.Some? then 128 else 0] + Extended(n)
    + if key.Some? then key.value else []
  }

  function Encode(msg: seq<byte>, bFinal: int, key: Option<Key>): seq<byte> {
    Head(|msg|, bFinal, key) + if key.Some? then Masked(msg, key.value) else msg
  }

  /** `net` ends in the key and the message, each byte of it masked bit by bit with its key byte; without
      a key in the message itself. */
  predicate Carries(net: seq<byte>, msg: seq<byte>, key: Option<Key>) {
    var h := |net| - |msg|;
    && h >= 0
    && (key.Some? ==> h >= 4 && net[h - 4..h] == key.value)
    && forall i :: 0 <= i < |msg| ==>
         if key.Some? then Differs(net[h + i], msg[i], key.value[i % 4]) else net[h + i] == msg[i]
  }

  /** The layout on the wire (section 5.2 of RFC 6455), byte by byte: opcode, mask bit and length form,
      the length in network order, and from `e` on the key and from `h` on the payload. */
  lemma WireLayout(msg: seq<byte>, bFinal: int, key: Option<Key>) returns (e: nat, h: nat)
    requires |msg| < INT_LIMIT
    ensures var net, n, m := Encode(msg, bFinal, key), |msg|, if key.Some? then 128 else 0;
            && |net| == h + n && h == e + (if key.Some? then 4 else 0)
            && e == (if n <= 125 then 2 else if n < 0x1_0000 then 4 else 10)
            && net[0] == (if bFinal == 0 then 0x81 else 0x80 + bFinal % 16)
            && (n <= 125 ==> net[1] == m + n)
            && (125 < n < 0x1_0000 ==> net[1] == m + 126 && net[2] as int * 0x100 + net[3] as int == n)
            && (n >= 0x1_0000 ==>
                  && net[1] == m + 127 && net[2] == net[3] == net[4] == net[5] == 0
                  && Word(net[6], net[7], net[8], net[9]) == n)
            && Carries(net, msg, key)
  {
    hide LongLength, Head, Masked, Differs, Word, FirstByte, Carries, Extended;
    var n := |msg|;
    var head, body := Head(n, bFinal, key), if key.Some? then Masked(msg, key.value) else msg;
    e, h := 2 + LengthSize(n), |head|;
    HeadLayout(n, bFinal, key);
    HeadBytes(n, bFinal, key);
    CarriesBody(head, body, msg, key);
    assert forall j :: 0 <= j < h ==> (head + body)[j] == head[j];
  }

  lemma HeadLayout(n: nat, bFinal: int, key: Option<Key>)
    requires n < INT_LIMIT
    ensures var head, m := Head(n, bFinal, key), if key.Some? then 128 else 0;
            && |head| == (if n <= 125 then 2 else if n < 0x1_0000 then 4 else 10) + m / 32
            && head[0] == (if bFinal == 0 then 0x81 else 0x80 + bFinal % 16)
            && (n <= 125 ==> head[1] == m + n)
            && (125 < n < 0x1_0000 ==> head[1] == m + 126 && head[2] as int * 0x100 + head[3] as int == n)
            && (n >= 0x1_0000 ==>
                  && head[1] == m + 127 && head[2] == head[3] == head[4] == head[5] == 0
                  && Word(head[6], head[7], head[8], head[9]) == n)
  {
    hide LongLength, Head, Word, FirstByte, Extended;
    var head, e := Head(n, bFinal, key), 2 + LengthSize(n);
    HeadBytes(n, bFinal, key);
    FirstByteIs(bFinal);
    LengthBytes(n, head[2..e]);
    assert forall j :: 0 <= j < e - 2 ==> head[2 + j] == head[2..e][j];
  }

  lemma CarriesBody(head: seq<byte>, body: seq<byte>, msg: seq<byte>, key: Option<Key>)
    requires |body| == |msg|
    requires key.Some? ==> |head| >= 4 && head[|head| - 4..] == key.value && body == Masked(msg, key.value)
    requires key == None ==> body == msg
    ensures Carries(head + body, msg, key)
  {
    hide Differs, Masked;
    var net, h := head + body, |head|;
    assert key.Some? ==> net[h - 4..h] == head[h - 4..];
    forall i | 0 <= i < |msg|
      ensures if key.Some? then Differs(net[h + i], msg[i], key.value[i % 4]) else net[h + i] == msg[i]
    {
      assert net[h + i] == body[i];
      if key.Some? {
        MaskedBits(msg, key.value, i);
      }
    }
  }

  lemma FirstByteIs(bFinal: int)
    ensures FirstByte(bFinal) == if bFinal == 0 then 0x81 else 0x80 + bFinal % 16
  {
  }

  lemma LengthBytes(n: nat, s: seq<byte>)
    requires n < INT_LIMIT && s == Extended(n)
    ensures |s| == (if n <= 125 then 0 else if n < 0x1_0000 then 2 else 8)
    ensures 125 < n < 0x1_0000 ==> s[0] as int * 0x100 + s[1] as int == n
    ensures n >= 0x1_0000 ==> s[0] == s[1] == s[2] == s[3] == 0 && Word(s[4], s[5], s[6], s[7]) == n
  {
    hide LongLength, Word;
    if n >= 0x1_0000 {
      LongLengthBytes(n, s);
    } else if n > 125 {
      ShortLengthBytes(n, s);
    }
  }

  lemma LongLengthBytes(n: nat, s: seq<byte>)
    requires n < INT_LIMIT && s == LongLength(n)
    ensures |s| == 8 && s[0] == s[1] == s[2] == s[3] == 0 && Word(s[4], s[5], s[6], s[7]) == n
  {
    hide Word;
    FourBytes(n);
  }

  lemma ShortLengthBytes(n: nat, s: seq<byte>)
    requires n < 0x1_0000 && s == [n / 256 % 256, n % 256]
    ensures s[0] as int * 0x100 + s[1] as int == n
  {
    assert n / 256 < 256;
  }

  // ---------------------------------------------------------------- decoding

  predicate Accepts(b: byte) {
    b == 0x81 || b == 0x88 || b == 0x89 || b == 0x8a
  }

  /** The 32-bit `int` with the low 32 bits of `u`. */
  function ToInt32(u: int): (v: int)
    ensures -INT_LIMIT <= v < INT_LIMIT
  {
    if u % 0x1_0000_0000 < INT_LIMIT then u % 0x1_0000_0000 else u % 0x1_0000_0000 - 0x1_0000_0000
  }

  lemma InRange32(u: int)
    requires -INT_LIMIT <= u < INT_LIMIT
    ensures ToInt32(u) == u
  {
  }

  lemma PastRange32(u: int)
    requires INT_LIMIT <= u < 0x1_0000_0000 + INT_LIMIT
    ensures ToInt32(u) == u - 0x1_0000_0000
  {
    assert u < 0x1_0000_0000 ==> u % 0x1_0000_0000 == u;
    assert u >= 0x1_0000_0000 ==> u % 0x1_0000_0000 == u - 0x1_0000_0000;
  }

  function MaskLen(net: seq<byte>): nat
    requires |net| >= 2
  {
    if net[1] >= 128 then 4 else 0
  }

  /** How many bytes the decoder waits for before it looks at the length. */
  function Need(net: seq<byte>): nat
    requires |net| >= 2
  {
    var code := net[1] % 128;
    if code == 126 then 4 + MaskLen(net) else if code == 127 then 10 + MaskLen(net) else 2
  }

  function HeadLen(net: seq<byte>): nat
    requires |net| >= 2
  {
    2 + (if net[1] % 128 == 126 then 2 else if net[1] % 128 == 127 then 8 else 0) + MaskLen(net)
  }

  /** The declared payload length; only the low 32 bits of the long form are read. */
  function PayloadLen(net: seq<byte>): int
    requires |net| >= 2 && |net| >= Need(net)
  {
    var code := net[1] % 128;
    if code == 126 then Word(0, 0, net[2], net[3])
    else if code == 127 then ToInt32(Word(net[6], net[7], net[8], net[9]))
    else code
  }

  /** How many more bytes there are than the header declares. */
  function Surplus(net: seq<byte>): int
    requires |net| >= 2 && |net| >= Need(net)
  {
    |net| - (HeadLen(net) + PayloadLen(net))
  }

  /** What the decoder returns: a payload length, or minus the number of bytes it still waits for. The
      difference of the lengths is computed in 32 bits. */
  function DecodeRet(net: seq<byte>): int {
    if |net| < 2 then -(2 - |net|)
    else if !Accepts(net[0]) then -9999
    else if |net| < Need(net) then -(Need(net) - |net|)
    else if Surplus(net) != 0 then ToInt32(Surplus(net))
    else PayloadLen(net)
  }

  /** The decoder took `net` for one whole frame. */
  predicate WholeFrame(net: seq<byte>)
    ensures WholeFrame(net) ==> |net| >= 2 && |net| >= Need(net) && PayloadLen(net) >= 0
  {
    |net| >= 2 && Accepts(net[0]) && |net| >= Need(net) && HeadLen(net) + PayloadLen(net) == |net|
  }

  function FrameKey(net: seq<byte>): Option<Key>
    requires WholeFrame(net)
  {
    if net[1] >= 128 then Some(net[HeadLen(net) - 4..HeadLen(net)]) else None
  }

  function Payload(net: seq<byte>): seq<byte>
    requires WholeFrame(net)
  {
    var data, key := net[HeadLen(net)..], FrameKey(net);
    if key.Some? then Masked(data, key.value) else data
  }

  lemma PayloadIsText(net: seq<byte>)
    requires WholeFrame(net)
    ensures TextOf(net, Payload(net))
  {
    hide Differs, PayloadLen, Accepts, Masked;
    var h, key, data := HeadLen(net), FrameKey(net), net[HeadLen(net)..];
    if key.Some? {
      forall i | 0 <= i < |data|
        ensures Differs(Masked(data, key.value)[i], net[h + i], net[h - 4 + i % 4])
      {
        MaskedBits(data, key.value, i);
        assert data[i] == net[h + i] && key.value[i % 4] == net[h - 4..h][i % 4] == net[h - 4 + i % 4];
      }
    }
  }

  /** The bytes the decoder leaves in the message buffer. */
  function DecodeMsg(net: seq<byte>): seq<byte> {
    if WholeFrame(net) then Payload(net) else net
  }

  // ---------------------------------------------------------------- the header is read back

  lemma FourBytes(n: nat)
    requires n < INT_LIMIT
    ensures Word(n / 0x100_0000 % 256, n / 0x1_0000 % 256, n / 0x100 % 256, n % 256) == n
    ensures n / 0x1_0000_0000 % 256 == n / 0x100_0000_0000 % 256 == 0
    ensures n / 0x1_0000_0000_0000 % 256 == n / 0x100_0000_0000_0000 % 128 == 0
  {
    hide Word;
    BytesWord(n);
    TopBitsAreZero(n);
  }

  lemma TopBitsAreZero(n: nat)
    requires n < INT_LIMIT
    ensures n / 0x1_0000_0000 == n / 0x100_0000_0000 == 0
    ensures n / 0x1_0000_0000_0000 == n / 0x100_0000_0000_0000 == 0
  {
  }

  /** The bytes of a header, by position. */
  lemma HeadBytes(n: nat, bFinal: int, key: Option<Key>)
    ensures var h, m := Head(n, bFinal, key), if key.Some? then 128 else 0;
            && |h| == 2 + LengthSize(n) + m / 32
            && h[0] == FirstByte(bFinal)
            && h[1] == m + LengthCode(n)
            && (key.Some? ==> h[|h| - 4..] == key.value)
            && h[2..2 + LengthSize(n)] == Extended(n)
  {
  }

  lemma SameSlice(net: seq<byte>, h: seq<byte>, i: nat, j: nat)
    requires h <= net && i <= j <= |h|
    ensures net[i..j] == h[i..j]
  {
  }

  /** The length is read back from its own bytes. */
  lemma LengthIsRead(net: seq<byte>, n: nat, m: nat)
    requires n < INT_LIMIT && (m == 0 || m == 128)
    requires |net| >= 2 + LengthSize(n) + m / 32
    requires net[1] == m + LengthCode(n)
    requires net[2..2 + LengthSize(n)] == Extended(n)
    ensures MaskLen(net) == m / 32 && HeadLen(net) == 2 + LengthSize(n) + m / 32
    ensures |net| >= Need(net) && PayloadLen(net) == n
  {
    hide LongLength, Word, ToInt32;
    CodeAndMask(net[1], m, LengthCode(n));
    var e := net[2..2 + LengthSize(n)];
    if n > 65535 {
      LongLengthIsRead(n);
      assert net[6] == e[4] && net[7] == e[5] && net[8] == e[6] && net[9] == e[7];
    } else if n > 125 {
      ShortLengthIsRead(n);
      assert net[2] == e[0] && net[3] == e[1];
    }
  }

  lemma CodeAndMask(b: byte, m: nat, code: nat)
    requires (m == 0 || m == 128) && code < 128 && b == m + code
    ensures b % 128 == code && (b >= 128 <==> m == 128) && m / 32 == if m == 128 then 4 else 0
  {
  }

  lemma ShortLengthIsRead(n: nat)
    requires n < 0x1_0000
    ensures Word(0, 0, n / 256 % 256, n % 256) == n
  {
    assert n / 256 < 256;
  }

  lemma LongLengthIsRead(n: nat)
    requires n < INT_LIMIT
    ensures var e := LongLength(n);
            |e| == 8 && ToInt32(Word(e[4], e[5], e[6], e[7])) == n
  {
    hide Word, ToInt32;
    FourBytes(n);
    InRange32(n);
  }

  /** Any bytes that start with the header for a length of `n` announce exactly that frame. */
  lemma HeadIsRead(net: seq<byte>, n: nat, bFinal: int, key: Option<Key>)
    requires n < INT_LIMIT && Head(n, bFinal, key) <= net
    ensures |net| >= 2 && net[0] == FirstByte(bFinal)
    ensures HeadLen(net) == |Head(n, bFinal, key)| <= |net| && |net| >= Need(net) && PayloadLen(net) == n
    ensures net[1] >= 128 <==> key.Some?
    ensures key.Some? ==> HeadLen(net) >= 4 && net[HeadLen(net) - 4..HeadLen(net)] == key.value
  {
    hide Head, HeadLen, Need, PayloadLen, LongLength;
    var h, m := Head(n, bFinal, key), if key.Some? then 128 else 0;
    HeadBytes(n, bFinal, key);
    SameSlice(net, h, 2, 2 + LengthSize(n));
    LengthIsRead(net, n, m);
    if key.Some? {
      SameSlice(net, h, |h| - 4, |h|);
    }
  }

  /** The frame round trip: decoding gives back the message, and refuses exactly the other opcodes. */
  lemma DecodeEncode(msg: seq<byte>, bFinal: int, key: Option<Key>)
    requires |msg| < INT_LIMIT
    ensures var net := Encode(msg, bFinal, key);
            if Accepts(FirstByte(bFinal)) then
              && WholeFrame(net) && DecodeRet(net) == |msg| && DecodeMsg(net) == msg && FrameKey(net) == key
            else DecodeRet(net) == -9999 && DecodeMsg(net) == net
    ensures Accepts(FirstByte(bFinal)) <==> bFinal == 0 || bFinal % 16 in {1, 8, 9, 10}
  {
    hide Head, Need, HeadLen, PayloadLen;
    var net, h := Encode(msg, bFinal, key), Head(|msg|, bFinal, key);
    HeadIsRead(net, |msg|, bFinal, key);
    if key.Some? {
      MaskTwice(msg, key.value);
      assert net[|h|..] == Masked(msg, key.value);
    } else {
      assert net[|h|..] == msg;
    }
  }

  /** The opcode nibble and the close flag that the receiver sees are the sender's. */
  lemma OpcodeIsRead(msg: seq<byte>, bFinal: int, key: Option<Key>)
    ensures var net := Encode(msg, bFinal, key);
            && |net| >= 2 && net[0] % 16 == (if bFinal == 0 then 1 else bFinal % 16)
            && (net[0] == 0x88 <==> bFinal % 16 == 8)
  {
    assert Encode(msg, bFinal, key)[0] == FirstByte(bFinal);
  }

  // ---------------------------------------------------------------- incomplete frames

  /** A header that is complete is read the same in every longer input. */
  lemma SameHeader(net: seq<byte>, f: seq<byte>)
    requires net <= f && |net| >= 2
    ensures net[0] == f[0] && Need(net) == Need(f) && HeadLen(net) == HeadLen(f)
    ensures |net| >= Need(net) ==> PayloadLen(net) == PayloadLen(f)
  {
    assert forall i :: 0 <= i < |net| ==> net[i] == f[i];
  }

  /** On a proper prefix of a frame the decoder asks for at least one byte and never for more than are
      missing; once it has seen the length it asks for exactly what is missing. */
  lemma PrefixDeficit(msg: seq<byte>, bFinal: int, key: Option<Key>, m: nat)
    requires |msg| < INT_LIMIT && Accepts(FirstByte(bFinal))
    requires 1 <= m < |Encode(msg, bFinal, key)|
    ensures var f := Encode(msg, bFinal, key);
            var k := -DecodeRet(f[..m]);
            && 1 <= k <= |f| - m
            && (m >= 2 && m >= Need(f) ==> k == |f| - m)
  {
    hide Head, Need, HeadLen, PayloadLen;
    var f, h := Encode(msg, bFinal, key), Head(|msg|, bFinal, key);
    HeadIsRead(f, |msg|, bFinal, key);
    if m >= 2 {
      SameHeader(f[..m], f);
      if m >= Need(f) {
        SurplusReturned(f[..m]);
      }
    }
  }

  /** Hence no frame is a proper prefix of another. */
  lemma PrefixFree(a: seq<byte>, bFinal: int, key: Option<Key>, b: seq<byte>, bFinal': int, key': Option<Key>)
    requires |a| < INT_LIMIT && |b| < INT_LIMIT
    requires Accepts(FirstByte(bFinal)) && Accepts(FirstByte(bFinal'))
    ensures !(Encode(a, bFinal, key) < Encode(b, bFinal', key'))
  {
    hide Encode, DecodeRet;
    var f, g := Encode(a, bFinal, key), Encode(b, bFinal', key');
    DecodeEncode(a, bFinal, key);
    assert f <= g ==> g[..|f|] == f;
    if f < g {
      NonEmptyFrame(a, bFinal, key);
      PrefixDeficit(b, bFinal', key', |f|);
    }
  }

  lemma NonEmptyFrame(msg: seq<byte>, bFinal: int, key: Option<Key>)
    ensures |Encode(msg, bFinal, key)| >= 2 + |msg|
  {
  }

  // ---------------------------------------------------------------- returns that are no message

  /** A whole frame with at least one byte behind it. */
  ghost predicate FrameAndMore(net: seq<byte>) {
    exists k :: 0 <= k < |net| && WholeFrame(net[..k])
  }

  /** A long form whose low 32 bits are a negative `int`. */
  predicate NegativeLength(net: seq<byte>) {
    |net| >= 2 && Accepts(net[0]) && net[1] % 128 == 127 && |net| >= Need(net) && net[6] >= 128
  }

  /** The decoder has seen the length, and has more bytes than that. */
  predicate TooLong(net: seq<byte>) {
    |net| >= 2 && Accepts(net[0]) && |net| >= Need(net) && |net| > HeadLen(net) + PayloadLen(net)
  }

  /** A negative length so low that the difference of the lengths leaves the `int` range. */
  predicate Overflows(net: seq<byte>) {
    NegativeLength(net) && PayloadLen(net) + INT_LIMIT <= |net| - HeadLen(net)
  }

  /** A return that is not negative stands for a message except on exactly two kinds of input: bytes after
      a whole frame, and a negative declared length from which the difference is still an `int`. There the
      raw input is in the message buffer. An overflowing difference reads as a wait for more bytes. */
  lemma NoMessage(net: seq<byte>)
    requires |net| < INT_LIMIT
    ensures TooLong(net) <==> FrameAndMore(net) || NegativeLength(net)
    ensures !(FrameAndMore(net) && NegativeLength(net))
    ensures DecodeRet(net) >= 0 && !WholeFrame(net) <==> TooLong(net) && !Overflows(net)
    ensures TooLong(net) ==> DecodeMsg(net) == net
    ensures forall k :: 0 <= k < |net| && WholeFrame(net[..k]) ==> DecodeRet(net) == |net| - k
    ensures NegativeLength(net) ==> PayloadLen(net) < 0
    ensures NegativeLength(net) && !Overflows(net) ==> DecodeRet(net) == |net| - HeadLen(net) - PayloadLen(net) > 0
    ensures Overflows(net) ==> DecodeRet(net) == |net| - HeadLen(net) - PayloadLen(net) - 0x1_0000_0000 < 0
  {
    hide Need, HeadLen, PayloadLen, ToInt32, DecodeRet;
    FrontFrame(net);
    if |net| >= 2 && Accepts(net[0]) && |net| >= Need(net) {
      LengthSign(net);
      SurplusReturned(net);
    } else {
      NotMeasured(net);
    }
  }

  /** A frame in front is the one that the length announces. */
  lemma FrontFrame(net: seq<byte>)
    ensures forall k :: 0 <= k < |net| && WholeFrame(net[..k]) ==>
              TooLong(net) && PayloadLen(net) >= 0 && |net| - k == Surplus(net)
    ensures TooLong(net) && PayloadLen(net) >= 0 ==> FrameAndMore(net)
  {
    hide Need, HeadLen, PayloadLen;
    forall k | 0 <= k < |net| && WholeFrame(net[..k])
      ensures TooLong(net) && PayloadLen(net) >= 0 && |net| - k == Surplus(net)
    {
      SameHeader(net[..k], net);
    }
    if TooLong(net) && PayloadLen(net) >= 0 {
      LengthSign(net);
      var k := HeadLen(net) + PayloadLen(net);
      SameHeader(net[..k], net);
      assert WholeFrame(net[..k]);
    }
  }

  lemma NotMeasured(net: seq<byte>)
    requires |net| < 2 || !Accepts(net[0]) || |net| < Need(net)
    ensures DecodeRet(net) < 0
  {
  }

  /** The return once the length is in. */
  lemma SurplusReturned(net: seq<byte>)
    requires |net| >= 2 && Accepts(net[0]) && |net| >= Need(net)
    ensures Surplus(net) < 0 ==> DecodeRet(net) == Surplus(net)
    ensures 0 < Surplus(net) < INT_LIMIT ==> DecodeRet(net) == Surplus(net)
    ensures INT_LIMIT <= Surplus(net) && |net| < INT_LIMIT ==>
              PayloadLen(net) < 0 && DecodeRet(net) == Surplus(net) - 0x1_0000_0000 < 0
    ensures Surplus(net) == 0 ==> WholeFrame(net) && DecodeRet(net) == PayloadLen(net)
  {
    hide Need, HeadLen, PayloadLen, ToInt32;
    LengthSign(net);
    LengthRange(net);
    if -INT_LIMIT <= Surplus(net) < INT_LIMIT {
      InRange32(Surplus(net));
    } else if |net| < INT_LIMIT {
      PastRange32(Surplus(net));
    }
  }

  lemma LengthSign(net: seq<byte>)
    requires |net| >= 2 && |net| >= Need(net)
    ensures PayloadLen(net) < 0 <==> net[1] % 128 == 127 && net[6] >= 128
    ensures PayloadLen(net) < 0 ==> HeadLen(net) == Need(net) <= |net|
    ensures 2 <= Need(net) <= HeadLen(net) <= 14
  {
    hide Word, ToInt32;
    if net[1] % 128 == 127 {
      WordSign(net[6], net[7], net[8], net[9]);
    } else if net[1] % 128 == 126 {
      ShortWord(net[2], net[3]);
    }
  }

  /** In a long form the whole header is in; only there are lengths large. */
  lemma LengthRange(net: seq<byte>)
    requires |net| >= 2 && |net| >= Need(net)
    ensures -INT_LIMIT <= PayloadLen(net) < INT_LIMIT
    ensures PayloadLen(net) >= 0x1_0000 ==> HeadLen(net) <= |net|
  {
    hide Word, ToInt32;
    if net[1] % 128 == 126 {
      ShortWord(net[2], net[3]);
    }
  }

  lemma WordSign(a: byte, b: byte, c: byte, d: byte)
    ensures ToInt32(Word(a, b, c, d)) < 0 <==> a >= 128
  {
    hide ToInt32;
    assert 0 <= Word(a, b, c, d) < 0x1_0000_0000;
    assert Word(a, b, c, d) < INT_LIMIT <==> a < 128;
    if a < 128 {
      InRange32(Word(a, b, c, d));
    } else {
      PastRange32(Word(a, b, c, d));
    }
  }

  lemma ShortWord(c: byte, d: byte)
    ensures 0 <= Word(0, 0, c, d) < 0x1_0000
  {
  }

  /** Three negative lengths in ten bytes: the return is 1, or 65537, or the least `int`. */
  lemma NegativeLengths()
    ensures var net: seq<byte> := [0x81, 0x7F, 0, 0, 0, 0, 0xFF, 0xFF, 0xFF, 0xFF];
            NegativeLength(net) && !Overflows(net) && DecodeRet(net) == 1
    ensures var net: seq<byte> := [0x81, 0x7F, 0, 0, 0, 0, 0xFF, 0xFE, 0xFF, 0xFF];
            NegativeLength(net) && !Overflows(net) && DecodeRet(net) == 65537
    ensures var net: seq<byte> := [0x81, 0x7F, 0, 0, 0, 0, 0x80, 0x00, 0x00, 0x00];
            Overflows(net) && DecodeRet(net) == -0x8000_0000
  {
  }

  // ---------------------------------------------------------------- minimal form

  /** The length is in its shortest form, and the four bytes that the decoder skips are zero. */
  predicate Minimal(net: seq<byte>)
    requires WholeFrame(net)
  {
    && net[1] % 128 == LengthCode(PayloadLen(net))
    && (net[1] % 128 == 127 ==> net[2..6] == [0, 0, 0, 0])
  }

  lemma HeadStarts(msg: seq<byte>, bFinal: int, key: Option<Key>)
    ensures Head(|msg|, bFinal, key) <= Encode(msg, bFinal, key)
  {
  }

  lemma EncodeIsMinimal(msg: seq<byte>, bFinal: int, key: Option<Key>)
    requires |msg| < INT_LIMIT && Accepts(FirstByte(bFinal))
    ensures var net := Encode(msg, bFinal, key);
            WholeFrame(net) && PayloadLen(net) == |msg| && Minimal(net)
  {
    hide *;
    var net, h := Encode(msg, bFinal, key), Head(|msg|, bFinal, key);
    DecodeEncode(msg, bFinal, key);
    HeadStarts(msg, bFinal, key);
    HeadIsRead(net, |msg|, bFinal, key);
    HeadBytes(|msg|, bFinal, key);
    MinimalByHead(net, h, |msg|, if key.Some? then 128 else 0);
  }

  lemma MinimalByHead(net: seq<byte>, h: seq<byte>, n: nat, m: nat)
    requires WholeFrame(net) && PayloadLen(net) == n < INT_LIMIT && (m == 0 || m == 128)
    requires h <= net && |h| >= 2 + LengthSize(n) && h[1] == m + LengthCode(n)
    requires h[2..2 + LengthSize(n)] == Extended(n)
    ensures Minimal(net)
  {
    hide WholeFrame, PayloadLen, LongLength;
    assert net[1] == h[1];
    if n > 65535 {
      HighBytesAreZero(n);
      SameSlice(net, h, 2, 6);
      assert h[2..6] == h[2..10][..4];
    }
  }

  lemma HighBytesAreZero(n: nat)
    requires n < INT_LIMIT
    ensures LongLength(n)[..4] == [0, 0, 0, 0]
  {
    FourBytes(n);
  }

  /** A declared length in a longer form than needed costs bytes; no form is shorter than the encoder's. */
  lemma DeclaredSize(net: seq<byte>)
    requires WholeFrame(net)
    ensures 0 <= PayloadLen(net) < INT_LIMIT
    ensures HeadLen(net) >= 2 + LengthSize(PayloadLen(net)) + MaskLen(net)
    ensures HeadLen(net) == 2 + LengthSize(PayloadLen(net)) + MaskLen(net)
            <==> net[1] % 128 == LengthCode(PayloadLen(net))
  {
  }

  /** The extended length bytes of a frame are the encoder's exactly when the frame is in minimal form. */
  lemma ExtendedIsRead(net: seq<byte>)
    requires WholeFrame(net)
    requires net[1] % 128 == LengthCode(PayloadLen(net))
    ensures net[2..2 + LengthSize(PayloadLen(net))] == Extended(PayloadLen(net)) <==> Minimal(net)
  {
    var n := PayloadLen(net);
    if n > 65535 {
      LongForm(net, n);
    } else if n > 125 {
      assert n / 256 % 256 == net[2] && n % 256 == net[3];
    }
  }

  lemma LongForm(net: seq<byte>, n: nat)
    requires |net| >= 10 && n < INT_LIMIT && n == ToInt32(Word(net[6], net[7], net[8], net[9]))
    ensures net[2..10] == LongLength(n) <==> net[2..6] == [0, 0, 0, 0]
  {
    hide Word, ToInt32, LongLength;
    BytesOf(net[6], net[7], net[8], net[9], n);
    var zeros, low := [0, 0, 0, 0], net[6..10];
    LongLengthParts(n, low);
    assert net[2..10] == net[2..6] + low;
    assert (net[2..6] + low)[..4] == net[2..6] && (zeros + low)[..4] == zeros;
  }

  lemma LongLengthParts(n: nat, low: seq<byte>)
    requires n < INT_LIMIT
    requires low == [n / 0x100_0000 % 256, n / 0x1_0000 % 256, n / 0x100 % 256, n % 256]
    ensures LongLength(n) == [0, 0, 0, 0] + low
  {
    FourBytes(n);
  }

  lemma BytesOf(a: byte, b: byte, c: byte, d: byte, n: nat)
    requires n < INT_LIMIT && n == ToInt32(Word(a, b, c, d))
    ensures a == n / 0x100_0000 % 256 && b == n / 0x1_0000 % 256 && c == n / 0x100 % 256 && d == n % 256
  {
    hide Word, ToInt32;
    WordBytes(a, b, c, d);
    assert n == Word(a, b, c, d) by {
      Unsigned(Word(a, b, c, d));
    }
  }

  lemma Unsigned(u: nat)
    requires u < 0x1_0000_0000 && ToInt32(u) >= 0
    ensures ToInt32(u) == u
  {
  }

  /** Encoding again what was decoded, with the same opcode and key, never takes more bytes than the frame
      had, and gives the frame itself exactly when it was in minimal form. */
  lemma Reencode(net: seq<byte>)
    requires WholeFrame(net)
    ensures var again := Encode(Payload(net), net[0] % 16, FrameKey(net));
            |again| <= |net| && (again == net <==> Minimal(net))
  {
    hide Extended, LongLength, Masked, FirstByte, Head, PayloadLen, LengthSize, LengthCode, Payload;
    var n, key, z := PayloadLen(net), FrameKey(net), HeadLen(net);
    var h, again := Head(n, net[0] % 16, key), Encode(Payload(net), net[0] % 16, key);
    DeclaredSize(net);
    HeadBytes(n, net[0] % 16, key);
    SameBody(net);
    assert again == h + net[z..];
    if net[1] % 128 == LengthCode(n) {
      ExtendedIsRead(net);
      HeadIsSame(net, h, n);
      assert net == net[..z] + net[z..];
      assert again[..z] == h;
    }
  }

  lemma SameBody(net: seq<byte>)
    requires WholeFrame(net)
    ensures var key := FrameKey(net);
            && |Payload(net)| == PayloadLen(net)
            && (if key.Some? then Masked(Payload(net), key.value) else Payload(net)) == net[HeadLen(net)..]
  {
    var key := FrameKey(net);
    if key.Some? {
      MaskTwice(net[HeadLen(net)..], key.value);
    }
  }

  lemma SameMiddle(a: seq<byte>, x: seq<byte>, y: seq<byte>, b: seq<byte>)
    requires |x| == |y|
    ensures a + x + b == a + y + b <==> x == y
  {
    assert (a + x + b)[|a|..|a| + |x|] == x;
    assert (a + y + b)[|a|..|a| + |x|] == y;
  }

  lemma TwoBytes(net: seq<byte>, m: nat)
    requires |net| >= 2 && Accepts(net[0]) && (m == 0 || m == 128) && (m == 128 <==> net[1] >= 128)
    ensures net[..2] == [FirstByte(net[0] % 16), net[1] % 128 + m]
  {
  }

  /** Header bytes in the encoder's length form differ at most in the extended length. */
  lemma HeadIsSame(net: seq<byte>, h: seq<byte>, n: nat)
    requires WholeFrame(net) && PayloadLen(net) == n && net[1] % 128 == LengthCode(n)
    requires h == Head(n, net[0] % 16, FrameKey(net))
    ensures |h| == HeadLen(net)
    ensures h == net[..HeadLen(net)] <==> net[2..2 + LengthSize(n)] == Extended(n)
  {
    hide LongLength, FirstByte, Extended, PayloadLen, LengthCode, Accepts;
    var z, key := HeadLen(net), FrameKey(net);
    var m := if key.Some? then 128 else 0;
    var tail := if key.Some? then key.value else [];
    TwoBytes(net, m);
    SizesAgree(net, n);
    var e := 2 + LengthSize(n);
    assert z == e + |tail| && net[e..z] == tail;
    ThreeParts(net, e, z);
    SameMiddle(net[..2], Extended(n), net[2..e], tail);
  }

  lemma ThreeParts(s: seq<byte>, e: nat, z: nat)
    requires 2 <= e <= z <= |s|
    ensures s[..z] == s[..2] + s[2..e] + s[e..z]
  {
  }

  lemma SizesAgree(net: seq<byte>, n: nat)
    requires |net| >= 2 && net[1] % 128 == LengthCode(n)
    ensures HeadLen(net) == 2 + LengthSize(n) + MaskLen(net)
  {
  }
}
