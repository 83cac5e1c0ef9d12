// The JSON string transducers (etc/jss_encode.c, etc/jss_decode.c; section 7 of RFC 8259).
module JsonText {
  import opened Bytes
  import opened LogFormat

  const QUOTE: byte := 34
  const SLASH: byte := 47
  const BACKSLASH: byte := 92
  const LETTER_U: byte := 117

  /** The letter of a two-character escape, if the byte has one. */
  function Letter(b: byte): Option<byte> {
    if b == QUOTE || b == BACKSLASH || b == SLASH then Some(b)
    else if b == 12 then Some(102)
    else if b == 10 then Some(110)
    else if b == 13 then Some(114)
    else if b == 9 then Some(116)
    else if b == 8 then Some(98)
    else None
  }

  /** What the decoder prints for the letter after a backslash; nothing for an unknown letter. */
  function Unletter(c: byte): seq<byte> {
    if c == QUOTE || c == BACKSLASH || c == SLASH then [c]
    else if c == 102 then [12]
    else if c == 110 then [10]
    else if c == 114 then [13]
    else if c == 116 then [9]
    else if c == 98 then [8]
    else []
  }

  function EscapeByte(b: byte): seq<byte> {
    if Letter(b).Some? then [BACKSLASH, Letter(b).value]
    else if b < 0x20 then [BACKSLASH, LETTER_U] + HexDigits(b, 4, false)
    else [b]
  }

  function Encode(s: seq<byte>): seq<byte> {
    if s == [] then [] else EscapeByte(s[0]) + Encode(s[1..])
  }

  /** How many hexadecimal digits `scanf("%04x")` takes. */
  function Digits4(s: seq<byte>): (n: nat)
    ensures n <= 4 && n <= |s|
    ensures forall i :: 0 <= i < n ==> IsHexDigit(s[i])
  {
    if HexRun(s) < 4 then HexRun(s) else 4
  }

  /** The decoder: `skipN` unescaped bytes are dropped, then the first bare quotes are counted down by
      `tailCut`, each taking one more byte along while the count stays positive. */
  function Decode(s: seq<byte>, skipN: int, tailCut: int): seq<byte>
    decreases |s|
  {
    if s == [] then []
    else if s[0] == BACKSLASH then
      if |s| == 1 then []
      else if s[1] == LETTER_U then
        var n := Digits4(s[2..]);
        (if n == 0 then [] else [HexValue(s[2..][..n]) % 256]) + Decode(s[2 + n..], skipN, tailCut)
      else Unletter(s[1]) + Decode(s[2..], skipN, tailCut)
    else if skipN > 0 then Decode(s[1..], skipN - 1, tailCut)
    else if tailCut != 0 && s[0] == QUOTE then
      if tailCut - 1 > 0 then Decode(s[Min(2, |s|)..], skipN, tailCut - 2) else Decode(s[1..], skipN, tailCut - 1)
    else [s[0]] + Decode(s[1..], skipN, tailCut)
  }

  lemma DecodeUnicode(b: byte, rest: seq<byte>, tailCut: int)
    ensures Decode([BACKSLASH, LETTER_U] + HexDigits(b, 4, false) + rest, 0, tailCut) == [b] + Decode(rest, 0, tailCut)
  {
    hide HexDigits, HexValue, Digits4;
    var ds := HexDigits(b, 4, false);
    var s := [BACKSLASH, LETTER_U] + ds + rest;
    assert s[2..] == ds + rest && s[6..] == rest;
    FourDigits(ds, rest);
    assert Pow16(4) == 65536;
    HexRoundTrip(b, 4, false);
  }

  /** One escaped byte is read back, whatever follows and however many quotes are still to be cut. */
  lemma DecodeOne(b: byte, rest: seq<byte>, tailCut: int)
    ensures Decode(EscapeByte(b) + rest, 0, tailCut) == [b] + Decode(rest, 0, tailCut)
  {
    var e := EscapeByte(b);
    var s := e + rest;
    if Letter(b).Some? {
      assert s[0] == BACKSLASH && s[1] == Letter(b).value && s[2..] == rest;
    } else if b < 0x20 {
      DecodeUnicode(b, rest, tailCut);
    } else {
      assert s[0] == b && s[1..] == rest;
    }
  }

  lemma FourDigits(ds: seq<byte>, rest: seq<byte>)
    requires |ds| == 4 && forall i :: 0 <= i < 4 ==> IsHexDigit(ds[i])
    ensures Digits4(ds + rest) == 4 && (ds + rest)[..4] == ds
  {
    var s := ds + rest;
    assert forall i :: 0 <= i < 4 ==> IsHexDigit(s[i]);
    var n := HexRun(s);
  }

  lemma Assoc(a: seq<byte>, b: seq<byte>, c: seq<byte>)
    ensures a + b + c == a + (b + c)
  {
  }

  lemma {:induction false} DecodeEncoded(s: seq<byte>, rest: seq<byte>, tailCut: int)
    ensures Decode(Encode(s) + rest, 0, tailCut) == s + Decode(rest, 0, tailCut)
  {
    hide Decode, EscapeByte;
    var d := Decode(rest, 0, tailCut);
    if s == [] {
      assert [] + rest == rest && s + d == d;
    } else {
      var e, m := EscapeByte(s[0]), Encode(s[1..]);
      assert Encode(s) == e + m;
      hide Encode;
      DecodeEncoded(s[1..], rest, tailCut);
      DecodeOne(s[0], m + rest, tailCut);
      Assoc(e, m, rest);
      Assoc([s[0]], s[1..], d);
      assert [s[0]] + s[1..] == s;
    }
  }

  /** Every prefix byte but a backslash is skipped, quotes included. */
  lemma {:induction false} SkipPrefix(p: seq<byte>, rest: seq<byte>, tailCut: int)
    requires BACKSLASH !in p
    ensures Decode(p + rest, |p|, tailCut) == Decode(rest, 0, tailCut)
  {
    if p == [] {
      assert [] + rest == rest;
    } else {
      assert (p + rest)[0] == p[0] && (p + rest)[1..] == p[1..] + rest;
      SkipPrefix(p[1..], rest, tailCut);
    }
  }

  /** The round trip with nothing to skip or cut. */
  lemma RoundTrip(s: seq<byte>)
    ensures Decode(Encode(s), 0, 0) == s
  {
    DecodeEncoded(s, [], 0);
    assert Encode(s) + [] == Encode(s);
  }

  /** The round trip inside a frame: a prefix of known length before, a quote and one byte after. */
  lemma FramedRoundTrip(prefix: seq<byte>, s: seq<byte>, last: byte)
    requires BACKSLASH !in prefix
    ensures Decode(prefix + Encode(s) + [QUOTE, last], |prefix|, 2) == s
  {
    var tail := [QUOTE, last];
    SkipPrefix(prefix, Encode(s) + tail, 2);
    assert prefix + Encode(s) + tail == prefix + (Encode(s) + tail);
    DecodeEncoded(s, tail, 2);
    assert Decode(tail, 0, 2) == Decode(tail[2..], 0, 0) == [];
  }

  // ---------------------------------------------------------------- encoded text is safe to embed

  /** No control byte, and no quote except right after the backslash of an escape. */
  predicate Clean(s: seq<byte>)
    decreases |s|
  {
    s == [] ||
    (s[0] >= 0x20 &&
     if s[0] == BACKSLASH then |s| >= 2 && s[1] >= 0x20 && Clean(s[2..]) else s[0] != QUOTE && Clean(s[1..]))
  }

  lemma {:induction false} DigitsAreClean(ds: seq<byte>, rest: seq<byte>)
    requires forall i :: 0 <= i < |ds| ==> IsHexDigit(ds[i])
    requires Clean(rest)
    ensures Clean(ds + rest)
  {
    if ds == [] {
      assert [] + rest == rest;
    } else {
      DigitsAreClean(ds[1..], rest);
      assert (ds + rest)[1..] == ds[1..] + rest;
    }
  }

  lemma EscapedIsClean(b: byte, rest: seq<byte>)
    requires Clean(rest)
    ensures Clean(EscapeByte(b) + rest)
  {
    var e := EscapeByte(b);
    var s := e + rest;
    assert s[0] == e[0];
    if Letter(b).Some? {
      assert s[1] == e[1] && s[2..] == rest;
    } else if b < 0x20 {
      DigitsAreClean(HexDigits(b, 4, false), rest);
      assert s[1] == e[1] && s[2..] == HexDigits(b, 4, false) + rest;
    } else {
      assert s[1..] == rest;
    }
  }

  lemma {:induction false} EncodeIsClean(s: seq<byte>)
    ensures Clean(Encode(s))
  {
    hide Clean, EscapeByte;
    if s == [] {
      EmptyIsClean();
    } else {
      EncodeIsClean(s[1..]);
      EscapedIsClean(s[0], Encode(s[1..]));
    }
  }

  lemma EmptyIsClean()
    ensures Clean([])
  {
  }

  lemma {:induction false} CleanHasNoControls(s: seq<byte>)
    requires Clean(s)
    ensures forall b :: b in s ==> b >= 0x20
    decreases |s|
  {
    if s != [] {
      var n := if s[0] == BACKSLASH then 2 else 1;
      CleanHasNoControls(s[n..]);
      assert s == s[..n] + s[n..];
    }
  }

  /** Encoded text of any bytes is one payload of the log: it is stored exactly when the time has 32
      bits and the text fits the record. */
  lemma EncodedIsStorable(ct: nat, s: seq<byte>)
    ensures UpToNul(Encode(s)) == Encode(s)
    ensures Storable(Entry(ct, Encode(s))) <==> ct < 0x1_0000_0000 && |Encode(s)| <= MAX_RECORD - 10
  {
    EncodeIsClean(s);
    CleanHasNoControls(Encode(s));
    assert IndexOf(Encode(s), NUL) == |Encode(s)|;
  }

  /** What a stored record gives back: the payload between the comma and the newline decodes to the data. */
  lemma RecordHoldsData(ct: nat, s: seq<byte>)
    requires Storable(Entry(ct, Encode(s)))
    ensures var r := FormatRecord(ct, Encode(s));
            IsRecord(r) && TimeOf(r) == ct && Decode(r[9..|r| - 1], 0, 0) == s
  {
    hide Decode, Encode, HexDigits;
    EncodedIsStorable(ct, s);
    FormatIsRecord(ct, Encode(s));
    RoundTrip(s);
    var r := FormatRecord(ct, Encode(s));
    assert r[9..|r| - 1] == Encode(s);
  }

  // ---------------------------------------------------------------- the filters

  /** The chain of tests in the loop of jss_encode. */
  method PutEscaped(ch: byte) returns (e: seq<byte>)
    ensures e == EscapeByte(ch)
  {
    if ch == QUOTE {
      e := [BACKSLASH, QUOTE];
    } else if ch == 12 {
      e := [BACKSLASH, 102];
    } else if ch == 10 {
      e := [BACKSLASH, 110];
    } else if ch == 13 {
      e := [BACKSLASH, 114];
    } else if ch == 9 {
      e := [BACKSLASH, 116];
    } else if ch == 8 {
      e := [BACKSLASH, 98];
    } else if ch == BACKSLASH {
      e := [BACKSLASH, BACKSLASH];
    } else if ch == SLASH {
      e := [BACKSLASH, SLASH];
    } else if ch < 0x20 {
      e := [BACKSLASH, LETTER_U] + HexDigits(ch, 4, false);
    } else {
      e := [ch];
    }
  }

  lemma {:induction false} EncodeSnoc(s: seq<byte>, b: byte)
    ensures Encode(s + [b]) == Encode(s) + EscapeByte(b)
  {
    hide EscapeByte;
    if s == [] {
      assert ([] + [b])[1..] == [] && Encode([]) == [];
    } else {
      EncodeSnoc(s[1..], b);
      assert (s + [b])[0] == s[0] && (s + [b])[1..] == s[1..] + [b];
    }
  }

  /** The text for one byte, character by character: a backslash and one character for eight bytes, a
      backslash, `u` and four digits for the other control bytes, and any other byte as it is. */
  predicate WrittenFor(b: byte, e: seq<byte>) {
    if b == '\"' as int then e == Ascii("\\\"")
    else if b == '\\' as int then e == Ascii("\\\\")
    else if b == '/' as int then e == Ascii("\\/")
    else if b == 8 then e == Ascii("\\b")
    else if b == 9 then e == Ascii("\\t")
    else if b == 10 then e == Ascii("\\n")
    else if b == 12 then e == Ascii("\\f")
    else if b == 13 then e == Ascii("\\r")
    else if b < 32 then e == Ascii("\\u00") + ["01"[b / 16] as int, "0123456789abcdef"[b % 16] as int]
    else e == [b]
  }

  lemma EscapedText(b: byte)
    ensures WrittenFor(b, EscapeByte(b))
  {
    hide HexDigits;
    if Letter(b) == None && b < 32 {
      ControlDigits(b);
    }
  }

  lemma ControlDigits(b: byte)
    requires b < 32
    ensures HexDigits(b, 4, false)
            == ['0' as int, '0' as int, "01"[b / 16] as int, "0123456789abcdef"[b % 16] as int]
  {
    hide HexDigit, HexDigits;
    HexLetter(b % 16);
    HexLetter(b / 16);
    HexLetter(0);
    OneMoreDigit(b, 4);
    OneMoreDigit(b / 16, 3);
    OneMoreDigit(0, 2);
    OneMoreDigit(0, 1);
  }

  lemma OneMoreDigit(v: nat, n: nat)
    requires n > 0
    ensures HexDigits(v, n, false) == HexDigits(v / 16, n - 1, false) + [HexDigit(v % 16, false)]
    ensures HexDigits(v, 0, false) == []
  {
  }

  function Concat(pieces: seq<seq<byte>>): seq<byte> {
    if pieces == [] then [] else pieces[0] + Concat(pieces[1..])
  }

  lemma {:induction false} EncodedPieces(s: seq<byte>) returns (pieces: seq<seq<byte>>)
    ensures |pieces| == |s| && Encode(s) == Concat(pieces)
    ensures forall i :: 0 <= i < |s| ==> WrittenFor(s[i], pieces[i])
  {
    hide EscapeByte, WrittenFor;
    pieces := [];
    if s != [] {
      var rest := EncodedPieces(s[1..]);
      pieces := [EscapeByte(s[0])] + rest;
      EscapedText(s[0]);
      assert pieces[1..] == rest;
    }
  }

  /** The loop of jss_encode. */
  method EncodeFilter(input: seq<byte>, insertPre: seq<byte>, appendPost: seq<byte>)
    returns (out: seq<byte>, ghost pieces: seq<seq<byte>>)
    ensures out == insertPre + Encode(input) + appendPost
    ensures out == insertPre + Concat(pieces) + appendPost && |pieces| == |input|
    ensures forall i :: 0 <= i < |input| ==> WrittenFor(input[i], pieces[i])
  {
    hide EscapeByte, WrittenFor;
    out := insertPre;
    assert input[..0] == [];
    for i := 0 to |input|
      invariant out == insertPre + Encode(input[..i])
    {
      hide Encode;
      var e := PutEscaped(input[i]);
      EncodeSnoc(input[..i], input[i]);
      assert input[..i] + [input[i]] == input[..i + 1];
      out := out + e;
    }
    assert input[..|input|] == input;
    out := out + appendPost;
    pieces := EncodedPieces(input);
  }

  /** What the decoder prints for an escape, character by character; nothing for an unknown one. */
  lemma DecodedEscape(c: byte, rest: seq<byte>, skipN: int, tailCut: int)
    requires c != 'u' as int
    ensures var printed := Decode([92, c] + rest, skipN, tailCut);
            var d := Decode(rest, skipN, tailCut);
            if c == '\"' as int || c == '\\' as int || c == '/' as int then printed == [c] + d
            else if c == 'b' as int then printed == [8] + d
            else if c == 't' as int then printed == [9] + d
            else if c == 'n' as int then printed == [10] + d
            else if c == 'f' as int then printed == [12] + d
            else if c == 'r' as int then printed == [13] + d
            else printed == d
  {
    assert ([92, c] + rest)[2..] == rest;
  }

  /** A byte outside an escape: skipped while any are to be skipped; then a quote is cut while quotes are
      to be cut, with the byte behind it when more than one is; anything else is printed. */
  lemma DecodedPlain(b: byte, rest: seq<byte>, skipN: int, tailCut: int)
    requires b != '\\' as int
    ensures var printed := Decode([b] + rest, skipN, tailCut);
            && (skipN > 0 ==> printed == Decode(rest, skipN - 1, tailCut))
            && (skipN <= 0 && (b != '\"' as int || tailCut == 0) ==> printed == [b] + Decode(rest, skipN, tailCut))
            && (skipN <= 0 && b == '\"' as int && tailCut >= 2 ==>
                  printed == Decode(if rest == [] then [] else rest[1..], skipN, tailCut - 2))
            && (skipN <= 0 && b == '\"' as int && (tailCut == 1 || tailCut < 0) ==>
                  printed == Decode(rest, skipN, tailCut - 1))
  {
    var s := [b] + rest;
    assert s[1..] == rest;
    assert s[Min(2, |s|)..] == if rest == [] then [] else rest[1..];
  }

  /** After `u` the decoder takes up to four digits and prints the low byte of their number. */
  lemma DecodedCode(ds: seq<byte>, rest: seq<byte>, skipN: int, tailCut: int)
    requires 1 <= |ds| <= 4 && forall i :: 0 <= i < |ds| ==> IsHexDigit(ds[i])
    requires |ds| == 4 || rest == [] || !IsHexDigit(rest[0])
    ensures Decode(['\\' as int, 'u' as int] + ds + rest, skipN, tailCut)
            == [HexValue(ds) % 256] + Decode(rest, skipN, tailCut)
  {
    hide HexValue, Digits4;
    var s := [BACKSLASH, LETTER_U] + ds + rest;
    assert s[2..] == ds + rest && s[2 + |ds|..] == rest;
    DigitsTaken(ds, rest);
  }

  lemma DigitsTaken(ds: seq<byte>, rest: seq<byte>)
    requires 1 <= |ds| <= 4 && forall i :: 0 <= i < |ds| ==> IsHexDigit(ds[i])
    requires |ds| == 4 || rest == [] || !IsHexDigit(rest[0])
    ensures Digits4(ds + rest) == |ds| && (ds + rest)[..|ds|] == ds
  {
    if |ds| == 4 {
      FourDigits(ds, rest);
    } else if rest == [] {
      assert ds + rest == ds;
      AllDigits(ds);
    } else {
      HexRunUnique(ds + rest, |ds|);
    }
  }

  lemma {:induction false} AllDigits(ds: seq<byte>)
    requires forall i :: 0 <= i < |ds| ==> IsHexDigit(ds[i])
    ensures HexRun(ds) == |ds|
  {
    if ds != [] {
      AllDigits(ds[1..]);
    }
  }

  /** One turn of the decoder: what it prints, how far it reads, and its two counters. */
  datatype Turn = Turn(printed: seq<byte>, read: nat, skipN: int, tailCut: int)

  function TurnOf(s: seq<byte>, skipN: int, tailCut: int): (t: Turn)
    requires s != []
    ensures 1 <= t.read <= |s|
  {
    if s[0] == BACKSLASH then
      if |s| == 1 then Turn([], 1, skipN, tailCut)
      else if s[1] == LETTER_U then
        var n := Digits4(s[2..]);
        Turn(if n == 0 then [] else [HexValue(s[2..][..n]) % 256], 2 + n, skipN, tailCut)
      else Turn(Unletter(s[1]), 2, skipN, tailCut)
    else if skipN > 0 then Turn([], 1, skipN - 1, tailCut)
    else if tailCut != 0 && s[0] == QUOTE then
      if tailCut - 1 > 0 then Turn([], Min(2, |s|), skipN, tailCut - 2) else Turn([], 1, skipN, tailCut - 1)
    else Turn([s[0]], 1, skipN, tailCut)
  }

  lemma DecodeByTurns(s: seq<byte>, skipN: int, tailCut: int)
    requires s != []
    ensures var t := TurnOf(s, skipN, tailCut);
            Decode(s, skipN, tailCut) == t.printed + Decode(s[t.read..], t.skipN, t.tailCut)
  {
  }

  /** The body of the loop of jss_decode at `pos`. */
  method DecodeTurn(input: seq<byte>, pos0: nat, skipN0: int, tailCut0: int)
    returns (out: seq<byte>, pos: nat, skipN: int, tailCut: int)
    requires pos0 < |input|
    ensures var t := TurnOf(input[pos0..], skipN0, tailCut0);
            out == t.printed && pos == pos0 + t.read && skipN == t.skipN && tailCut == t.tailCut
  {
    ghost var s := input[pos0..];
    out, pos, skipN, tailCut := [], pos0 + 1, skipN0, tailCut0;
    var ch := input[pos0];
    if ch == BACKSLASH {
      if pos < |input| {
        var ch1 := input[pos];
        pos := pos + 1;
        assert ch1 == s[1] && input[pos..] == s[2..];
        if ch1 == LETTER_U {
          var n := Digits4(input[pos..]);
          if n > 0 {
            out := [HexValue(input[pos..][..n]) % 256];
          }
          pos := pos + n;
        } else {
          out := Unletter(ch1);
        }
      }
    } else if skipN > 0 {
      skipN := skipN - 1;
    } else if tailCut != 0 && ch == QUOTE {
      tailCut := tailCut - 1;
      if tailCut > 0 {
        pos := Min(pos + 1, |input|);
        tailCut := tailCut - 1;
      }
    } else {
      out := [ch];
    }
  }

  /** The loop of jss_decode, with its two countdown variables. */
  method DecodeFilter(input: seq<byte>, skipN0: int, tailCut0: int) returns (out: seq<byte>)
    ensures out == Decode(input, skipN0, tailCut0)
  {
    hide Decode, TurnOf;
    var skipN, tailCut, pos := skipN0, tailCut0, 0;
    out := [];
    assert input[0..] == input;
    while pos < |input|
      invariant 0 <= pos <= |input|
      invariant out + Decode(input[pos..], skipN, tailCut) == Decode(input, skipN0, tailCut0)
      decreases |input| - pos
    {
      ghost var s, was := input[pos..], out;
      DecodeByTurns(s, skipN, tailCut);
      ghost var t := TurnOf(s, skipN, tailCut);
      var printed;
      printed, pos, skipN, tailCut := DecodeTurn(input, pos, skipN, tailCut);
      assert s[t.read..] == input[pos..];
      out := out + printed;
      assert was + (printed + Decode(input[pos..], skipN, tailCut)) == out + Decode(input[pos..], skipN, tailCut);
    }
    NothingToDecode(skipN, tailCut);
    assert input[pos..] == [] && out + [] == out;
  }

  lemma NothingToDecode(skipN: int, tailCut: int)
    ensures Decode([], skipN, tailCut) == []
  {
  }
}
