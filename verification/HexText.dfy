// Hexadecimal text and the byte-array counter (eloop/common.c).
module HexText {
  import opened Bytes

  // ---------------------------------------------------------------- printing

  function Printed(data: seq<byte>, upper: bool): (s: seq<byte>)
    ensures |s| == 2 * |data|
    ensures forall i :: 0 <= i < |s| ==> IsHexDigit(s[i])
  {
    if data == [] then [] else Printed(data[..|data| - 1], upper) + HexDigits(data[|data| - 1], 2, upper)
  }

  /** os_snprintf(buf + pos, space, "%02x", v): at most space - 1 digits and a NUL; the result counts both
      digits whether or not they fit. */
  method PutByte(buf: array<byte>, pos: nat, space: nat, v: byte, upper: bool) returns (ret: nat)
    requires space >= 1 && pos + space <= buf.Length
    modifies buf
    ensures ret == 2
    ensures space > 2 ==> buf[pos..pos + 2] == HexDigits(v, 2, upper) && buf[pos + 2] == NUL
    ensures space == 2 ==> buf[pos] == HexDigits(v, 2, upper)[0] && buf[pos + 1] == NUL
    ensures space == 1 ==> buf[pos] == NUL
    ensures forall i :: 0 <= i < buf.Length && !(pos <= i < pos + Min(space, 3)) ==> buf[i] == old(buf[i])
  {
    var ds := HexDigits(v, 2, upper);
    ret := 2;
    if space > 1 {
      buf[pos] := ds[0];
    }
    if space > 2 {
      buf[pos + 1] := ds[1];
    }
    buf[pos + Min(space - 1, 2)] := NUL;
  }

  lemma PrintedNothing(upper: bool)
    ensures Printed([], upper) == []
  {
  }

  lemma PrintedOneMore(data: seq<byte>, i: nat, upper: bool)
    requires i < |data|
    ensures Printed(data[..i + 1], upper) == Printed(data[..i], upper) + HexDigits(data[i], 2, upper)
  {
    assert data[..i + 1][..i] == data[..i];
  }

  /** The letters of "%02x" and of "%02X". */
  function Alphabet(upper: bool): (a: string)
    ensures |a| == 16 && forall i :: 0 <= i < 16 ==> a[i] < 128 as char
  {
    if upper then "0123456789ABCDEF" else "0123456789abcdef"
  }

  lemma FirstDigit(v: byte, upper: bool)
    ensures HexVal(HexDigits(v, 2, upper)[0]) == v / 16
    ensures HexDigits(v, 2, upper)[0] == Alphabet(upper)[v / 16] as int
  {
    TwoDigits(v, upper);
    HexLetter(v / 16);
  }

  lemma TwoDigits(v: byte, upper: bool)
    ensures HexDigits(v, 2, upper) == [HexDigit(v / 16, upper), HexDigit(v % 16, upper)]
  {
    hide HexDigit;
    assert HexDigits(v / 16, 1, upper) == HexDigits(v / 16 / 16, 0, upper) + [HexDigit(v / 16 % 16, upper)];
  }

  /** The printed text by its letters: the high half of each byte first. */
  lemma {:induction false} PrintedLetters(data: seq<byte>, upper: bool, j: nat)
    requires j < |data|
    ensures var text := Printed(data, upper);
            && text[2 * j] == Alphabet(upper)[data[j] / 16] as int
            && text[2 * j + 1] == Alphabet(upper)[data[j] % 16] as int
  {
    hide HexDigit, HexDigits;
    var n := |data| - 1;
    if j < n {
      PrintedLetters(data[..n], upper, j);
    } else {
      TwoDigits(data[n], upper);
      HexLetter(data[n] / 16);
      HexLetter(data[n] % 16);
    }
  }

  predicate InLetters(text: seq<byte>, data: seq<byte>, upper: bool)
    requires |text| == 2 * |data|
  {
    forall j :: 0 <= j < |data| ==>
      && text[2 * j] == Alphabet(upper)[data[j] / 16] as int
      && text[2 * j + 1] == Alphabet(upper)[data[j] % 16] as int
  }

  /** How many bytes of data fit a buffer of `size` bytes with the closing NUL. */
  function Fitting(size: nat, len: nat): nat
    requires size >= 1
  {
    if len <= (size - 1) / 2 then len else (size - 1) / 2
  }

  /** _wpa_snprintf_hex. The text reported is the data that fits. It is closed by a NUL where it ends,
      except that nothing marks the end of no data in a longer buffer, and that in a buffer of even
      size one more digit of the byte that did not fit stands before the NUL. */
  method SnprintfHex(buf: array<byte>, size: nat, data: seq<byte>, upper: bool) returns (ret: nat)
    requires size <= buf.Length
    modifies buf
    ensures size == 0 ==> ret == 0 && buf[..] == old(buf[..])
    ensures size >= 1 ==>
              && ret == 2 * Fitting(size, |data|) < size
              && ret <= 2 * |data| && (ret < 2 * |data| ==> size - 2 <= ret)
              && buf[..ret] == Printed(data[..ret / 2], upper)
              && InLetters(buf[..ret], data[..ret / 2], upper)
              && buf[size - 1] == NUL
    ensures size >= 1 && data != [] && (size % 2 == 1 || ret == 2 * |data|) ==> buf[ret] == NUL
    ensures size >= 1 && size % 2 == 0 && ret < 2 * |data| ==>
              && ret + 1 == size - 1
              && buf[ret] == Alphabet(upper)[data[ret / 2] / 16] as int
    ensures size > 1 && data == [] ==> buf[ret] == old(buf[ret])
    ensures forall i :: size <= i < buf.Length ==> buf[i] == old(buf[i])
  {
    hide HexDigits, Printed, HexVal, Alphabet, InLetters;
    if size == 0 {
      return 0;
    }
    var pos := 0;
    PrintedNothing(upper);
    assert data[..0] == [];
    for i := 0 to |data|
      invariant pos == 2 * i < size
      invariant buf[..pos] == Printed(data[..i], upper)
      invariant i > 0 ==> buf[pos] == NUL
      invariant i == 0 ==> forall k :: 0 <= k < buf.Length ==> buf[k] == old(buf[k])
      invariant forall k :: size <= k < buf.Length ==> buf[k] == old(buf[k])
    {
      ghost var before := buf[..pos];
      var r := PutByte(buf, pos, size - pos, data[i], upper);
      assert buf[..pos] == before;
      if r >= size - pos {
        FirstDigit(data[i], upper);
        buf[size - 1] := NUL;
        assert buf[..pos] == before;
        assert pos / 2 == i == Fitting(size, |data|);
        LettersInPlace(buf[..pos], data[..i], upper);
        return pos;
      }
      PrintedOneMore(data, i, upper);
      assert buf[..pos + 2] == before + HexDigits(data[i], 2, upper);
      pos := pos + r;
    }
    assert data[..|data|] == data;
    ghost var text := buf[..pos];
    buf[size - 1] := NUL;
    assert buf[..pos] == text;
    LettersInPlace(text, data, upper);
    return pos;
  }

  lemma LettersInPlace(text: seq<byte>, data: seq<byte>, upper: bool)
    requires text == Printed(data, upper)
    ensures InLetters(text, data, upper)
  {
    forall j | 0 <= j < |data|
      ensures text[2 * j] == Alphabet(upper)[data[j] / 16] as int
      ensures text[2 * j + 1] == Alphabet(upper)[data[j] % 16] as int
    {
      PrintedLetters(data, upper, j);
    }
  }

  // ---------------------------------------------------------------- parsing

  /** The byte at `i` of a C string, NUL from its end on. */
  function At(hex: seq<byte>, i: nat): byte {
    if i < |hex| then hex[i] else NUL
  }

  /** hex2byte: two digits, or -1. */
  function Hex2Byte(a: byte, b: byte): int {
    if HexVal(a) < 0 || HexVal(b) < 0 then -1 else HexVal(a) * 16 + HexVal(b)
  }

  predicate AllDigits(hex: seq<byte>, n: nat) {
    forall i :: 0 <= i < n ==> IsHexDigit(At(hex, i))
  }

  /** hexstr2bin: succeeds exactly on enough digits; bytes before a bad digit are written either way. */
  method HexStr2Bin(hex: seq<byte>, buf: array<byte>, len: nat) returns (ok: bool, ghost done: nat)
    requires len <= buf.Length
    modifies buf
    ensures ok <==> AllDigits(hex, 2 * len)
    ensures done <= len && (ok ==> done == len) && AllDigits(hex, 2 * done)
    ensures forall i :: 0 <= i < done ==> buf[i] == HexVal(At(hex, 2 * i)) * 16 + HexVal(At(hex, 2 * i + 1))
    ensures forall i :: done <= i < buf.Length ==> buf[i] == old(buf[i])
  {
    ok, done := true, 0;
    for i := 0 to len
      invariant done == i
      invariant forall k :: 0 <= k < 2 * i ==> IsHexDigit(At(hex, k))
      invariant forall k :: 0 <= k < i ==> buf[k] == HexVal(At(hex, 2 * k)) * 16 + HexVal(At(hex, 2 * k + 1))
      invariant forall k :: i <= k < buf.Length ==> buf[k] == old(buf[k])
    {
      var a := Hex2Byte(At(hex, 2 * i), At(hex, 2 * i + 1));
      if a < 0 {
        ok := false;
        return;
      }
      buf[i] := a;
      done := i + 1;
    }
  }

  /** Printed text, of either case, parses to the data, byte by byte. */
  lemma {:induction false} ParsePrinted(data: seq<byte>, upper: bool, i: nat)
    requires i < |data|
    ensures var s := Printed(data, upper);
            && AllDigits(s, |s|)
            && Hex2Byte(At(s, 2 * i), At(s, 2 * i + 1)) == data[i]
            && HexVal(At(s, 2 * i)) * 16 + HexVal(At(s, 2 * i + 1)) == data[i]
  {
    var n := |data| - 1;
    if i < n {
      ParsePrinted(data[..n], upper, i);
    } else {
      TwoDigits(data[n], upper);
    }
  }

  /** Printing and parsing back: the reported digits give exactly the data that fitted the text buffer. */
  method PrintAndParse(text: array<byte>, size: nat, data: seq<byte>, upper: bool, buf: array<byte>)
    returns (ok: bool, ret: nat)
    requires size <= text.Length && |data| <= buf.Length && text != buf
    modifies text, buf
    ensures ret == if size == 0 then 0 else 2 * Fitting(size, |data|)
    ensures ok && ret / 2 <= |data| && buf[..ret / 2] == data[..ret / 2]
    ensures forall i :: ret / 2 <= i < buf.Length ==> buf[i] == old(buf[i])
  {
    hide Printed, HexVal, Alphabet, InLetters;
    ret := SnprintfHex(text, size, data, upper);
    ghost var done;
    ghost var fitted := data[..ret / 2];
    ok, done := HexStr2Bin(text[..ret], buf, ret / 2);
    PrintedNothing(upper);
    forall i | 0 <= i < ret / 2
      ensures AllDigits(text[..ret], ret)
      ensures HexVal(At(text[..ret], 2 * i)) * 16 + HexVal(At(text[..ret], 2 * i + 1)) == data[i]
    {
      ParsePrinted(fitted, upper, i);
    }
  }

  // ---------------------------------------------------------------- the counter

  function Pow256(n: nat): (p: nat)
    ensures p > 0
  {
    if n == 0 then 1 else 256 * Pow256(n - 1)
  }

  /** The number that a byte array stands for, most significant byte first. */
  function Number(s: seq<byte>): (v: nat)
    ensures v < Pow256(|s|)
  {
    if s == [] then 0 else 256 * Number(s[..|s| - 1]) + s[|s| - 1]
  }

  /** Adding one at the end, with carries. */
  function Incremented(s: seq<byte>): (t: seq<byte>)
    ensures |t| == |s|
  {
    if s == [] then []
    else if s[|s| - 1] == 255 then Incremented(s[..|s| - 1]) + [0]
    else s[..|s| - 1] + [s[|s| - 1] + 1]
  }

  lemma {:induction false} IncrementedIsNext(s: seq<byte>)
    ensures Number(Incremented(s)) == (Number(s) + 1) % Pow256(|s|)
  {
    IncrementedWraps(s);
    hide Number, Pow256, Incremented;
    WrapIsModulo(Number(s), Pow256(|s|));
  }

  lemma WrapIsModulo(v: nat, p: nat)
    requires v < p
    ensures (v + 1) % p == if v + 1 == p then 0 else v + 1
  {
  }

  lemma {:induction false} IncrementedWraps(s: seq<byte>)
    ensures Number(Incremented(s)) == if Number(s) + 1 == Pow256(|s|) then 0 else Number(s) + 1
  {
    if s != [] {
      var t := Incremented(s);
      IncrementedWraps(s[..|s| - 1]);
      assert t[..|s| - 1] == if s[|s| - 1] == 255 then Incremented(s[..|s| - 1]) else s[..|s| - 1];
    }
  }

  function Zeros(n: nat): (z: seq<byte>)
    ensures |z| == n && forall i :: 0 <= i < n ==> z[i] == 0
  {
    seq(n, _ => 0)
  }

  /** A tail of 255s passes the carry on. */
  lemma {:induction false} CarryInto(s: seq<byte>, k: nat)
    requires k <= |s| && forall i :: k <= i < |s| ==> s[i] == 255
    ensures Incremented(s) == Incremented(s[..k]) + Zeros(|s| - k)
  {
    if k == |s| {
      assert s[..k] == s;
    } else {
      var front := s[..|s| - 1];
      CarryInto(front, k);
      assert front[..k] == s[..k];
      assert Zeros(|s| - k) == Zeros(|front| - k) + [0];
    }
  }

  /** inc_byte_array: the number goes up by one and wraps to zero. */
  method IncByteArray(counter: array<byte>)
    modifies counter
    ensures counter[..] == Incremented(old(counter[..]))
    ensures Number(counter[..]) == (Number(old(counter[..])) + 1) % Pow256(counter.Length)
  {
    hide Incremented, Number, Pow256;
    ghost var was := counter[..];
    ghost var pos := CarryOn(counter, was);
    IncrementedByBytes(was, counter[..], pos);
    IncrementedIsNext(was);
  }

  /** The loop: 255s turn to zero up to the byte that takes the carry. */
  method CarryOn(counter: array<byte>, ghost was: seq<byte>) returns (ghost last: int)
    requires was == counter[..]
    modifies counter
    ensures -1 <= last < counter.Length
    ensures forall i :: 0 <= i < last ==> counter[i] == was[i]
    ensures last >= 0 ==> was[last] != 255 && counter[last] == was[last] + 1
    ensures forall i :: last < i < |was| ==> counter[i] == 0 && was[i] == 255
  {
    var pos := counter.Length - 1;
    while pos >= 0
      invariant -1 <= pos < counter.Length
      invariant forall i :: 0 <= i <= pos ==> counter[i] == was[i]
      invariant forall i :: pos < i < |was| ==> counter[i] == 0 && was[i] == 255
    {
      var v: int := counter[pos];
      counter[pos] := if v == 255 then 0 else v + 1;
      if counter[pos] != 0 {
        break;
      }
      pos := pos - 1;
    }
    last := pos;
  }

  /** The counter after the loop, byte by byte, is the incremented one. */
  lemma IncrementedByBytes(was: seq<byte>, now: seq<byte>, pos: int)
    requires |now| == |was| && -1 <= pos < |was|
    requires forall i :: 0 <= i < pos ==> now[i] == was[i]
    requires pos >= 0 ==> was[pos] != 255 && now[pos] == was[pos] + 1
    requires forall i :: pos < i < |was| ==> now[i] == 0 && was[i] == 255
    ensures now == Incremented(was)
  {
    var zeros, head := Zeros(|was| - pos - 1), was[..pos + 1];
    CarryInto(was, pos + 1);
    hide Incremented, Zeros;
    if pos >= 0 {
      LastByteUp(head);
      ThreeRuns(was, now, pos, zeros);
    } else {
      NothingToIncrement();
      assert now == [] + zeros && head == [];
    }
  }

  lemma ThreeRuns(was: seq<byte>, now: seq<byte>, pos: nat, zeros: seq<byte>)
    requires pos < |was| == |now| && |zeros| == |was| - pos - 1
    requires forall i :: 0 <= i < pos ==> now[i] == was[i]
    requires forall i :: pos < i < |was| ==> now[i] == 0
    requires forall i :: 0 <= i < |zeros| ==> zeros[i] == 0
    ensures was[..pos + 1][..pos] == was[..pos]
    ensures now == was[..pos] + [now[pos]] + zeros
  {
  }

  lemma LastByteUp(s: seq<byte>)
    requires s != [] && s[|s| - 1] != 255
    ensures Incremented(s) == s[..|s| - 1] + [s[|s| - 1] + 1]
  {
  }

  lemma NothingToIncrement()
    ensures Incremented([]) == []
  {
  }
}
