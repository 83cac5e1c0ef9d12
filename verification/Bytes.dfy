// Bytes, hexadecimal digits and the small vocabulary shared by every module.
module Bytes {
  type byte = b: int | 0 <= b < 256

  datatype Option<+T> = None | Some(value: T)

  const NUL: byte := 0
  const NEWLINE: byte := 10
  const COMMA: byte := 44

  /** Integer limits of the platform: 64-bit `unsigned long` and `off_t`, 32-bit `int`. */
  const ULONG_MAX: int := 0xFFFF_FFFF_FFFF_FFFF

  function Min(a: int, b: int): int {
    if a < b then a else b
  }

  function Max(a: int, b: int): int {
    if a < b then b else a
  }

  function Pow2(n: nat): (p: nat)
    ensures p > 0
  {
    if n == 0 then 1 else 2 * Pow2(n - 1)
  }

  /** Bit `k` of a number. */
  function Bit(v: nat, k: nat): (b: nat)
    ensures b < 2
  {
    v / Pow2(k) % 2
  }

  function Pow16(n: nat): (p: nat)
    ensures p > 0
  {
    if n == 0 then 1 else 16 * Pow16(n - 1)
  }

  /** The number whose four bytes are given, most significant first. */
  function Word(a: int, b: int, c: int, d: int): int {
    a * 0x100_0000 + b * 0x1_0000 + c * 0x100 + d
  }

  lemma WordBytes(a: byte, b: byte, c: byte, d: byte)
    ensures var w := Word(a, b, c, d);
            && 0 <= w < 0x1_0000_0000
            && w % 0x100 == d && w / 0x100 % 0x100 == c
            && w / 0x1_0000 % 0x100 == b && w / 0x100_0000 == w / 0x100_0000 % 0x100 == a
  {
    var w := Word(a, b, c, d);
    assert w / 0x100 == a * 0x1_0000 + b * 0x100 + c;
    assert w / 0x1_0000 == a * 0x100 + b;
    assert w / 0x100_0000 == a;
  }

  lemma BytesWord(w: int)
    requires 0 <= w < 0x1_0000_0000
    ensures Word(w / 0x100_0000, w / 0x1_0000 % 0x100, w / 0x100 % 0x100, w % 0x100) == w
    ensures w / 0x100_0000 % 0x100 == w / 0x100_0000
  {
    var x := w / 0x100;
    var y := x / 0x100;
    assert w / 0x1_0000 == y && w / 0x100_0000 == y / 0x100;
  }

  lemma PartOfSlice(s: seq<byte>, x: nat, y: nat, z: nat)
    requires x <= y <= z <= |s|
    ensures s[x..y] == s[x..z][..y - x]
  {
  }

  /** Position of the first `b` in `s`, or `|s|`. */
  function IndexOf(s: seq<byte>, b: byte): (i: nat)
    ensures i <= |s|
    ensures i < |s| ==> s[i] == b
    ensures forall j :: 0 <= j < i ==> s[j] != b
  {
    if s == [] || s[0] == b then 0 else 1 + IndexOf(s[1..], b)
  }

  lemma IndexOfUnique(s: seq<byte>, b: byte, i: nat)
    requires i < |s| && s[i] == b
    requires forall j :: 0 <= j < i ==> s[j] != b
    ensures IndexOf(s, b) == i
  {
  }

  predicate IsHexDigit(b: byte) {
    48 <= b <= 57 || 97 <= b <= 102 || 65 <= b <= 70
  }

  /** The value of a hexadecimal digit of either case, -1 for any other byte. */
  function HexVal(b: byte): (v: int)
    ensures v == -1 <==> !IsHexDigit(b)
    ensures -1 <= v < 16
  {
    if 48 <= b <= 57 then b - 48
    else if 97 <= b <= 102 then b - 97 + 10
    else if 65 <= b <= 70 then b - 65 + 10
    else -1
  }

  function HexDigit(v: nat, upper: bool): (b: byte)
    requires v < 16
    ensures IsHexDigit(b) && HexVal(b) == v
  {
    if v < 10 then 48 + v else if upper then 65 + v - 10 else 97 + v - 10
  }

  function HexValue(ds: seq<byte>): (v: nat)
    requires forall i :: 0 <= i < |ds| ==> IsHexDigit(ds[i])
    ensures v < Pow16(|ds|)
  {
    if ds == [] then 0 else 16 * HexValue(ds[..|ds| - 1]) + HexVal(ds[|ds| - 1])
  }

  /** Number of hexadecimal digits at the start of `s`. */
  function HexRun(s: seq<byte>): (n: nat)
    ensures n <= |s|
    ensures forall i :: 0 <= i < n ==> IsHexDigit(s[i])
    ensures n < |s| ==> !IsHexDigit(s[n])
  {
    if s == [] || !IsHexDigit(s[0]) then 0 else 1 + HexRun(s[1..])
  }

  /** `sscanf(s, "%lx,", &v)`: the number read, or None when nothing matched and `v` is left alone. */
  function ScanHex(s: seq<byte>): Option<nat> {
    if HexRun(s) == 0 then None else Some(HexValue(s[..HexRun(s)]))
  }

  lemma HexRunUnique(s: seq<byte>, n: nat)
    requires n < |s| && !IsHexDigit(s[n])
    requires forall i :: 0 <= i < n ==> IsHexDigit(s[i])
    ensures HexRun(s) == n
  {
  }

  /** The `n` low hexadecimal digits of `v`, most significant first. */
  function HexDigits(v: nat, n: nat, upper: bool): (ds: seq<byte>)
    ensures |ds| == n
    ensures forall i :: 0 <= i < n ==> IsHexDigit(ds[i])
  {
    if n == 0 then [] else HexDigits(v / 16, n - 1, upper) + [HexDigit(v % 16, upper)]
  }

  lemma HexSnoc(ds: seq<byte>, d: byte)
    requires IsHexDigit(d) && forall i :: 0 <= i < |ds| ==> IsHexDigit(ds[i])
    ensures HexValue(ds + [d]) == 16 * HexValue(ds) + HexVal(d)
  {
    assert (ds + [d])[..|ds|] == ds;
  }

  /** The bytes of a text. */
  function Ascii(s: string): (t: seq<byte>)
    requires forall i :: 0 <= i < |s| ==> s[i] < 128 as char
    ensures |t| == |s| && forall i :: 0 <= i < |s| ==> t[i] == s[i] as int
  {
    seq(|s|, i requires 0 <= i < |s| => s[i] as int)
  }

  /** The digits by their letters, and nothing else is a digit. */
  lemma HexAlphabet(b: byte)
    ensures IsHexDigit(b) <==> b as char in "0123456789abcdefABCDEF"
  {
    var all := "0123456789abcdefABCDEF";
    if IsHexDigit(b) {
      var i := if b <= 57 then b - 48 else if b >= 97 then b - 87 else b - 49;
      assert all[i] == b as char;
    }
  }

  /** printf("%x") and printf("%X"). */
  lemma HexLetter(v: nat)
    requires v < 16
    ensures HexDigit(v, false) == "0123456789abcdef"[v] as int
    ensures HexDigit(v, true) == "0123456789ABCDEF"[v] as int
  {
  }

  /** Digit `k` from the left is the one for 16^(n - 1 - k). */
  lemma {:induction false} HexPlace(v: nat, n: nat, upper: bool, k: nat)
    requires k < n
    ensures HexDigits(v, n, upper)[k] == HexDigit(v / Pow16(n - 1 - k) % 16, upper)
  {
    if k < n - 1 {
      HexPlace(v / 16, n - 1, upper, k);
      DivideTwice(v, Pow16(n - 2 - k));
    } else {
      assert Pow16(0) == 1;
    }
  }

  lemma DivideTwice(v: nat, p: nat)
    requires p > 0
    ensures v / 16 / p == v / (16 * p) && v / 2 / p == v / (2 * p)
  {
    QuotientOf(v, 16, p);
    QuotientOf(v, 2, p);
  }

  lemma QuotientOf(v: nat, m: nat, p: nat)
    requires m > 0 && p > 0
    ensures v / m / p == v / (m * p)
  {
    var w := v / m;
    var q, s := w / p, w % p;
    Recombine(v, m, p, w, q, s);
    DivisionIs(v, q, m * p, m * s + v % m);
  }

  lemma Recombine(v: nat, m: nat, p: nat, w: nat, q: nat, s: nat)
    requires m > 0 && p > 0 && v == m * w + v % m && w == q * p + s && s < p
    ensures v == q * (m * p) + (m * s + v % m) && m * s + v % m < m * p
  {
    Distribute(m, q * p, s);
    Exchange(m, q, p);
    Distribute(m, p - 1 - s, s);
    Distribute(m, p - 1, 1);
    assert m * (p - 1 - s) >= 0;
  }

  lemma Distribute(m: nat, x: nat, y: nat)
    ensures m * (x + y) == m * x + m * y
  {
  }

  lemma Exchange(m: nat, q: nat, p: nat)
    ensures m * (q * p) == q * (m * p)
  {
  }

  lemma AtLeastOnce(a: int, e: int)
    requires e >= 0
    ensures a >= 1 ==> a * e >= e
    ensures a <= -1 ==> a * e <= -e
  {
  }

  lemma Times(k: int, q: int, e: int)
    requires e >= 0
    ensures k > q ==> (k - q) * e >= e
    ensures k < q ==> (k - q) * e <= -e
    ensures (k - q) * e == k * e - q * e
  {
    AtLeastOnce(k - q, e);
  }

  lemma DivisionIs(a: nat, q: int, e: nat, x: nat)
    requires x < e && a == q * e + x
    ensures a / e == q && a % e == x
  {
    var k, m := a / e, a % e;
    assert a == k * e + m;
    Times(k, q, e);
  }

  /** Printing a number that fits and reading it back gives the number. */
  lemma {:induction false} HexRoundTrip(v: nat, n: nat, upper: bool)
    requires v < Pow16(n)
    ensures HexValue(HexDigits(v, n, upper)) == v
  {
    hide HexValue, HexVal, HexDigit;
    if n > 0 {
      HexRoundTrip(v / 16, n - 1, upper);
      HexSnoc(HexDigits(v / 16, n - 1, upper), HexDigit(v % 16, upper));
    } else {
      EmptyHexValue();
    }
  }

  lemma EmptyHexValue()
    ensures HexValue([]) == 0
  {
  }
}
