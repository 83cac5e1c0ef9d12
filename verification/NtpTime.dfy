// Times and their 64-bit NTP form (eloop/common.c, eloop/common.h, eloop/os.h; section 6 of RFC 5905).
module NtpTime {
  import opened Bytes

  const U32: int := 0x1_0000_0000
  const MILLION: int := 1000000
  // Seconds from 1900 to 1970.
  const EPOCH: int := 2208988800

  datatype Time = Time(sec: int, usec: int)

  predicate Normal(t: Time) {
    0 <= t.usec < MILLION
  }

  predicate Before(a: Time, b: Time) {
    a.sec < b.sec || (a.sec == b.sec && a.usec < b.usec)
  }

  /** os_time_sub: a difference with the microseconds brought back into range. */
  function Sub(a: Time, b: Time): Time {
    var u := a.usec - b.usec;
    if u < 0 then Time(a.sec - b.sec - 1, u + MILLION) else Time(a.sec - b.sec, u)
  }

  /** Differences of normal times are normal, exact, and negative exactly when the first is earlier. */
  lemma SubIsExact(a: Time, b: Time)
    requires Normal(a) && Normal(b)
    ensures var d := Sub(a, b);
            && Normal(d)
            && (b.sec + d.sec) * MILLION + b.usec + d.usec == a.sec * MILLION + a.usec
            && (d.sec < 0 <==> Before(a, b))
  {
  }

  /** wpa_swap_32. */
  function Swap32(v: int): int {
    Word(v % 0x100, v / 0x100 % 0x100, v / 0x1_0000 % 0x100, v / 0x100_0000)
  }

  /** The four bytes of a 32-bit number in the memory of a little-endian host. */
  function InMemory(v: int): (s: seq<byte>)
    ensures |s| == 4
  {
    [v % 0x100, v / 0x100 % 0x100, v / 0x1_0000 % 0x100, v / 0x100_0000 % 0x100]
  }

  function BigEndian(v: int): (s: seq<byte>)
    ensures |s| == 4
  {
    [v / 0x100_0000 % 0x100, v / 0x1_0000 % 0x100, v / 0x100 % 0x100, v % 0x100]
  }

  /** Swapping before the copy puts the most significant byte first. */
  lemma SwappedIsBigEndian(v: int)
    requires 0 <= v < U32
    ensures InMemory(Swap32(v)) == BigEndian(v)
  {
    hide Word;
    BytesWord(v);
    WordBytes(v % 0x100, v / 0x100 % 0x100, v / 0x1_0000 % 0x100, v / 0x100_0000);
  }

  function Seconds(t: Time): (s: int)
    ensures 0 <= s < U32
  {
    (t.sec + EPOCH) % U32
  }

  /** 4295 * usec - (usec >> 5) - (usec >> 9), each step in 32-bit unsigned arithmetic. */
  function Fraction(usec: nat): (f: int)
    ensures 0 <= f < U32
  {
    ((4295 * usec % U32 - usec / 32) % U32 - usec / 512) % U32
  }

  /** The fraction is the exact integer value although the product passes 2^32 near one million. */
  lemma FractionIsExact(usec: nat)
    requires usec < MILLION
    ensures Fraction(usec) == 4295 * usec - usec / 32 - usec / 512 < U32
  {
    var p, q, r := 4295 * usec, usec / 32, usec / 512;
    assert 0 <= p - q - r < U32;
    if p < U32 {
      assert p % U32 == p;
    } else {
      assert p % U32 == p - U32;
    }
  }

  lemma FractionIncreases(u: nat, v: nat)
    requires u < v < MILLION
    ensures Fraction(u) < Fraction(v)
  {
    FractionIsExact(u);
    FractionIsExact(v);
    assert v / 32 - u / 32 <= v - u && v / 512 - u / 512 <= v - u;
  }

  /** The fraction of a second is right to within 500 units of 2^-32 second, and at most 2 too large. */
  lemma FractionError(usec: nat)
    requires usec < MILLION
    ensures -2 * MILLION < usec * U32 - Fraction(usec) * MILLION < 500 * MILLION
  {
    FractionIsExact(usec);
    var q, r := usec / 32, usec / 512;
    assert usec - 32 < 32 * q <= usec && usec - 512 < 512 * r <= usec;
    assert usec * U32 - (4295 * usec - q - r) * MILLION == (q + r) * MILLION - 32704 * usec;
  }

  /** wpa_get_ntp_timestamp at time `t`. */
  function Timestamp(t: Time): (s: seq<byte>)
    requires Normal(t)
    ensures |s| == 8
  {
    InMemory(Swap32(Seconds(t))) + InMemory(Swap32(Fraction(t.usec)))
  }

  method GetNtpTimestamp(now: Time, buf: array<byte>)
    requires Normal(now) && buf.Length >= 8
    modifies buf
    ensures buf[..8] == Timestamp(now)
    ensures buf[..8] == BigEndian(Seconds(now)) + BigEndian(Fraction(now.usec))
    ensures BytesAt(buf[..8], 0) == From1900(now) && BytesAt(buf[..8], 4) == Fraction(now.usec)
    ensures forall i :: 8 <= i < buf.Length ==> buf[i] == old(buf[i])
  {
    hide Swap32, InMemory, BigEndian;
    var sec := Swap32((now.sec + EPOCH) % U32);
    var usec := now.usec;
    usec := Swap32(((4295 * usec % U32 - usec / 32) % U32 - usec / 512) % U32);
    var s, u := InMemory(sec), InMemory(usec);
    forall i | 0 <= i < 8 {
      buf[i] := if i < 4 then s[i] else u[i - 4];
    }
    assert sec == Swap32(Seconds(now)) && usec == Swap32(Fraction(now.usec));
    SwappedIsBigEndian(Seconds(now));
    SwappedIsBigEndian(Fraction(now.usec));
    assert buf[..8] == s + u;
    TwoWords(now);
  }

  /** The first four bytes count the seconds since 1900, 70 years of which 17 are leap years before 1970;
      the last four are the fraction. */
  lemma TwoWords(t: Time)
    requires Normal(t)
    ensures |Timestamp(t)| == 8
    ensures BytesAt(Timestamp(t), 0) == From1900(t) && BytesAt(Timestamp(t), 4) == Fraction(t.usec)
  {
    hide BigEndian, Fraction, Seconds, Swap32, InMemory, From1900;
    var s, u := BigEndian(Seconds(t)), BigEndian(Fraction(t.usec));
    SwappedIsBigEndian(Seconds(t));
    SwappedIsBigEndian(Fraction(t.usec));
    assert Timestamp(t) == s + u;
    BytesOf(Seconds(t));
    BytesOf(Fraction(t.usec));
    SecondsFrom1900(t);
  }

  /** The number whose four bytes stand at `i`, in network order. */
  function BytesAt(b: seq<byte>, i: nat): int
    requires i + 4 <= |b|
  {
    b[i] as int * 0x100_0000 + b[i + 1] as int * 0x1_0000 + b[i + 2] as int * 0x100 + b[i + 3] as int
  }

  function From1900(t: Time): int {
    (t.sec + (70 * 365 + 17) * 24 * 3600) % 0x1_0000_0000
  }

  lemma SecondsFrom1900(t: Time)
    ensures Seconds(t) == From1900(t)
  {
  }

  /** memcmp order. */
  predicate LexLess(a: seq<byte>, b: seq<byte>)
    requires |a| == |b|
  {
    a != [] && (a[0] < b[0] || (a[0] == b[0] && LexLess(a[1..], b[1..])))
  }

  lemma {:induction false} LexConcat(a: seq<byte>, b: seq<byte>, c: seq<byte>, d: seq<byte>)
    requires |a| == |b| && |c| == |d|
    ensures LexLess(a + c, b + d) <==> LexLess(a, b) || (a == b && LexLess(c, d))
  {
    if a == [] {
      assert a + c == c && b + d == d;
    } else {
      LexConcat(a[1..], b[1..], c, d);
      assert (a + c)[1..] == a[1..] + c && (b + d)[1..] == b[1..] + d;
      assert a == [a[0]] + a[1..] && b == [b[0]] + b[1..];
    }
  }

  lemma BigEndianOrder(v: int, w: int)
    requires 0 <= v < U32 && 0 <= w < U32
    ensures LexLess(BigEndian(v), BigEndian(w)) <==> v < w
    ensures BigEndian(v) == BigEndian(w) <==> v == w
  {
    hide BigEndian, Word, LexLess;
    var x, y := BigEndian(v), BigEndian(w);
    BytesOf(v);
    BytesOf(w);
    LexFour(x, y);
  }

  lemma BytesOf(v: int)
    requires 0 <= v < U32
    ensures var x := BigEndian(v);
            |x| == 4 && v == Word(x[0], x[1], x[2], x[3])
  {
    hide Word;
    BytesWord(v);
  }

  lemma LexFour(x: seq<byte>, y: seq<byte>)
    requires |x| == |y| == 4
    ensures LexLess(x, y) <==> Word(x[0], x[1], x[2], x[3]) < Word(y[0], y[1], y[2], y[3])
  {
    assert LexLess(x[3..], y[3..]) <==> x[3] < y[3];
    assert x[2..][1..] == x[3..] && y[2..][1..] == y[3..];
    assert LexLess(x[2..], y[2..]) <==> x[2] < y[2] || (x[2] == y[2] && x[3] < y[3]);
    assert x[1..][1..] == x[2..] && y[1..][1..] == y[2..];
    assert LexLess(x[1..], y[1..]) <==> x[1] < y[1] || (x[1] == y[1] && LexLess(x[2..], y[2..]));
  }

  /** Byte order of timestamps is the order of the times reduced to one era. */
  lemma TimestampOrder(a: Time, b: Time)
    requires Normal(a) && Normal(b)
    ensures LexLess(Timestamp(a), Timestamp(b))
            <==> Before(Time(Seconds(a), a.usec), Time(Seconds(b), b.usec))
  {
    hide Swap32, InMemory, BigEndian, Seconds, Fraction, LexLess;
    SwappedIsBigEndian(Seconds(a));
    SwappedIsBigEndian(Seconds(b));
    SwappedIsBigEndian(Fraction(a.usec));
    SwappedIsBigEndian(Fraction(b.usec));
    LexConcat(BigEndian(Seconds(a)), BigEndian(Seconds(b)), BigEndian(Fraction(a.usec)), BigEndian(Fraction(b.usec)));
    BigEndianOrder(Seconds(a), Seconds(b));
    BigEndianOrder(Fraction(a.usec), Fraction(b.usec));
    if a.usec < b.usec {
      FractionIncreases(a.usec, b.usec);
    } else if b.usec < a.usec {
      FractionIncreases(b.usec, a.usec);
    }
  }

  function Era(t: Time): int {
    (t.sec + EPOCH) / U32
  }

  /** Within one era, byte order is exactly os_time_before; across eras the earlier era sorts first
      exactly when its place within its era does. */
  lemma OrderWithinEra(a: Time, b: Time)
    requires Normal(a) && Normal(b)
    ensures Era(a) == Era(b) ==> (LexLess(Timestamp(a), Timestamp(b)) <==> Before(a, b))
    ensures Era(a) < Era(b) ==>
              Before(a, b) && (LexLess(Timestamp(a), Timestamp(b))
                               <==> Before(Time(Seconds(a), a.usec), Time(Seconds(b), b.usec)))
  {
    hide LexLess, Timestamp, Seconds, Era;
    TimestampOrder(a, b);
    EraAndSeconds(a);
    EraAndSeconds(b);
  }

  lemma EraAndSeconds(t: Time)
    ensures t.sec == Era(t) * U32 + Seconds(t) - EPOCH
  {
  }
}
