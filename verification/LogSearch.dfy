// The resynchronising binary search over raw byte offsets (logfile/lfs_read.c).
module LogSearch {
  import opened Bytes
  import opened LogFormat
  import opened FileIO

  // What the search answers when `t` is after the last record.
  const PAST_END: int := 0xFFFF_FFFE

  /** What one probe learns: no newline in the window (the function returns 0 and writes nothing),
      or the offset after the newline and the number scanned there, if any. */
  datatype Probe = NoNewline | At(off: int, time: Option<nat>)

  function Window(bytes: seq<byte>, from: nat): seq<byte> {
    if from >= |bytes| then [] else bytes[from..Min(from + DATA_SIZE, |bytes|)]
  }

  /** A probe for offset `off` that reads `data`. */
  function ProbeOn(data: seq<byte>, off: int): Probe {
    var i := IndexOf(data, NEWLINE);
    if i == |data| then NoNewline else At(off + i, ScanHex(data[i + 1..]))
  }

  /** A probe whose read starts at `from` and is whole. */
  function ProbeAt(bytes: seq<byte>, from: nat, off: int): Probe {
    ProbeOn(Window(bytes, from), off)
  }

  lemma ReadIsPrefix(bytes: seq<byte>, from: nat, len: nat)
    requires from + len <= |bytes| && 0 < len <= DATA_SIZE
    ensures len <= |Window(bytes, from)| && bytes[from..from + len] == Window(bytes, from)[..len]
  {
  }

  /** One read of a window into a zeroed buffer. */
  method ReadData(f: File) returns (buf: array<byte>, dataLen: int, ghost data: seq<byte>)
    modifies f`pos
    ensures fresh(buf) && dataLen <= DATA_SIZE < buf.Length
    ensures data == if dataLen > 0 then buf[..dataLen] else []
    ensures data <= Window(f.bytes, old(f.pos)) && (f.wholeReads ==> data == Window(f.bytes, old(f.pos)))
  {
    buf := new byte[DATA_SIZE + 1](_ => NUL);
    dataLen := f.Read(buf, 0, DATA_SIZE);
    data := if dataLen > 0 then buf[..dataLen] else [];
    ghost var w := Window(f.bytes, old(f.pos));
    if dataLen > 0 {
      ReadIsPrefix(f.bytes, old(f.pos), dataLen);
    }
    assert data == w[..|data|];
  }

  /** getNearSeq on whatever part of the window the read returns. */
  method GetNearSeq(f: File, off: int) returns (p: Probe, ghost data: seq<byte>)
    modifies f`pos
    ensures var from := if off >= 1 then off - 1 else old(f.pos);
            && data <= Window(f.bytes, from)
            && p == ProbeOn(data, off)
            && (f.wholeReads ==> p == ProbeAt(f.bytes, from, off))
  {
    hide ScanHex, Window;
    f.SeekSet(off - 1);
    var buf, dataLen;
    buf, dataLen, data := ReadData(f);
    var i := 0;
    while i < dataLen && buf[i] != NEWLINE
      invariant 0 <= i <= Max(dataLen, 0)
      invariant forall j :: 0 <= j < i ==> data[j] != NEWLINE
    {
      i := i + 1;
    }
    if i >= dataLen {
      return NoNewline, data;
    }
    IndexOfUnique(data, NEWLINE, i);
    assert buf[i + 1..dataLen] == data[i + 1..];
    p := At(off + i, ScanHex(buf[i + 1..dataLen]));
  }

  /** Wherever a probe lands in record `k - 1`, it resynchronises on record `k` and reads its time. */
  lemma ProbeFindsNext(log: Log, off: int, k: nat)
    requires AllRecords(log) && 1 <= k < |log| && |log[k - 1]| <= DATA_SIZE - 9
    requires Start(log, k - 1) < off <= Start(log, k)
    ensures ProbeAt(Flatten(log), off - 1, off) == At(Start(log, k), Some(Time(log, k)))
  {
    hide Flatten, ScanHex, TimeOf, HexVal;
    var bytes := Flatten(log);
    var data := Window(bytes, off - 1);
    var i := Start(log, k) - off;
    var r, q := log[k], log[k - 1];
    forall j | 0 <= j < 9
      ensures off + i + j < |bytes| && i + 1 + j < |data| && data[i + 1 + j] == r[j]
    {
      RecordByte(log, k, j);
    }
    forall j | 0 <= j <= i
      ensures data[j] == q[off - 1 + j - Start(log, k - 1)]
    {
      RecordByte(log, k - 1, off - 1 + j - Start(log, k - 1));
    }
    IndexOfUnique(data, NEWLINE, i);
    var rest := data[i + 1..];
    assert forall j :: 0 <= j < 9 ==> rest[j] == data[i + 1 + j];
    TimeIsScanned(rest, r);
  }

  lemma TimeIsScanned(rest: seq<byte>, r: seq<byte>)
    requires IsRecord(r) && |rest| >= 9 && forall j :: 0 <= j < 9 ==> rest[j] == r[j]
    ensures ScanHex(rest) == Some(TimeOf(r))
  {
    HexRunUnique(rest, 8);
    assert rest[..8] == r[..8];
  }

  lemma MidpointProgress(log: Log, a: nat, b: nat)
    requires WellFormed(log) && a < b < |log|
    requires Start(log, b) - Start(log, a) >= DATA_SIZE - 1
    ensures Start(log, a) < (Start(log, a) + Start(log, b)) / 2 <= Start(log, b - 1)
  {
    assert Start(log, b) == Start(log, b - 1) + |log[b - 1]|;
  }

  /** On any log a probe at `mid` resynchronises on record `b`, the upper end, exactly when the record
      before it starts below `mid`; a lower search would then repeat its own arguments. */
  lemma ProbeStalls(log: Log, b: nat, mid: int)
    requires AllRecords(log) && Bounded(log, DATA_SIZE - 9) && 1 <= b < |log|
    requires 1 <= mid <= Start(log, b)
    ensures ProbeAt(Flatten(log), mid - 1, mid) == At(Start(log, b), Some(Time(log, b)))
            <==> Start(log, b - 1) < mid
  {
    hide Flatten, ProbeAt, TimeOf;
    var k := NextRecord(log, mid, b);
    ProbeFindsNext(log, mid, k);
    if k < b {
      StartMonotone(log, k, b - 1);
      assert Start(log, b - 1) < Start(log, b);
    }
  }

  /** 512 is tight: with one record of 513 bytes a lower search can call itself with its own arguments. */
  lemma OneByteMoreStalls() returns (log: Log, t: nat)
    ensures |log| == 3 && AllRecords(log) && Increasing(log) && Bounded(log, MAX_RECORD + 1)
    ensures Time(log, 0) < t < Time(log, 2)
    ensures !Small(Time(log, 0), Time(log, 2), Start(log, 0), Start(log, 2))
    ensures var mid := (Start(log, 0) + Start(log, 2)) / 2;
            ProbeAt(Flatten(log), mid - 1, mid) == At(Start(log, 2), Some(Time(log, 2)))
  {
    hide Flatten, ProbeAt, HexValue, IsRecord;
    t := 8;
    var r0, r1, r2 := RecordOfSize(0, 510), RecordOfSize(16, 513), RecordOfSize(32, 10);
    log := [r0, r1, r2];
    assert log[0] == r0 && log[1] == r1 && log[2] == r2;
    StallsAfterLongRecord(log);
  }

  lemma StallsAfterLongRecord(log: Log)
    requires |log| == 3 && AllRecords(log) && |log[0]| == 510 && |log[1]| == 513 && |log[2]| == 10
    ensures Start(log, 0) == 0 && Start(log, 2) == 1023
    ensures ProbeAt(Flatten(log), 510, 511) == At(Start(log, 2), Some(Time(log, 2)))
  {
    ThreeStarts(log);
    ProbeStalls(log, 2, 511);
  }

  lemma ThreeStarts(log: Log)
    requires |log| == 3
    ensures Start(log, 0) == 0 && Start(log, 1) == |log[0]| && Start(log, 2) == |log[0]| + |log[1]|
  {
    assert Start(log, 1) == Start(log, 0) + |log[0]|;
    assert Start(log, 2) == Start(log, 1) + |log[1]|;
  }

  ghost function RecordOfSize(ct: nat, size: nat): (r: seq<byte>)
    requires ct < 0x1_0000_0000 && 10 <= size
    ensures IsRecord(r) && TimeOf(r) == ct && |r| == size
  {
    var enc := seq(size - 10, _ => COMMA);
    FormatIsRecord(ct, enc);
    assert UpToNul(enc) == enc;
    FormatRecord(ct, enc)
  }

  /** An interval of fewer than DATA_SIZE - 1 bytes, or of at most 3 time units, is scanned. */
  predicate Small(ft: int, lt: int, foff: int, loff: int) {
    loff - foff < DATA_SIZE - 1 || lt - ft <= 3
  }

  lemma SmallHasFewRecords(log: Log, a: nat, b: nat)
    requires WellFormed(log) && Increasing(log) && a <= b < |log|
    requires Small(Time(log, a), Time(log, b), Start(log, a), Start(log, b))
    ensures b - a <= 102
  {
    StartMonotone(log, a, b);
    if b - a > 3 {
      assert Time(log, a) < Time(log, a + 1) < Time(log, a + 2) < Time(log, a + 3) < Time(log, b);
    }
  }

  /** `(time, offset)` pairs as the search passes them down: both ends are record starts. */
  ghost predicate Bracket(f: File, log: Log, a: nat, b: nat, ft: int, lt: int, foff: int, loff: int)
    reads f
  {
    && f.bytes == Flatten(log)
    && WellFormed(log)
    && NonDecreasing(log)
    && a <= b < |log|
    && foff == Start(log, a) && loff == Start(log, b)
    && ft == Time(log, a) && lt == Time(log, b)
  }

  /** The work done by one search: `d` recursive calls and `c` probes on an interval of `size` bytes. */
  predicate Frugal(log: Log, size: int, d: int, c: int)
    requires AllRecords(log)
  {
    && 0 <= d <= c
    && (d > 0 ==> Pow2(d - 1) <= size - 2 * MAX_RECORD + 2)
    && (Increasing(log) ==> c <= d + 103)
  }

  /** The recursive search. `mt`, `depth` and `count` are the cells behind the out-pointers. */
  method SearchBetween(
    f: File, t: nat, ft: nat, lt: nat, foff: int, loff: int,
    mt0: nat, depth0: nat, count0: nat, ghost log: Log, ghost a: nat, ghost b: nat)
    returns (off: int, mt: nat, depth: nat, count: nat, ghost k: nat)
    requires f.wholeReads && Bracket(f, log, a, b, ft, lt, foff, loff)
    requires t != ft && t != lt
    modifies f`pos
    ensures t < ft ==> off == -1 && mt == mt0
    ensures t > lt ==> off == PAST_END == 0xFFFF_FFFE && mt == mt0
    ensures ft <= t <= lt ==>
              LeastAtLeast(log, t, k) && off == Start(log, k) && mt == Time(log, k)
    ensures Frugal(log, loff - foff, depth - depth0, count - count0)
    decreases loff - foff
  {
    hide Flatten, IsRecord, TimeOf;
    mt, depth, count, k := mt0, depth0, count0, 0;
    if t < ft {
      return -1, mt, depth, count, k;
    }
    if t > lt {
      return PAST_END, mt, depth, count, k;
    }
    if loff - foff < DATA_SIZE - 1 || lt - ft <= 3 {
      off, mt, count, k := ScanBetween(f, t, ft, lt, foff, loff, count0, log, a, b);
      return;
    }
    // None of the three early exits of the original can be taken here, nor its small-time probe.
    assert foff != loff && ft < t < lt && lt - ft > 2;
    count := count + 1;
    ghost var m;
    var p;
    p, m := ProbeMiddle(f, ft, lt, foff, loff, log, a, b);
    var moff := p.off;
    mt := p.time.value;
    if mt == t {
      return moff, t, depth, count, m;
    } else if t < mt {
      off, mt, depth, count, k := SearchBetween(f, t, ft, mt, foff, moff, mt0, depth + 1, count, log, a, m);
      FrugalStep(log, loff - foff, moff - foff, depth - depth0 - 1, count - count0 - 1);
    } else {
      off, mt, depth, count, k := SearchBetween(f, t, mt, lt, moff, loff, mt0, depth + 1, count, log, m, b);
      FrugalStep(log, loff - foff, loff - moff, depth - depth0 - 1, count - count0 - 1);
    }
  }

  /** One recursive call and its probe, on top of a search that is frugal on the half interval. */
  lemma FrugalStep(log: Log, size: int, half: int, d: int, c: int)
    requires AllRecords(log) && Frugal(log, half, d, c)
    requires 2 * (half - 2 * MAX_RECORD + 2) <= size - 2 * MAX_RECORD + 2
    requires size >= DATA_SIZE - 1
    ensures Frugal(log, size, d + 1, c + 1)
  {
    if d > 0 {
      assert Pow2(d) == 2 * Pow2(d - 1);
    }
  }

  /** The first record start at or after the midpoint lies strictly inside the interval, near its middle. */
  lemma LandsInside(log: Log, a: nat, b: nat, mid: int) returns (m: nat)
    requires WellFormed(log) && a < b < |log|
    requires Start(log, b) - Start(log, a) >= DATA_SIZE - 1
    requires mid == (Start(log, a) + Start(log, b)) / 2
    ensures a < m < b && Start(log, m - 1) < mid <= Start(log, m) < mid + MAX_RECORD
    ensures Start(log, a) < Start(log, m) < Start(log, b)
  {
    MidpointProgress(log, a, b);
    m := NextRecord(log, mid, b - 1);
    assert Start(log, m) == Start(log, m - 1) + |log[m - 1]|;
    StartMonotone(log, m, b);
    if m <= a {
      StartMonotone(log, m, a);
    } else {
      StartMonotone(log, a, m);
    }
  }

  /** The probe of a large interval. */
  method ProbeMiddle(f: File, ft: nat, lt: nat, foff: int, loff: int, ghost log: Log, ghost a: nat, ghost b: nat)
    returns (p: Probe, ghost m: nat)
    requires f.wholeReads && Bracket(f, log, a, b, ft, lt, foff, loff)
    requires loff - foff >= DATA_SIZE - 1
    modifies f`pos
    ensures a < m < b && p == At(Start(log, m), Some(Time(log, m)))
    ensures foff < p.off < loff
    ensures 2 * (p.off - foff - 2 * MAX_RECORD + 2) <= loff - foff - 2 * MAX_RECORD + 2
    ensures 2 * (loff - p.off - 2 * MAX_RECORD + 2) <= loff - foff - 2 * MAX_RECORD + 2
  {
    ghost var data;
    p, data := GetNearSeq(f, (foff + loff) / 2);
    m := LandsInside(log, a, b, (foff + loff) / 2);
    ProbeFindsNext(log, (foff + loff) / 2, m);
  }

  /** The probe of the linear fallback: the record after record `k`. */
  method ProbeAfter(f: File, foff: int, ghost log: Log, ghost k: nat) returns (nt: nat, noff: int)
    requires f.wholeReads && f.bytes == Flatten(log) && WellFormed(log)
    requires k + 1 < |log| && foff == Start(log, k)
    modifies f`pos
    ensures noff == Start(log, k + 1) && nt == Time(log, k + 1)
  {
    hide Flatten, ProbeAt, IsRecord;
    StartMonotone(log, k, k + 1);
    ProbeFindsNext(log, foff + 1, k + 1);
    var p;
    ghost var data;
    p, data := GetNearSeq(f, foff + 1);
    nt, noff := p.time.value, p.off;
  }

  lemma NextIsLeast(log: Log, t: nat, k: nat)
    requires AllRecords(log) && NonDecreasing(log) && k + 1 < |log|
    requires Time(log, k) < t <= Time(log, k + 1)
    ensures LeastAtLeast(log, t, k + 1)
  {
    forall j | 0 <= j < |log| && Time(log, j) >= t
      ensures Time(log, k + 1) <= Time(log, j)
    {
      assert j > k;
    }
  }

  /** The linear fallback of the search. */
  method ScanBetween(
    f: File, t: nat, ft: nat, lt: nat, foff: int, loff: int, count0: nat,
    ghost log: Log, ghost a: nat, ghost b: nat)
    returns (off: int, mt: nat, count: nat, ghost k: nat)
    requires f.wholeReads && Bracket(f, log, a, b, ft, lt, foff, loff)
    requires ft < t < lt && Small(ft, lt, foff, loff)
    modifies f`pos
    ensures LeastAtLeast(log, t, k) && off == Start(log, k) && mt == Time(log, k)
    ensures count0 < count
    ensures Increasing(log) ==> count <= count0 + 103
  {
    var o := foff;
    count := count0;
    k := a;
    while true
      invariant a <= k < b && o == Start(log, k) && Time(log, k) < t
      invariant count == count0 + (k - a)
      decreases b - k
    {
      count := count + 1;
      mt, off := ProbeAfter(f, o, log, k);
      if mt == lt || mt >= t {
        NextIsLeast(log, t, k);
        k := k + 1;
        break;
      }
      o, k := off, k + 1;
    }
    if Increasing(log) {
      SmallHasFewRecords(log, a, b);
    }
  }

  /** The entry point: also answers at the two ends. */
  method GetSeqPosition(
    f: File, t: nat, ft: nat, lt: nat, foff: int, loff: int,
    mt0: nat, depth0: nat, count0: nat, ghost log: Log, ghost a: nat, ghost b: nat)
    returns (off: int, mt: nat, depth: nat, count: nat, ghost k: nat)
    requires f.wholeReads && Bracket(f, log, a, b, ft, lt, foff, loff)
    modifies f`pos
    ensures t < ft ==> off == -1 && mt == mt0
    ensures t > lt ==> off == PAST_END == 0xFFFF_FFFE && mt == mt0
    ensures ft <= t <= lt ==>
              LeastAtLeast(log, t, k) && off == Start(log, k) && mt == Time(log, k)
    ensures ft <= t <= lt && Increasing(log) ==> k == FirstAtLeast(log, t)
    ensures Frugal(log, loff - foff, depth - depth0, count - count0)
  {
    mt, depth, count, k := mt0, depth0, count0, 0;
    if t < ft {
      return -1, mt, depth, count, k;
    }
    if t > lt {
      return PAST_END, mt, depth, count, k;
    }
    if t == ft {
      off, mt, k := foff, ft, a;
    } else if t == lt {
      off, mt, k := loff, lt, b;
    } else {
      off, mt, depth, count, k := SearchBetween(f, t, ft, lt, foff, loff, mt0, depth0, count0, log, a, b);
    }
    if Increasing(log) {
      LeastIsFirst(log, t, k);
    }
  }
}
