// The log file as a value: newline-terminated records "%08lx,payload\n" laid end to end.
module LogFormat {
  import opened Bytes

  type Log = seq<seq<byte>>

  const MAX_RECORD: int := 512
  const DATA_SIZE: int := 1024

  /** Eight hexadecimal digits, a comma, and a payload that ends at the only newline. */
  predicate IsRecord(r: seq<byte>) {
    && 10 <= |r|
    && (forall i :: 0 <= i < 8 ==> IsHexDigit(r[i]))
    && r[8] == COMMA
    && r[|r| - 1] == NEWLINE
    && (forall i :: 0 <= i < |r| - 1 ==> r[i] != NEWLINE)
  }

  function TimeOf(r: seq<byte>): nat
    requires IsRecord(r)
  {
    HexValue(r[..8])
  }

  predicate AllRecords(log: Log) {
    forall k :: 0 <= k < |log| ==> IsRecord(log[k])
  }

  predicate Bounded(log: Log, m: int) {
    forall k :: 0 <= k < |log| ==> |log[k]| <= m
  }

  predicate WellFormed(log: Log) {
    log != [] && AllRecords(log) && Bounded(log, MAX_RECORD)
  }

  function Time(log: Log, k: nat): nat
    requires AllRecords(log) && k < |log|
  {
    TimeOf(log[k])
  }

  predicate NonDecreasing(log: Log)
    requires AllRecords(log)
  {
    forall i, j :: 0 <= i <= j < |log| ==> Time(log, i) <= Time(log, j)
  }

  predicate Increasing(log: Log)
    requires AllRecords(log)
  {
    forall i, j :: 0 <= i < j < |log| ==> Time(log, i) < Time(log, j)
  }

  /** The bytes of the file. */
  function Flatten(log: Log): seq<byte> {
    if log == [] then [] else Flatten(log[..|log| - 1]) + log[|log| - 1]
  }

  /** The offset of record `k`; `Start(log, |log|)` is the file size. */
  function Start(log: Log, k: nat): nat
    requires k <= |log|
  {
    if k == 0 then 0 else Start(log, k - 1) + |log[k - 1]|
  }

  lemma {:induction false} StartOfPrefix(log: Log, n: nat, k: nat)
    requires k <= n <= |log|
    ensures Start(log[..n], k) == Start(log, k)
  {
    if k > 0 {
      StartOfPrefix(log, n, k - 1);
    }
  }

  lemma {:induction false} FlattenSize(log: Log)
    ensures |Flatten(log)| == Start(log, |log|)
  {
    if log != [] {
      FlattenSize(log[..|log| - 1]);
      StartOfPrefix(log, |log| - 1, |log| - 1);
    }
  }

  lemma {:induction false} StartMonotone(log: Log, i: nat, j: nat)
    requires AllRecords(log) && i <= j <= |log|
    ensures Start(log, i) + 10 * (j - i) <= Start(log, j)
    decreases j
  {
    if i < j {
      StartMonotone(log, i, j - 1);
    }
  }

  lemma FlattenLast(log: Log)
    requires log != []
    ensures var front := log[..|log| - 1];
            && Flatten(log) == Flatten(front) + log[|log| - 1]
            && |Flatten(front)| == Start(log, |log| - 1)
            && Start(log, |log|) == Start(log, |log| - 1) + |log[|log| - 1]|
  {
    FlattenSize(log[..|log| - 1]);
    StartOfPrefix(log, |log| - 1, |log| - 1);
  }

  /** Record `k` is exactly the bytes between its own offset and the next one. */
  lemma {:induction false} RecordBytes(log: Log, k: nat)
    requires AllRecords(log) && k < |log|
    ensures 0 <= Start(log, k) <= Start(log, k + 1) <= |Flatten(log)|
    ensures Flatten(log)[Start(log, k)..Start(log, k + 1)] == log[k]
    decreases |log|
  {
    hide Flatten, Start, IsRecord;
    var front := log[..|log| - 1];
    FlattenLast(log);
    FlattenSize(log);
    StartMonotone(log, k, k + 1);
    if k < |log| - 1 {
      RecordBytes(front, k);
      StartOfPrefix(log, |log| - 1, k);
      StartOfPrefix(log, |log| - 1, k + 1);
    }
  }

  lemma RecordByte(log: Log, k: nat, j: nat)
    requires AllRecords(log) && k < |log| && j < |log[k]|
    ensures Start(log, k) + j < Start(log, k + 1) <= |Flatten(log)|
    ensures Flatten(log)[Start(log, k) + j] == log[k][j]
  {
    RecordBytes(log, k);
    assert Flatten(log)[Start(log, k)..Start(log, k + 1)][j] == log[k][j];
  }

  /** The record whose start is the first at or after offset `off`. */
  lemma {:induction false} NextRecord(log: Log, off: nat, last: nat) returns (k: nat)
    requires AllRecords(log) && last < |log| && 1 <= off <= Start(log, last)
    ensures 1 <= k <= last && Start(log, k - 1) < off <= Start(log, k)
  {
    if off <= Start(log, last - 1) {
      k := NextRecord(log, off, last - 1);
    } else {
      k := last;
    }
  }

  /** The linear scan that the offset search stands for: the first record at or after time `t`. */
  function FirstFrom(log: Log, t: nat, k: nat): (r: nat)
    requires AllRecords(log) && k <= |log|
    ensures k <= r <= |log|
    ensures r < |log| ==> Time(log, r) >= t
    ensures forall j :: k <= j < r ==> Time(log, j) < t
    decreases |log| - k
  {
    if k == |log| || Time(log, k) >= t then k else FirstFrom(log, t, k + 1)
  }

  function FirstAtLeast(log: Log, t: nat): nat
    requires AllRecords(log)
  {
    FirstFrom(log, t, 0)
  }

  /** Record `k` carries the least timestamp that is at least `t`. */
  predicate LeastAtLeast(log: Log, t: nat, k: nat)
    requires AllRecords(log)
  {
    && k < |log|
    && Time(log, k) >= t
    && forall j :: 0 <= j < |log| && Time(log, j) >= t ==> Time(log, k) <= Time(log, j)
  }

  /** With strictly increasing timestamps that record is the one the linear scan stops at. */
  lemma LeastIsFirst(log: Log, t: nat, k: nat)
    requires AllRecords(log) && Increasing(log) && LeastAtLeast(log, t, k)
    ensures k == FirstAtLeast(log, t)
  {
    var r := FirstAtLeast(log, t);
    assert r <= k;
    assert Time(log, r) >= t;
  }

  lemma FlattenNothing()
    ensures Flatten([]) == []
  {
  }

  lemma SlicesJoin(b: seq<byte>, x: nat, y: nat, z: nat)
    requires x <= y <= z <= |b|
    ensures b[x..z] == b[x..y] + b[y..z]
  {
  }

  lemma FlattenSnoc(log: Log, i: nat, j: nat)
    requires i < j <= |log|
    ensures Flatten(log[i..j]) == Flatten(log[i..j - 1]) + log[j - 1]
  {
    assert log[i..j][..j - i - 1] == log[i..j - 1];
  }

  lemma {:induction false} SplitAt(log: Log, i: nat, j: nat)
    requires AllRecords(log) && i <= j <= |log|
    ensures Start(log, i) <= Start(log, j) <= |Flatten(log)|
    ensures Flatten(log)[Start(log, i)..Start(log, j)] == Flatten(log[i..j])
    decreases j
  {
    hide Flatten, IsRecord, Start;
    FlattenSize(log);
    StartMonotone(log, i, j);
    StartMonotone(log, j, |log|);
    if i == j {
      assert log[i..j] == [];
      FlattenNothing();
    } else {
      SplitAt(log, i, j - 1);
      RecordBytes(log, j - 1);
      FlattenSnoc(log, i, j);
      SlicesJoin(Flatten(log), Start(log, i), Start(log, j - 1), Start(log, j));
    }
  }

  // ---------------------------------------------------------------- writing

  function HexWidth(v: nat): nat {
    if v == 0 then 0 else 1 + HexWidth(v / 16)
  }

  lemma {:induction false} HexWidthFits(v: nat, n: nat)
    ensures HexWidth(v) <= n <==> v < Pow16(n)
  {
    if v > 0 && n > 0 {
      HexWidthFits(v / 16, n - 1);
    }
  }

  /** printf("%08lx"): at least eight digits, more when the number needs them. */
  function Print08lx(v: nat): seq<byte> {
    HexDigits(v, if HexWidth(v) <= 8 then 8 else HexWidth(v), false)
  }

  /** What "%.*s" prints: the bytes before the first NUL. */
  function UpToNul(s: seq<byte>): seq<byte> {
    s[..IndexOf(s, NUL)]
  }

  /** sprintf(..., "%08lx,%.*s\n", ct, |enc|, enc). */
  function FormatRecord(ct: nat, enc: seq<byte>): seq<byte> {
    Print08lx(ct) + [COMMA] + UpToNul(enc) + [NEWLINE]
  }

  /** A formatted line is a record exactly when the time has 32 bits and the payload no newline. */
  lemma FormatIsRecord(ct: nat, enc: seq<byte>)
    ensures IsRecord(FormatRecord(ct, enc)) <==> ct < 0x1_0000_0000 && NEWLINE !in UpToNul(enc)
    ensures IsRecord(FormatRecord(ct, enc)) ==> TimeOf(FormatRecord(ct, enc)) == ct
    ensures ct < 0x1_0000_0000 ==> |FormatRecord(ct, enc)| == 10 + |UpToNul(enc)|
  {
    var r, ds, pay := FormatRecord(ct, enc), Print08lx(ct), UpToNul(enc);
    HexWidthFits(ct, 8);
    assert Pow16(8) == 0x1_0000_0000;
    if |ds| == 8 {
      HexRoundTrip(ct, 8, false);
      assert r[..8] == ds;
      assert forall i :: 0 <= i < |pay| ==> r[9 + i] == pay[i];
    } else {
      assert r[8] == ds[8];
    }
  }

  /** The text of a line, character by character: eight lower-case digits, a comma, the payload up to
      its NUL, a newline. */
  lemma LineText(ct: nat, enc: seq<byte>) returns (n: nat)
    requires ct < 0x1_0000_0000
    ensures n <= |enc| && 0 !in enc[..n] && (n < |enc| ==> enc[n] == 0)
    ensures var r := FormatRecord(ct, enc);
            && |r| == 10 + n
            && (forall k :: 0 <= k < 8 ==> r[k] == "0123456789abcdef"[ct / Pow16(7 - k) % 16] as int)
            && r[8] == ',' as int && r[9..9 + n] == enc[..n] && r[9 + n] == '\n' as int
  {
    hide HexDigits, HexDigit, HexWidth;
    n := IndexOf(enc, NUL);
    HexWidthFits(ct, 8);
    assert Pow16(8) == 0x1_0000_0000;
    var r, ds := FormatRecord(ct, enc), Print08lx(ct);
    forall k | 0 <= k < 8
      ensures r[k] == "0123456789abcdef"[ct / Pow16(7 - k) % 16] as int
    {
      HexPlace(ct, 8, false, k);
      HexLetter(ct / Pow16(7 - k) % 16);
      assert r[k] == ds[k];
    }
  }

  /** One call of the log writer. */
  datatype Entry = Entry(ct: nat, enc: seq<byte>)

  function FormatAll(entries: seq<Entry>): (log: Log)
    ensures |log| == |entries|
    ensures forall k :: 0 <= k < |log| ==> log[k] == FormatRecord(entries[k].ct, entries[k].enc)
  {
    seq(|entries|, k requires 0 <= k < |entries| => FormatRecord(entries[k].ct, entries[k].enc))
  }

  predicate Storable(e: Entry) {
    e.ct < 0x1_0000_0000 && NEWLINE !in UpToNul(e.enc) && |UpToNul(e.enc)| <= MAX_RECORD - 10
  }

  /** A run of writes leaves a well-formed, strictly increasing log exactly when every entry is
      storable and the times increase; then record `k` carries the time of write `k`. */
  lemma WrittenLog(entries: seq<Entry>)
    requires entries != []
    ensures WellFormed(FormatAll(entries)) <==> forall k :: 0 <= k < |entries| ==> Storable(entries[k])
    ensures WellFormed(FormatAll(entries)) ==>
              && (forall k :: 0 <= k < |entries| ==> Time(FormatAll(entries), k) == entries[k].ct)
              && (Increasing(FormatAll(entries)) <==>
                  forall i, j :: 0 <= i < j < |entries| ==> entries[i].ct < entries[j].ct)
  {
    var log := FormatAll(entries);
    forall k | 0 <= k < |entries|
      ensures IsRecord(log[k]) && |log[k]| <= MAX_RECORD <==> Storable(entries[k])
      ensures IsRecord(log[k]) ==> TimeOf(log[k]) == entries[k].ct
    {
      FormatIsRecord(entries[k].ct, entries[k].enc);
    }
    if WellFormed(log) {
      forall k | 0 <= k < |entries|
        ensures Time(log, k) == entries[k].ct
      {
      }
    }
  }

  lemma FlattenAppend(log: Log, r: seq<byte>)
    ensures Flatten(log + [r]) == Flatten(log) + r
  {
    assert (log + [r])[..|log|] == log;
  }
}
