// Messages written to a log, found again by time and decoded (logfile/lfs_read.c, etc/jss_encode.c,
// etc/jss_decode.c).
module LogRoundTrip {
  import opened Bytes
  import opened LogFormat
  import opened FileIO
  import opened LogRange
  import opened LogQuery
  import opened LfsContext
  import JsonText

  /** The data of the messages from time `st` on. */
  function DataFrom(msgs: seq<Message>, st: nat): seq<seq<byte>> {
    if msgs == [] then []
    else (if msgs[0].ct >= st then [msgs[0].data] else []) + DataFrom(msgs[1..], st)
  }

  function DataOf(msgs: seq<Message>): (data: seq<seq<byte>>)
    ensures |data| == |msgs| && forall k :: 0 <= k < |msgs| ==> data[k] == msgs[k].data
  {
    seq(|msgs|, k requires 0 <= k < |msgs| => msgs[k].data)
  }

  lemma DataOfFirst(msgs: seq<Message>)
    requires msgs != []
    ensures DataOf(msgs) == [msgs[0].data] + DataOf(msgs[1..])
  {
  }

  lemma {:induction false} DataOfSuffix(msgs: seq<Message>, st: nat, i: nat)
    requires i <= |msgs| && forall k :: 0 <= k < |msgs| ==> (msgs[k].ct >= st <==> k >= i)
    ensures DataFrom(msgs, st) == DataOf(msgs[i..])
    decreases |msgs|
  {
    hide DataOf;
    if msgs == [] {
      assert msgs[i..] == [];
      assert DataOf([]) == [];
    } else {
      var rest := msgs[1..];
      assert forall k :: 0 <= k < |rest| ==> rest[k] == msgs[k + 1];
      if i == 0 {
        DataOfSuffix(rest, st, 0);
        assert rest[0..] == rest && msgs[0..] == msgs;
        DataOfFirst(msgs);
      } else {
        DataOfSuffix(rest, st, i - 1);
        assert rest[i - 1..] == msgs[i..];
      }
    }
  }

  /** The payload of a line, decoded. */
  function LineData(line: seq<byte>): seq<byte> {
    if |line| < 10 then [] else JsonText.Decode(line[9..|line| - 1], 0, 0)
  }

  function Decoded(lines: seq<seq<byte>>): (data: seq<seq<byte>>)
    ensures |data| == |lines| && forall k :: 0 <= k < |lines| ==> data[k] == LineData(lines[k])
  {
    seq(|lines|, k requires 0 <= k < |lines| => LineData(lines[k]))
  }

  /** The message as JSON text is one record of the log. */
  predicate Loggable(m: Message) {
    |m.data| < MAX_LOGLINE_SIZE && m.ct < 0x1_0000_0000 && |JsonText.Encode(m.data)| <= MAX_RECORD - 10
  }

  function LogOf(msgs: seq<Message>): Log {
    FormatAll(Entries(msgs, JsonText.Encode))
  }

  lemma LoggableIsRecord(m: Message)
    requires Loggable(m)
    ensures |m.data| < MAX_LOGLINE_SIZE && Storable(Entry(m.ct, JsonText.Encode(m.data)))
    ensures var r := FormatRecord(m.ct, JsonText.Encode(m.data));
            IsRecord(r) && TimeOf(r) == m.ct && LineData(r) == m.data
  {
    hide JsonText.Decode, JsonText.Encode, Storable, FormatRecord;
    JsonText.EncodedIsStorable(m.ct, m.data);
    JsonText.RecordHoldsData(m.ct, m.data);
  }

  /** An open-ended query on the log of increasing messages selects the records of those from `st` on. */
  lemma SelectedLines(msgs: seq<Message>, st: nat, et: nat)
    requires msgs != [] && forall k :: 0 <= k < |msgs| ==> Loggable(msgs[k])
    requires forall i, j :: 0 <= i < j < |msgs| ==> msgs[i].ct < msgs[j].ct
    requires msgs[|msgs| - 1].ct < et
    ensures WellFormed(LogOf(msgs)) && Increasing(LogOf(msgs))
    ensures Time(LogOf(msgs), Last(LogOf(msgs))) == msgs[|msgs| - 1].ct
    ensures Decoded(InRange(LogOf(msgs), st, et, |msgs|)) == DataFrom(msgs, st)
  {
    hide JsonText.Encode, Storable, FormatRecord, IsRecord, TimeOf, LineData, InRange, FirstAtLeast, Loggable;
    hide Decoded, DataFrom, DataOf;
    var log, n := LogOf(msgs), |msgs|;
    forall k | 0 <= k < n
      ensures Storable(Entry(msgs[k].ct, JsonText.Encode(msgs[k].data)))
      ensures LineData(log[k]) == msgs[k].data
    {
      LoggableIsRecord(msgs[k]);
    }
    WrittenLog(Entries(msgs, JsonText.Encode));
    SelectedSuffix(log, msgs, st, et);
  }

  lemma SelectedSuffix(log: Log, msgs: seq<Message>, st: nat, et: nat)
    requires WellFormed(log) && Increasing(log) && |log| == |msgs|
    requires forall k :: 0 <= k < |msgs| ==> Time(log, k) == msgs[k].ct && LineData(log[k]) == msgs[k].data
    requires Time(log, Last(log)) < et
    ensures Decoded(InRange(log, st, et, |log|)) == DataFrom(msgs, st)
  {
    hide IsRecord, TimeOf, LineData, InRange, Decoded, DataFrom, DataOf;
    var n := |log|;
    var i := SplitIndex(log, st);
    assert forall k :: 0 <= k < n ==> Time(log, k) <= et;
    InRangeIsSlice(log, st, et, i, n, n);
    DataOfSuffix(msgs, st, i);
    SuffixData(log, msgs, i);
    assert i == n ==> log[i..] == [];
    assert log[i..n] == log[i..];
  }

  lemma SuffixData(lines: seq<seq<byte>>, msgs: seq<Message>, i: nat)
    requires |lines| == |msgs| && i <= |msgs| && forall k :: 0 <= k < |msgs| ==> LineData(lines[k]) == msgs[k].data
    ensures Decoded(lines[i..]) == DataOf(msgs[i..])
  {
    hide LineData;
  }

  lemma SplitIndex(log: Log, st: nat) returns (i: nat)
    requires WellFormed(log) && Increasing(log)
    ensures i <= |log| && forall k :: 0 <= k < |log| ==> (Time(log, k) >= st <==> k >= i)
  {
    FirstSplits(log, st);
    i := FirstAtLeast(log, st);
  }

  /** Writing, opening, asking and decoding: every message from `st` on comes back, in order and byte for
      byte, and nothing else does. */
  method WriteThenAsk(fd: File, msgs: seq<Message>, st: nat, et: nat) returns (data: seq<seq<byte>>)
    requires fd.bytes == [] && fd.wholeReads && msgs != []
    requires forall k :: 0 <= k < |msgs| ==> Loggable(msgs[k])
    requires forall i, j :: 0 <= i < j < |msgs| ==> msgs[i].ct < msgs[j].ct
    requires st <= ULONG_MAX && msgs[|msgs| - 1].ct < et < ULONG_MAX && FitsSentinel(LogOf(msgs))
    modifies fd
    ensures data == DataFrom(msgs, st)
  {
    hide JsonText.Encode, Storable, FormatRecord, LineData, InRange, DataFrom, Emitted, FitsSentinel;
    hide IsRecord, TimeOf, Decoded, Loggable;
    ghost var log := LogOf(msgs);
    forall k | 0 <= k < |msgs|
      ensures |msgs[k].data| < MAX_LOGLINE_SIZE && Storable(Entry(msgs[k].ct, JsonText.Encode(msgs[k].data)))
    {
      LoggableIsRecord(msgs[k]);
    }
    SelectedLines(msgs, st, et);
    var c := WriteThenOpen(fd, msgs, JsonText.Encode);
    var lines := ReadIn(c, st, et, 0, 0, log);
    OpenQuery(log, st, et);
    data := Decoded(lines);
  }
}
