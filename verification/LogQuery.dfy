// Appending to a log and asking it for a time range (logfile/lfs_read.c, lfs_write_out and lfs_read_in).
module LogQuery {
  import opened Bytes
  import opened LogFormat
  import opened FileIO
  import opened LogRange
  import opened LineSplit
  import LogSearch
  import opened LfsContext

  /** lfs_write_out, for any encoding of the message; one of MAX_LOGLINE_SIZE bytes or more is refused.
      On a file that holds a log the write appends exactly one formatted line. */
  method WriteOut(fd: File, ct: nat, data: seq<byte>, encode: seq<byte> -> seq<byte>, ghost log: Log) returns (ret: nat)
    requires fd.bytes == Flatten(log)
    modifies fd
    ensures |data| >= 32768 ==> ret == 0 && fd.bytes == old(fd.bytes)
    ensures |data| < 32768 ==>
              && ret == |FormatRecord(ct, encode(data))|
              && fd.bytes == Flatten(log + [FormatRecord(ct, encode(data))])
  {
    if |data| >= MAX_LOGLINE_SIZE {
      return 0;
    }
    FlattenAppend(log, FormatRecord(ct, encode(data)));
    ret := fd.Append(FormatRecord(ct, encode(data)));
  }

  datatype Message = Message(ct: nat, data: seq<byte>)

  /** The entries that a run of accepted writes makes. */
  function Entries(msgs: seq<Message>, encode: seq<byte> -> seq<byte>): (es: seq<Entry>)
    ensures |es| == |msgs|
    ensures forall k :: 0 <= k < |es| ==> es[k] == Entry(msgs[k].ct, encode(msgs[k].data))
  {
    seq(|msgs|, k requires 0 <= k < |msgs| => Entry(msgs[k].ct, encode(msgs[k].data)))
  }

  /** Writing messages to an empty file and opening it: the context describes exactly the log of the
      messages, and queries apply to it when their times increase. */
  method WriteThenOpen(fd: File, msgs: seq<Message>, encode: seq<byte> -> seq<byte>) returns (c: Lfs)
    requires fd.bytes == [] && fd.wholeReads && msgs != []
    requires forall k :: 0 <= k < |msgs| ==>
               |msgs[k].data| < MAX_LOGLINE_SIZE && Storable(Entry(msgs[k].ct, encode(msgs[k].data)))
    modifies fd
    ensures c.fd == fd && fresh(c) && fresh(c.buf) && c.Indexes(FormatAll(Entries(msgs, encode)))
    ensures c.ft == msgs[0].ct && c.lt == msgs[|msgs| - 1].ct
    ensures Increasing(FormatAll(Entries(msgs, encode)))
            <==> forall i, j :: 0 <= i < j < |msgs| ==> msgs[i].ct < msgs[j].ct
  {
    hide Flatten, FormatRecord, IsRecord, Storable, TimeOf, Start;
    ghost var log := FormatAll(Entries(msgs, encode));
    FlattenNothing();
    for i := 0 to |msgs|
      invariant fd.bytes == Flatten(log[..i])
    {
      var ret := WriteOut(fd, msgs[i].ct, msgs[i].data, encode, log[..i]);
      assert log[..i + 1] == log[..i] + [log[i]];
    }
    assert log[..|msgs|] == log;
    WrittenLog(Entries(msgs, encode));
    c := new Lfs.Init(fd, log);
  }

  /** The time range that a query asks of the log: the last record, the first record, or a range
      shifted by the time zone in 64-bit arithmetic. */
  function QueryStart(st: nat, ft: nat, lt: nat, tOffset: int, opt: int): (r: nat)
    ensures st <= ULONG_MAX && ft <= ULONG_MAX && lt <= ULONG_MAX ==> r <= ULONG_MAX
  {
    if opt == 2 then lt else if opt == 1 then ft else (st - tOffset) % (ULONG_MAX + 1)
  }

  function QueryEnd(et: nat, ft: nat, lt: nat, tOffset: int, opt: int): (r: nat)
    ensures ft < ULONG_MAX && lt < ULONG_MAX ==> r <= ULONG_MAX
  {
    if opt == 2 then lt + 1 else if opt == 1 then ft + 1 else (et - tOffset) % (ULONG_MAX + 1)
  }

  /** The lines a query hands to the filter when every read is whole. */
  function Emitted(log: Log, st: nat, et: nat): seq<seq<byte>>
    requires WellFormed(log)
  {
    var b, so, eo := Flatten(log), StartOffset(log, st), EndOffset(log, et);
    if so < 0 || so > |b| then [] else Lines(b[so..FinalPos(b, so, so, so, eo)])
  }

  /** The records among the first `n` whose time, shifted into the time zone of the query, is in [st, et]. */
  function Matching(log: Log, st: int, et: int, shift: int, n: nat): Log
    requires AllRecords(log) && n <= |log|
  {
    if n == 0 then []
    else
      Matching(log, st, et, shift, n - 1)
      + if st <= Time(log, n - 1) + shift <= et then [log[n - 1]] else []
  }

  lemma {:induction false} MatchingInRange(log: Log, st: int, et: int, shift: int, n: nat)
    requires AllRecords(log) && n <= |log|
    ensures Matching(log, st, et, shift, n) == InRange(log, st - shift, et - shift, n)
  {
    if n > 0 {
      MatchingInRange(log, st, et, shift, n - 1);
    }
  }

  /** `et` falls strictly between the last two times of the log, shifted. */
  predicate InLastGap(log: Log, et: int, shift: int)
    requires AllRecords(log)
  {
    |log| >= 2 && Time(log, |log| - 2) + shift < et < Time(log, |log| - 1) + shift
  }

  /** What a query without an option answers, for times that do not wrap when they are shifted: all the
      records of the range when it ends after the last one; when it ends earlier, those and the last one if
      `et` falls in the last gap, exactly if the reader reads the range to its end. */
  predicate Answers(log: Log, st: int, et: int, shift: int, lines: seq<seq<byte>>)
    requires WellFormed(log)
  {
    var lt, wanted := Time(log, Last(log)) + shift, Matching(log, st, et, shift, |log|);
    && (lt < et && et - shift < ULONG_MAX && FitsSentinel(log) ==> lines == wanted)
    && (et <= lt && st <= lt ==>
          (lines == wanted + (if InLastGap(log, et, shift) then [log[Last(log)]] else [])
           <==> ReadWhole(log, st - shift, et - shift)))
    && (et <= lt < st && |Flatten(log)| < LogSearch.PAST_END ==> lines == [] == wanted)
  }

  /** The reader reads the range to its end (see ReachesEndClean, and ReachesEnd for short ranges). */
  predicate ReadWhole(log: Log, st: int, et: int)
    requires WellFormed(log)
  {
    st < 0 || et < 0 ||
    var so, eo := StartOffset(log, st), EndOffset(log, et);
    so >= eo || (0 <= so && eo <= |Flatten(log)| && CleanFrom(Flatten(log), so, so, eo))
  }

  /** lfs_read_in up to the lines passed to `outfilter`. The option 2 asks for the last record, 1 for the
      first, any other for a range of times in a time zone. */
  method ReadIn(c: Lfs, st: nat, et: nat, tOffset: int, opt: int, ghost log: Log) returns (lines: seq<seq<byte>>)
    requires c.Indexes(log) && Increasing(log) && c.fd.wholeReads
    requires st <= ULONG_MAX && et <= ULONG_MAX
    modifies c`st, c`et, c`soff, c`eoff, c.fd`pos, c.buf
    ensures c.Indexes(log)
    ensures lines == Emitted(log, QueryStart(st, c.ft, c.lt, tOffset, opt), QueryEnd(et, c.ft, c.lt, tOffset, opt))
    ensures opt == 2 && FitsSentinel(log) ==> lines == [log[Last(log)]]
    ensures opt == 1 ==> lines == log[..if |log| == 1 || (|log| > 2 && Time(log, 1) > Time(log, 0) + 1) then 1 else 2]
    ensures opt != 1 && opt != 2 && 0 <= st - tOffset <= ULONG_MAX && 0 <= et - tOffset <= ULONG_MAX ==>
              Answers(log, st, et, tOffset, lines)
  {
    hide FinalPos, Lines, Tail, Selection, InRange, Flatten, StartOffset, EndOffset, OffsetsReach, TakesLast;
    hide RangeBytes, ShortLines, IsRecord, TimeOf, HexValue, Increasing, Bounded, AllRecords;
    var s, e, off := st, et, tOffset;
    if opt == 2 {
      s, e, off := c.lt, c.lt + 1, 0;
    } else if opt == 1 {
      s, e, off := c.ft, c.ft + 1, 0;
    }
    TimesAreSmall(log);
    ghost var qs := QueryStart(st, c.ft, c.lt, tOffset, opt);
    ghost var qe := QueryEnd(et, c.ft, c.lt, tOffset, opt);
    c.Filter1((s - off) % (ULONG_MAX + 1), (e - off) % (ULONG_MAX + 1), log);
    ShortFromStart(log, qs);
    ghost var end;
    lines, end := c.Filter2();
    OptionAnswers(log, st, et, tOffset, opt);
  }

  /** What the options answer, by records. */
  lemma OptionAnswers(log: Log, st: nat, et: nat, tOffset: int, opt: int)
    requires WellFormed(log) && Increasing(log) && st <= ULONG_MAX && et <= ULONG_MAX
    ensures var ft, lt := Time(log, 0), Time(log, Last(log));
            var lines := Emitted(log, QueryStart(st, ft, lt, tOffset, opt), QueryEnd(et, ft, lt, tOffset, opt));
            && (opt == 2 && FitsSentinel(log) ==> lines == [log[Last(log)]])
            && (opt == 1 ==>
                  lines == log[..if |log| == 1 || (|log| > 2 && Time(log, 1) > Time(log, 0) + 1) then 1 else 2])
            && (opt != 1 && opt != 2 && 0 <= st - tOffset <= ULONG_MAX && 0 <= et - tOffset <= ULONG_MAX ==>
                  Answers(log, st, et, tOffset, lines))
  {
    hide Emitted, FitsSentinel, Answers, Flatten, IsRecord, TimeOf;
    if opt == 2 && FitsSentinel(log) {
      LastQuery(log);
    } else if opt == 1 {
      FirstQuery(log);
    } else if opt != 2 && 0 <= st - tOffset <= ULONG_MAX && 0 <= et - tOffset <= ULONG_MAX {
      RangeAnswers(log, st, et, tOffset);
    }
  }

  lemma RangeAnswers(log: Log, st: nat, et: nat, shift: int)
    requires WellFormed(log) && Increasing(log)
    requires 0 <= st - shift <= ULONG_MAX && 0 <= et - shift <= ULONG_MAX
    ensures Answers(log, st, et, shift, Emitted(log, st - shift, et - shift))
  {
    hide Emitted, FitsSentinel, Flatten, IsRecord, TimeOf, StartOffset, EndOffset, CleanFrom, InRange, Matching;
    var s, e, lt := st - shift, et - shift, Time(log, Last(log));
    MatchingInRange(log, st, et, shift, |log|);
    TakesLastInGap(log, e);
    if lt < e {
      if e < ULONG_MAX && FitsSentinel(log) {
        OpenQuery(log, s, e);
      }
    } else if s <= lt {
      AnsweredAtAnyLength(log, s, e);
    } else if |Flatten(log)| < LogSearch.PAST_END {
      StartAfterEnd(log, s, e);
      NothingAfterEnd(log, s, e);
    }
  }

  lemma NothingAfterEnd(log: Log, st: nat, et: nat)
    requires WellFormed(log) && st > Time(log, Last(log)) && |Flatten(log)| < LogSearch.PAST_END
    ensures Emitted(log, st, et) == []
  {
  }

  lemma ShortSuffix(s: seq<byte>, x: nat)
    requires ShortLines(s) && x <= |s|
    ensures ShortLines(s[x..])
  {
    hide Lines, Tail;
    var t, b := Tail(s[..x]), s[x..];
    assert s[..x] + b == s;
    ShortConcat(s[..x], b);
    ShortWithoutHead(t, b);
  }

  lemma ShortWithoutHead(t: seq<byte>, b: seq<byte>)
    requires NEWLINE !in t && ShortLines(t + b)
    ensures ShortLines(b)
  {
    hide ShortLines, IndexOf;
    IndexAfterHead(t, b);
    var i := IndexOf(b, NEWLINE);
    if i < |b| {
      FirstIsShort(t + b, |t| + i);
      FirstIsShort(b, i);
      assert (t + b)[|t| + i + 1..] == b[i + 1..];
    } else {
      NoLine(b);
    }
  }

  lemma {:induction false} IndexAfterHead(t: seq<byte>, b: seq<byte>)
    requires NEWLINE !in t
    ensures IndexOf(t + b, NEWLINE) == |t| + IndexOf(b, NEWLINE)
  {
    if t == [] {
      assert t + b == b;
    } else {
      assert (t + b)[1..] == t[1..] + b;
      IndexAfterHead(t[1..], b);
    }
  }

  /** Wherever a range of a log starts, its lines fit the line buffer. */
  lemma ShortFromStart(log: Log, st: nat)
    requires WellFormed(log)
    ensures StartOffset(log, st) >= 0
    ensures StartOffset(log, st) <= |Flatten(log)| ==> ShortLines(Flatten(log)[StartOffset(log, st)..])
  {
    if StartOffset(log, st) <= |Flatten(log)| {
      RecordsAreShort(log);
      ShortSuffix(Flatten(log), StartOffset(log, st));
    }
  }

  // ---------------------------------------------------------------- what queries answer

  /** Any read of bytes from a record on yields whole records, in order, from that one. */
  lemma LinesFromRecord(log: Log, i: nat, end: nat) returns (m: nat)
    requires AllRecords(log) && i <= |log| && Start(log, i) <= end <= |Flatten(log)|
    ensures i <= m <= |log| && Start(log, m) <= end
    ensures Lines(Flatten(log)[Start(log, i)..end]) == log[i..m]
    ensures m < |log| ==> end < Start(log, m + 1)
    ensures end == |Flatten(log)| ==> m == |log|
  {
    hide Lines, Tail, Flatten, IsRecord;
    m := LastStart(log, i, end);
    var b, x, y := Flatten(log), Start(log, i), Start(log, m);
    SplitAt(log, i, m);
    LinesOfLog(log[i..m]);
    assert b[x..end] == b[x..y] + b[y..end];
    LinesConcat(b[x..y], b[y..end]);
    assert [] + b[y..end] == b[y..end];
    if m < |log| {
      RecordBytes(log, m);
      PartOfSlice(b, y, end, Start(log, m + 1));
      NoNewlineInside(log[m], end - y);
    } else {
      FlattenSize(log);
    }
    NoNewlineNoLines(b[y..end]);
  }

  lemma NoNewlineInside(r: seq<byte>, k: nat)
    requires IsRecord(r) && k < |r|
    ensures NEWLINE !in r[..k]
  {
  }

  lemma {:induction false} LastStart(log: Log, i: nat, end: nat) returns (m: nat)
    requires AllRecords(log) && i <= |log| && Start(log, i) <= end <= |Flatten(log)|
    ensures i <= m <= |log| && Start(log, m) <= end
    ensures m < |log| ==> end < Start(log, m + 1)
    ensures end == |Flatten(log)| ==> m == |log|
    decreases |log| - i
  {
    FlattenSize(log);
    if i < |log| && Start(log, i + 1) <= end {
      m := LastStart(log, i + 1, end);
    } else {
      m := i;
      if i < |log| {
        StartMonotone(log, i + 1, |log|);
      }
    }
  }

  lemma ShortTailsFromRecord(log: Log, i: nat)
    requires WellFormed(log) && i <= |log|
    ensures Start(log, i) <= |Flatten(log)| && ShortTails(Flatten(log), Start(log, i))
  {
    hide Lines, Tail, Flatten;
    SplitAt(log, i, |log|);
    FlattenSize(log);
    var b, x, rest := Flatten(log), Start(log, i), log[i..];
    assert log[i..|log|] == rest && b[x..|b|] == Flatten(rest);
    forall p | x <= p <= |b|
      ensures |Tail(b[x..p])| < 1024
    {
      TailInsideLog(rest, p - x);
      PartOfSlice(b, x, p, |b|);
    }
  }

  /** The sentinel is a thousandth of the file and one buffer past its end: up to 4.28 GB. */
  predicate FitsSentinel(log: Log) {
    1001 * |Flatten(log)| <= 1000 * (LogSearch.PAST_END - BULK_BUF_SIZE)
  }

  /** A query that ends after the last record answers exactly the records from `st` on. */
  lemma OpenQuery(log: Log, st: nat, et: nat)
    requires WellFormed(log) && Increasing(log) && Time(log, Last(log)) < et < ULONG_MAX
    requires FitsSentinel(log)
    ensures Emitted(log, st, et) == InRange(log, st, et, |log|)
  {
    hide FinalPos, Lines, Tail, InRange, Flatten, Start;
    var b, lt := Flatten(log), Time(log, Last(log));
    if st > lt {
      StartAfterEnd(log, st, et);
    } else {
      SelectionIsSuffix(log, st, et);
      var i := FirstAtLeast(log, st);
      ShortTailsFromRecord(log, i);
      var x := Start(log, i);
      OpenRangeIsComplete(b, x, x, x, EndOffset(log, et));
      var m := LinesFromRecord(log, i, |b|);
      assert log[i..|log|] == log[i..];
    }
  }

  /** "Last record" queries answer exactly the last record. */
  lemma LastQuery(log: Log)
    requires WellFormed(log) && Increasing(log)
    requires FitsSentinel(log)
    ensures Emitted(log, Time(log, Last(log)), Time(log, Last(log)) + 1) == [log[Last(log)]]
  {
    hide FinalPos, Lines, Tail, InRange, Flatten, Start, StartOffset, EndOffset;
    var lt := Time(log, Last(log));
    TimesAreSmall(log);
    OpenQuery(log, lt, lt + 1);
    SelectionIsSuffix(log, lt, lt + 1);
    FirstSplits(log, lt);
    assert Time(log, Last(log)) >= lt;
    assert FirstAtLeast(log, lt) == Last(log);
    assert log[Last(log)..] == [log[Last(log)]];
  }

  /** A range that starts on a 512-byte boundary and fits the buffer is answered in full. */
  lemma AlignedQuery(log: Log, st: nat, et: nat)
    requires WellFormed(log) && Increasing(log)
    requires st <= Time(log, Last(log)) && et <= Time(log, Last(log))
    requires StartOffset(log, st) % 512 == 0
    requires StartOffset(log, st) <= EndOffset(log, et) < StartOffset(log, st) + BULK_BUF_SIZE
    ensures Emitted(log, st, et) == Selection(log, st, et)
  {
    hide FinalPos, Lines, Tail, InRange, Flatten, Start;
    EndOffsetInFile(log, et);
    var b, so, eo := Flatten(log), StartOffset(log, st), EndOffset(log, et);
    AlignedRangeIsComplete(b, so, eo);
    assert b[so..eo] == RangeBytes(b, so, eo);
    RangeLines(log, st, et);
  }

  /** A range inside one 512-byte block is answered in full if it starts the block, else not at all. */
  lemma OneBlockQuery(log: Log, st: nat, et: nat)
    requires WellFormed(log) && Increasing(log)
    requires st <= Time(log, Last(log)) && et <= Time(log, Last(log))
    requires var so := StartOffset(log, st); so < EndOffset(log, et) <= so + 512 - so % 512
    ensures Selection(log, st, et) != []
    ensures Emitted(log, st, et) == if StartOffset(log, st) % 512 == 0 then Selection(log, st, et) else []
  {
    hide FinalPos, Tail, InRange, Start;
    var b, so, eo := Flatten(log), StartOffset(log, st), EndOffset(log, et);
    EndOffsetInFile(log, et);
    RangeInsideOneBlock(b, so, eo);
    RangeLines(log, st, et);
    if so % 512 != 0 {
      NoNewlineNoLines(b[so..so]);
    }
  }

  lemma EndOffsetInFile(log: Log, et: nat)
    requires WellFormed(log) && Increasing(log) && et <= Time(log, Last(log))
    ensures EndOffset(log, et) <= |Flatten(log)|
  {
    FlattenSize(log);
    StartMonotone(log, FirstAtLeast(log, et + 1), |log|);
  }

  /** The lines of the selected bytes are the selected records. */
  lemma RangeLines(log: Log, st: nat, et: nat)
    requires WellFormed(log) && Increasing(log)
    requires st <= Time(log, Last(log)) && et <= Time(log, Last(log))
    ensures Lines(RangeBytes(Flatten(log), StartOffset(log, st), EndOffset(log, et))) == Selection(log, st, et)
    ensures RangeBytes(Flatten(log), StartOffset(log, st), EndOffset(log, et)) != [] ==> Selection(log, st, et) != []
  {
    hide Lines, Tail, Flatten, InRange, RangeBytes, StartOffset, EndOffset, IsRecord, TimeOf;
    EndInside(log, st, et);
    SelectionIsSlice(log, st, et);
    LinesOfLog(Selection(log, st, et));
    FlattenNothing();
  }

  lemma FirstQueryPieces(log: Log)
    requires WellFormed(log) && Increasing(log) && |log| > 1
    ensures FirstAtLeast(log, Time(log, 0)) == 0
    ensures FirstAtLeast(log, Time(log, 0) + 1) == 1
    ensures FirstAtLeast(log, Time(log, 0) + 2) == if Time(log, 1) == Time(log, 0) + 1 then 2 else 1
  {
    FirstSplits(log, Time(log, 0));
    FirstSplits(log, Time(log, 0) + 1);
    FirstSplits(log, Time(log, 0) + 2);
    assert Time(log, 0) < Time(log, 1);
    if |log| > 2 {
      assert Time(log, 1) < Time(log, 2);
    }
  }

  /** "First record" queries answer the first record, and the second one too when it is one time unit
      later or the last of the log. */
  lemma FirstQuery(log: Log)
    requires WellFormed(log) && Increasing(log)
    ensures
      var first := Emitted(log, Time(log, 0), Time(log, 0) + 1);
      && first == log[..if |log| == 1 || (|log| > 2 && Time(log, 1) > Time(log, 0) + 1) then 1 else 2]
      && (first == [log[0]] <==> |log| == 1 || (|log| > 2 && Time(log, 1) > Time(log, 0) + 1))
  {
    if |log| == 1 {
      OnlyRecordQuery(log);
    } else {
      hide Emitted, Flatten;
      FirstOfMany(log);
      assert |log[..2]| != |[log[0]]|;
      assert log[..1] == [log[0]];
    }
  }

  lemma OnlyRecordQuery(log: Log)
    requires WellFormed(log) && Increasing(log) && |log| == 1
    ensures Emitted(log, Time(log, 0), Time(log, 0) + 1) == log[..1] == [log[0]]
  {
    hide Emitted;
    FlattenSize(log);
    assert Start(log, 1) == |log[0]|;
    LastQuery(log);
  }

  lemma FirstOfMany(log: Log)
    requires WellFormed(log) && Increasing(log) && |log| > 1
    ensures Emitted(log, Time(log, 0), Time(log, 0) + 1)
            == log[..if |log| > 2 && Time(log, 1) > Time(log, 0) + 1 then 1 else 2]
  {
    hide FinalPos, Lines, Tail, InRange, Flatten, IsRecord, TimeOf, Emitted;
    var ft := Time(log, 0);
    FirstQueryPieces(log);
    SelectionIsSlice(log, ft, ft + 1);
    assert Time(log, 1) <= Time(log, Last(log));
    var n := if |log| > 2 && Time(log, 1) > ft + 1 then 1 else 2;
    assert EndOffset(log, ft + 1) == Start(log, n);
    assert Start(log, 2) == Start(log, 1) + |log[1]| && Start(log, 1) == |log[0]|;
    AlignedQuery(log, ft, ft + 1);
    assert log[0..n] == log[..n];
  }

  // ---------------------------------------------------------------- exactly when a query is answered in full

  /** The selection of a range inside the log, by the index of its first record and the one after it. */
  lemma RangeIndices(log: Log, st: nat, et: nat) returns (i: nat, e: nat)
    requires WellFormed(log) && Increasing(log)
    requires st <= Time(log, Last(log)) && et <= Time(log, Last(log))
    requires StartOffset(log, st) < EndOffset(log, et)
    ensures i < e <= |log| && StartOffset(log, st) == Start(log, i) && EndOffset(log, et) == Start(log, e)
    ensures Selection(log, st, et) == log[i..e]
  {
    hide Flatten, IsRecord, TimeOf;
    i, e := FirstAtLeast(log, st), FirstAtLeast(log, et + 1);
    SelectionIsSlice(log, st, et);
    FirstSplits(log, et + 1);
    if et == Time(log, Last(log)) || TakesLast(log, et) {
      e := |log|;
    }
    if i >= e {
      StartMonotone(log, e, i);
    }
  }

  /** A query inside the log is answered in full exactly when the reader reaches the end of its range. */
  lemma FullWhenEndIsReached(log: Log, st: nat, et: nat)
    requires WellFormed(log) && Increasing(log)
    requires st <= Time(log, Last(log)) && et <= Time(log, Last(log))
    requires StartOffset(log, st) < EndOffset(log, et)
    ensures var b, so, eo := Flatten(log), StartOffset(log, st), EndOffset(log, et);
            && 0 <= so < eo <= |b|
            && (Emitted(log, st, et) == Selection(log, st, et) <==> FinalPos(b, so, so, so, eo) == eo)
  {
    hide FinalPos, Flatten, Lines, Tail, Selection, StartOffset, EndOffset, Start, IsRecord;
    var b := Flatten(log);
    var i, e := RangeIndices(log, st, et);
    var so, eo := StartOffset(log, st), EndOffset(log, et);
    EndOffsetInFile(log, et);
    StaysInRange(b, so, so, so, eo);
    var f := FinalPos(b, so, so, so, eo);
    var m := LinesFromRecord(log, i, f);
    if m < e {
      StartMonotone(log, m + 1, e);
      assert |log[i..m]| < |log[i..e]|;
    } else {
      StartMonotone(log, e, m);
      StartMonotone(log, i, m);
      OneRecordUp(log, e, m);
    }
  }

  /** Record starts are strictly increasing. */
  lemma OneRecordUp(log: Log, e: nat, m: nat)
    requires AllRecords(log) && e <= m <= |log| && Start(log, m) <= Start(log, e)
    ensures e == m
  {
    StartMonotone(log, e, m);
  }

  /** The answer theorem: a range that fits the buffer is answered in full if and only if it is empty, it
      starts on a 512-byte boundary, or its offsets and the record starts meet `ReadsToEnd`. */
  lemma AnsweredInFull(log: Log, st: nat, et: nat)
    requires WellFormed(log) && Increasing(log)
    requires st <= Time(log, Last(log)) && et <= Time(log, Last(log))
    requires EndOffset(log, et) - StartOffset(log, st) < BULK_BUF_SIZE
    ensures EndOffset(log, et) <= |Flatten(log)| && 0 <= StartOffset(log, st)
    ensures var so, eo := StartOffset(log, st), EndOffset(log, et);
            Emitted(log, st, et) == Selection(log, st, et) <==> so >= eo || ReadsToEnd(Flatten(log), so, eo)
  {
    hide FinalPos, Flatten, Lines, Tail, Start, IsRecord, ReadsToEnd;
    var so, eo := StartOffset(log, st), EndOffset(log, et);
    EndOffsetInFile(log, et);
    if so < eo {
      hide Emitted, Selection, StartOffset, EndOffset;
      FullWhenEndIsReached(log, st, et);
      ReachesEnd(Flatten(log), so, eo);
    } else {
      EmptyRange(log, st, et);
    }
  }

  lemma EmptyRange(log: Log, st: nat, et: nat)
    requires WellFormed(log) && Increasing(log)
    requires st <= Time(log, Last(log)) && EndOffset(log, et) <= StartOffset(log, st)
    requires et <= Time(log, Last(log))
    ensures Emitted(log, st, et) == Selection(log, st, et) == []
  {
    hide Tail, Flatten, Start, InRange, Selection;
    var b, so, eo := Flatten(log), StartOffset(log, st), EndOffset(log, et);
    if so <= |b| {
      assert FinalPos(b, so, so, so, eo) == so;
      NoNewlineNoLines(b[so..so]);
    }
    RangeLines(log, st, et);
    NoNewlineNoLines([]);
  }

  /** In the file of a log a line ends exactly before a record start or the end of the file. */
  lemma LineEndIsRecordStart(log: Log, p: nat)
    requires AllRecords(log) && 0 < p <= |Flatten(log)|
    ensures LineEndsAt(Flatten(log), p) <==> exists k :: 0 < k <= |log| && Start(log, k) == p
  {
    hide Flatten;
    var m := LastStart(log, 0, p);
    if Start(log, m) == p {
      RecordByte(log, m - 1, |log[m - 1]| - 1);
    } else {
      FlattenSize(log);
      RecordByte(log, m, p - 1 - Start(log, m));
      forall k | 0 < k <= |log|
        ensures Start(log, k) != p
      {
        if k <= m {
          StartMonotone(log, k, m);
        } else {
          StartMonotone(log, m + 1, k);
        }
      }
    }
  }

  /** The same for ranges of any length: every read but the last begins at a line start, and the reads,
      whose places the offsets alone decide, come out at the end. */
  lemma AnsweredAtAnyLength(log: Log, st: nat, et: nat)
    requires WellFormed(log) && Increasing(log)
    requires st <= Time(log, Last(log)) && et <= Time(log, Last(log))
    ensures EndOffset(log, et) <= |Flatten(log)| && 0 <= StartOffset(log, st)
    ensures var so, eo := StartOffset(log, st), EndOffset(log, et);
            Emitted(log, st, et) == Selection(log, st, et) <==> so >= eo || CleanFrom(Flatten(log), so, so, eo)
  {
    hide FinalPos, Flatten, Lines, Tail, Start, IsRecord, CleanFrom;
    var so, eo := StartOffset(log, st), EndOffset(log, et);
    EndOffsetInFile(log, et);
    if so < eo {
      hide Emitted, Selection, StartOffset, EndOffset;
      FullWhenEndIsReached(log, st, et);
      ReachesEndClean(Flatten(log), so, so, eo);
    } else {
      EmptyRange(log, st, et);
    }
  }

  /** A log of four records, and the query for the middle two: 1014 bytes from offset 10. */
  lemma LostRecord() returns (log: Log)
    ensures |log| == 4 && WellFormed(log) && Increasing(log)
    ensures StartOffset(log, 16) == 10 && EndOffset(log, 32) == 1024
    ensures Selection(log, 16, 32) == log[1..3] && Emitted(log, 16, 32) == log[1..2]
  {
    var r0, r1 := LogSearch.RecordOfSize(0, 10), LogSearch.RecordOfSize(16, 502);
    var r2, r3 := LogSearch.RecordOfSize(32, 512), LogSearch.RecordOfSize(48, 10);
    log := [r0, r1, r2, r3];
    assert log[0] == r0 && log[1] == r1 && log[2] == r2 && log[3] == r3;
    SecondIsLost(log);
  }

  lemma SecondIsLost(log: Log)
    requires |log| == 4 && WellFormed(log)
    requires |log[0]| == 10 && |log[1]| == 502 && |log[2]| == 512
    requires Time(log, 0) == 0 && Time(log, 1) == 16 && Time(log, 2) == 32 && Time(log, 3) == 48
    ensures Increasing(log) && StartOffset(log, 16) == 10 && EndOffset(log, 32) == 1024
    ensures Selection(log, 16, 32) == log[1..3] && Emitted(log, 16, 32) == log[1..2]
  {
    hide Flatten, Lines, Tail, FinalPos, IsRecord, TimeOf, Selection, InRange;
    FourOffsets(log);
    FourTimes(log);
    SelectionIsSlice(log, 16, 32);
    var b := Flatten(log);
    FlattenSize(log);
    StartMonotone(log, 3, 4);
    StopsAt522(b);
    var m := LinesFromRecord(log, 1, 522);
    TwoLeft(log, m);
  }

  lemma FourOffsets(log: Log)
    requires |log| == 4 && |log[0]| == 10 && |log[1]| == 502 && |log[2]| == 512
    ensures Start(log, 0) == 0 && Start(log, 1) == 10 && Start(log, 2) == 512 && Start(log, 3) == 1024
  {
    assert Start(log, 1) == Start(log, 0) + |log[0]|;
    assert Start(log, 2) == Start(log, 1) + |log[1]|;
    assert Start(log, 3) == Start(log, 2) + |log[2]|;
  }

  lemma FourTimes(log: Log)
    requires |log| == 4 && WellFormed(log)
    requires Time(log, 0) == 0 && Time(log, 1) == 16 && Time(log, 2) == 32 && Time(log, 3) == 48
    ensures Increasing(log) && !TakesLast(log, 32)
    ensures FirstAtLeast(log, 16) == 1 && FirstAtLeast(log, 33) == 3
  {
    FirstSplits(log, 16);
    FirstSplits(log, 32);
    FirstSplits(log, 33);
  }

  lemma TwoLeft(log: Log, m: nat)
    requires |log| == 4 && AllRecords(log) && m <= 4 && Start(log, 2) == 512 && Start(log, 3) == 1024
    requires Start(log, m) <= 522 && (m < 4 ==> 522 < Start(log, m + 1))
    ensures m == 2
  {
    if m < 2 {
      StartMonotone(log, m + 1, 2);
    } else if m > 2 {
      StartMonotone(log, 3, m);
    }
  }

  /** The first read is 502 bytes short; the second would be of no bytes. */
  lemma StopsAt522(b: seq<byte>)
    requires |b| >= 1024
    ensures FinalPos(b, 10, 10, 10, 1024) == 522
  {
    hide FinalPos, Tail;
    assert b[10..10] == [];
    NoTail();
    OneRead(b, 10, 10, 10, 1024, 0);
    OneRead(b, 10, 522, 522, 1024, |Tail(b[10..522])|);
  }
}
