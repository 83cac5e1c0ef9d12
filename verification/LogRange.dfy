// What a time range selects from a log, stated on records, and the byte offsets that stand for it.
module LogRange {
  import opened Bytes
  import opened LogFormat
  import LogSearch

  /** The records among the first `n` with a timestamp in [st, et]. */
  function InRange(log: Log, st: int, et: int, n: nat): Log
    requires AllRecords(log) && n <= |log|
  {
    if n == 0 then []
    else
      var before := InRange(log, st, et, n - 1);
      if st <= Time(log, n - 1) <= et then before + [log[n - 1]] else before
  }

  function Last(log: Log): nat
    requires log != []
  {
    |log| - 1
  }

  lemma TimesAreSmall(log: Log)
    requires WellFormed(log)
    ensures Time(log, 0) < 0x1_0000_0000 && Time(log, Last(log)) < 0x1_0000_0000
  {
    assert Pow16(8) == 0x1_0000_0000;
  }

  /** The range code also takes the last record when it is the first one at or after `et` < `lt`. */
  predicate TakesLast(log: Log, et: int)
    requires WellFormed(log)
  {
    Time(log, 0) <= et < Time(log, Last(log)) && FirstAtLeast(log, et) == Last(log)
  }

  /** That is, when `et` falls strictly between the last two timestamps. */
  lemma TakesLastInGap(log: Log, et: int)
    requires WellFormed(log) && Increasing(log)
    ensures TakesLast(log, et) <==>
              |log| >= 2 && Time(log, Last(log) - 1) < et < Time(log, Last(log))
  {
    if |log| >= 2 {
      var z := Last(log);
      assert Time(log, z - 1) < Time(log, z) && (z - 1 == 0 || Time(log, 0) < Time(log, z - 1));
      if et >= 0 {
        FirstSplits(log, et);
      }
    }
  }

  function Selection(log: Log, st: int, et: int): Log
    requires WellFormed(log)
  {
    InRange(log, st, et, |log|)
    + if TakesLast(log, et) && st <= Time(log, Last(log)) then [log[Last(log)]] else []
  }

  /** The bytes of the half-open offset range [soff, eoff), cut at the end of the file. */
  function RangeBytes(bytes: seq<byte>, soff: int, eoff: int): seq<byte> {
    if 0 <= soff < eoff && soff <= |bytes| then bytes[soff..Min(eoff, |bytes|)] else []
  }

  /** Where the range starts: the linear scan for `st`, or the sentinel past the last record. */
  function StartOffset(log: Log, st: nat): int
    requires WellFormed(log)
  {
    if st > Time(log, Last(log)) then LogSearch.PAST_END else Start(log, FirstAtLeast(log, st))
  }

  /** Where the range ends. `et + 1` wraps to 0 at ULONG_MAX. */
  function EndOffset(log: Log, et: nat): int
    requires WellFormed(log)
  {
    var ft, lt := Time(log, 0), Time(log, Last(log));
    if et < ft then (if et == 0 && ft == 1 then 0 else -1)
    else if et > lt then
      (if et < ULONG_MAX then LogSearch.PAST_END else if ft == 0 then 0 else -1)
    else if et == lt || TakesLast(log, et) then Start(log, |log|)
    else Start(log, FirstAtLeast(log, et + 1))
  }

  lemma {:induction false} InRangeIsSlice(log: Log, st: int, et: int, i: nat, j: nat, n: nat)
    requires AllRecords(log) && i <= |log| && j <= |log| && n <= |log|
    requires forall k :: 0 <= k < |log| ==> (Time(log, k) >= st <==> k >= i)
    requires forall k :: 0 <= k < |log| ==> (Time(log, k) <= et <==> k < j)
    ensures InRange(log, st, et, n) == if i < Min(j, n) then log[i..Min(j, n)] else []
  {
    hide IsRecord, TimeOf;
    if n > 0 {
      InRangeIsSlice(log, st, et, i, j, n - 1);
    }
  }

  lemma FirstSplits(log: Log, t: nat)
    requires AllRecords(log) && Increasing(log)
    ensures forall k :: 0 <= k < |log| ==> (Time(log, k) >= t <==> k >= FirstAtLeast(log, t))
  {
    var r := FirstAtLeast(log, t);
    forall k | r <= k < |log|
      ensures Time(log, k) >= t
    {
      assert k == r || Time(log, r) < Time(log, k);
    }
  }

  /** On an increasing log the selection is a contiguous run of records. */
  lemma SelectionIsSlice(log: Log, st: nat, et: nat)
    requires WellFormed(log) && Increasing(log)
    ensures
      var i, j := FirstAtLeast(log, st), FirstAtLeast(log, et + 1);
      var e := if TakesLast(log, et) then |log| else j;
      && InRange(log, st, et, |log|) == (if i < j then log[i..j] else [])
      && Selection(log, st, et) == (if i < e then log[i..e] else [])
  {
    hide IsRecord, TimeOf, FirstFrom;
    var i, j := FirstAtLeast(log, st), FirstAtLeast(log, et + 1);
    FirstSplits(log, st);
    FirstSplits(log, et + 1);
    InRangeIsSlice(log, st, et, i, j, |log|);
    var z := Last(log);
    if TakesLast(log, et) {
      FirstSplits(log, et);
      assert Time(log, z) >= et + 1;
      assert j == z;
      if i <= z {
        assert log[i..] == log[i..z] + [log[z]];
      }
    }
  }

  /** When the offsets select what they should. For st after the last record the end must not lie past
      the sentinel that stands for the start; otherwise `et` must be in the log, or the file be within
      the sentinel and `et + 1` not wrap. */
  predicate OffsetsReach(log: Log, st: nat, et: nat)
    requires WellFormed(log)
  {
    var lt := Time(log, Last(log));
    if st > lt then et > lt || |Flatten(Selection(log, 0, et))| <= LogSearch.PAST_END
    else et <= lt || (et < ULONG_MAX && |Flatten(log)| <= LogSearch.PAST_END)
  }

  /** Up to `et` in the log, the end offset is the size of what a query from time 0 selects. */
  lemma EndIsSelectedSize(log: Log, et: nat)
    requires WellFormed(log) && Increasing(log) && et <= Time(log, Last(log))
    ensures EndOffset(log, et) <= LogSearch.PAST_END <==> |Flatten(Selection(log, 0, et))| <= LogSearch.PAST_END
  {
    hide Flatten, Start, InRange, IsRecord, TimeOf, Selection;
    var j := if et == Time(log, Last(log)) || TakesLast(log, et) then |log| else FirstAtLeast(log, et + 1);
    SelectionIsSlice(log, 0, et);
    FirstSplits(log, et + 1);
    SplitAt(log, 0, j);
    StartOfNothing(log);
    assert Selection(log, 0, et) == log[0..j];
  }

  lemma StartOfNothing(log: Log)
    ensures Start(log, 0) == 0
  {
  }

  lemma RangeOfSlice(log: Log, i: nat, j: nat)
    requires AllRecords(log) && i <= |log| && j <= |log|
    ensures RangeBytes(Flatten(log), Start(log, i), Start(log, j))
            == Flatten(if i < j then log[i..j] else [])
  {
    FlattenSize(log);
    if i < j {
      SplitAt(log, i, j);
      StartMonotone(log, i, j);
    } else {
      StartMonotone(log, j, i);
    }
  }

  lemma NonEmptyBytes(log: Log)
    requires AllRecords(log) && log != []
    ensures Flatten(log) != []
  {
    assert |Flatten(log)| >= |log[|log| - 1]|;
  }

  /** A start past the last record: nothing is selected as long as the end is not past the sentinel. */
  lemma StartAfterEnd(log: Log, st: nat, et: nat)
    requires WellFormed(log) && Increasing(log) && st > Time(log, Last(log))
    ensures Selection(log, st, et) == InRange(log, st, et, |log|) == []
    ensures RangeBytes(Flatten(log), StartOffset(log, st), EndOffset(log, et)) == []
            <==> EndOffset(log, et) <= LogSearch.PAST_END
  {
    hide Flatten, IsRecord, TimeOf, FirstFrom, Start, Selection, InRange;
    SelectionIsSlice(log, st, et);
    FirstSplits(log, st);
    assert FirstAtLeast(log, st) == |log|;
    FlattenSize(log);
    var e := EndOffset(log, et);
    if e > LogSearch.PAST_END {
      assert e == Start(log, |log|) || e == Start(log, FirstAtLeast(log, et + 1));
      StartMonotone(log, if e == Start(log, |log|) then |log| else FirstAtLeast(log, et + 1), |log|);
    }
  }

  lemma CutAtSentinel(s: seq<byte>, x: nat, e: int)
    requires x < |s|
    ensures RangeBytes(s, x, e) == s[x..] <==> |s| <= e
  {
    if |s| <= e {
      assert s[x..|s|] == s[x..];
    } else {
      assert |RangeBytes(s, x, e)| < |s[x..]|;
    }
  }

  lemma SuffixBytes(log: Log, i: nat)
    requires AllRecords(log) && i < |log|
    ensures Start(log, i) < |Flatten(log)|
    ensures Flatten(log)[Start(log, i)..] == Flatten(log[i..])
  {
    SplitAt(log, i, |log|);
    FlattenSize(log);
    assert log[i..|log|] == log[i..];
    NonEmptyBytes(log[i..]);
  }

  lemma SelectionIsSuffix(log: Log, st: nat, et: nat)
    requires WellFormed(log) && Increasing(log) && st <= Time(log, Last(log)) < et
    ensures FirstAtLeast(log, st) < |log|
    ensures Selection(log, st, et) == InRange(log, st, et, |log|) == log[FirstAtLeast(log, st)..]
  {
    hide Flatten, IsRecord, TimeOf, FirstFrom, Selection, InRange;
    SelectionIsSlice(log, st, et);
    FirstSplits(log, st);
    FirstSplits(log, et + 1);
    assert FirstAtLeast(log, st) <= Last(log) && FirstAtLeast(log, et + 1) == |log|;
  }

  /** An end after the last record: everything from `st` on is selected, unless a sentinel cuts it. */
  lemma EndAfterEnd(log: Log, st: nat, et: nat)
    requires WellFormed(log) && Increasing(log) && st <= Time(log, Last(log)) < et <= ULONG_MAX
    ensures Selection(log, st, et) == InRange(log, st, et, |log|) == log[FirstAtLeast(log, st)..]
    ensures RangeBytes(Flatten(log), StartOffset(log, st), EndOffset(log, et)) == Flatten(Selection(log, st, et))
            <==> et < ULONG_MAX && |Flatten(log)| <= LogSearch.PAST_END
  {
    hide Flatten, IsRecord, TimeOf, FirstFrom, Selection, InRange, RangeBytes, Start;
    SelectionIsSuffix(log, st, et);
    var i := FirstAtLeast(log, st);
    SuffixBytes(log, i);
    CutAtSentinel(Flatten(log), Start(log, i), EndOffset(log, et));
  }

  /** An end inside the log. */
  lemma EndInside(log: Log, st: nat, et: nat)
    requires WellFormed(log) && Increasing(log)
    requires st <= Time(log, Last(log)) && et <= Time(log, Last(log))
    ensures RangeBytes(Flatten(log), StartOffset(log, st), EndOffset(log, et)) == Flatten(Selection(log, st, et))
  {
    hide InRange, IsRecord, TimeOf;
    SelectionIsSlice(log, st, et);
    FirstSplits(log, st);
    FirstSplits(log, et + 1);
    var i, j := FirstAtLeast(log, st), FirstAtLeast(log, et + 1);
    RangeOfSlice(log, i, if et == Time(log, Last(log)) || TakesLast(log, et) then |log| else j);
  }

  /** The range theorem: for every `st` and `et` the two offsets select exactly the records in
      [st, et] plus the tolerated last one, if and only if `OffsetsReach`; and exactly the records
      in [st, et] if and only if, besides, the last one is not taken. */
  lemma {:induction false} RangeSelects(log: Log, st: nat, et: nat)
    requires WellFormed(log) && Increasing(log) && et <= ULONG_MAX
    ensures
      var got := RangeBytes(Flatten(log), StartOffset(log, st), EndOffset(log, et));
      && (got == Flatten(Selection(log, st, et)) <==> OffsetsReach(log, st, et))
      && (got == Flatten(InRange(log, st, et, |log|)) <==>
          OffsetsReach(log, st, et) && !(TakesLast(log, et) && st <= Time(log, Last(log))))
  {
    var lt := Time(log, Last(log));
    if st > lt {
      StartAfterEnd(log, st, et);
      if et <= lt {
        EndIsSelectedSize(log, et);
      }
    } else if et > lt {
      EndAfterEnd(log, st, et);
    } else {
      EndInside(log, st, et);
      if TakesLast(log, et) {
        FlattenAppend(InRange(log, st, et, |log|), log[Last(log)]);
      } else {
        assert InRange(log, st, et, |log|) + [] == InRange(log, st, et, |log|);
      }
    }
  }
}
