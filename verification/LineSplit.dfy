// Splitting bytes into lines, and the arithmetic of the chunked reader (logfile/lfs_read.c, filter2).
module LineSplit {
  import opened Bytes
  import opened LogFormat

  const BULK_BUF_SIZE: int := 0x100000

  /** The complete lines of `s`, each with its newline. */
  function Lines(s: seq<byte>): (ls: seq<seq<byte>>)
    decreases |s|
  {
    var i := IndexOf(s, NEWLINE);
    if i == |s| then [] else [s[..i + 1]] + Lines(s[i + 1..])
  }

  /** What follows the last newline of `s`. */
  function Tail(s: seq<byte>): (t: seq<byte>)
    ensures |t| <= |s|
    ensures NEWLINE !in t
    decreases |s|
  {
    var i := IndexOf(s, NEWLINE);
    if i == |s| then s else Tail(s[i + 1..])
  }

  /** Every complete line fits a buffer of DATA_SIZE bytes. */
  predicate ShortLines(s: seq<byte>)
    decreases |s|
  {
    var i := IndexOf(s, NEWLINE);
    i < |s| ==> i + 1 <= DATA_SIZE && ShortLines(s[i + 1..])
  }

  /** The first line of `s`, and what is left, when there is a complete line. */
  lemma FirstLine(s: seq<byte>, i: nat)
    requires i == IndexOf(s, NEWLINE) < |s|
    ensures Lines(s) == [s[..i + 1]] + Lines(s[i + 1..])
    ensures Tail(s) == Tail(s[i + 1..])
    ensures ShortLines(s) <==> i + 1 <= DATA_SIZE && ShortLines(s[i + 1..])
  {
    hide Lines, Tail, ShortLines, IndexOf;
    FirstOfLines(s, i);
    FirstOfTail(s, i);
    FirstIsShort(s, i);
  }

  lemma FirstOfLines(s: seq<byte>, i: nat)
    requires i == IndexOf(s, NEWLINE) < |s|
    ensures Lines(s) == [s[..i + 1]] + Lines(s[i + 1..])
  {
    hide IndexOf;
  }

  lemma FirstOfTail(s: seq<byte>, i: nat)
    requires i == IndexOf(s, NEWLINE) < |s|
    ensures Tail(s) == Tail(s[i + 1..])
  {
    hide IndexOf;
  }

  lemma FirstIsShort(s: seq<byte>, i: nat)
    requires i == IndexOf(s, NEWLINE) < |s|
    ensures ShortLines(s) <==> i + 1 <= DATA_SIZE && ShortLines(s[i + 1..])
  {
    hide IndexOf;
  }

  lemma NoLine(s: seq<byte>)
    requires IndexOf(s, NEWLINE) == |s|
    ensures Lines(s) == [] && Tail(s) == s && ShortLines(s)
  {
  }

  /** Bytes behind a complete line do not change it. */
  lemma FirstLineStays(a: seq<byte>, b: seq<byte>, i: nat)
    requires i == IndexOf(a, NEWLINE) < |a|
    ensures IndexOf(a + b, NEWLINE) == i
    ensures (a + b)[..i + 1] == a[..i + 1] && (a + b)[i + 1..] == a[i + 1..] + b
  {
    IndexOfUnique(a + b, NEWLINE, i);
  }

  lemma Assoc<T>(a: seq<T>, b: seq<T>, c: seq<T>)
    ensures a + b + c == a + (b + c)
  {
  }

  /** Lines may be split off in two steps when the unfinished one is carried over. */
  lemma {:induction false} LinesConcat(a: seq<byte>, b: seq<byte>)
    ensures Lines(a + b) == Lines(a) + Lines(Tail(a) + b)
    ensures Tail(a + b) == Tail(Tail(a) + b)
    decreases |a|
  {
    hide Lines, Tail, ShortLines, IndexOf;
    var i := IndexOf(a, NEWLINE);
    if i < |a| {
      var rest := a[i + 1..];
      FirstLine(a, i);
      FirstLineStays(a, b, i);
      FirstLine(a + b, i);
      LinesConcat(rest, b);
      Assoc([a[..i + 1]], Lines(rest), Lines(Tail(rest) + b));
    } else {
      NoLine(a);
      assert [] + Lines(a + b) == Lines(a + b);
    }
  }

  lemma {:induction false} ShortConcat(a: seq<byte>, b: seq<byte>)
    ensures ShortLines(a + b) <==> ShortLines(a) && ShortLines(Tail(a) + b)
    decreases |a|
  {
    hide Lines, Tail, ShortLines, IndexOf;
    var i := IndexOf(a, NEWLINE);
    if i < |a| {
      FirstLine(a, i);
      FirstLineStays(a, b, i);
      FirstLine(a + b, i);
      ShortConcat(a[i + 1..], b);
    } else {
      NoLine(a);
    }
  }

  /** Lines of a prefix are the first lines. */
  lemma LinesOfPrefix(s: seq<byte>, n: nat)
    requires n <= |s|
    ensures Lines(s[..n]) <= Lines(s)
  {
    hide Lines, Tail;
    LinesConcat(s[..n], s[n..]);
    assert s[..n] + s[n..] == s;
  }

  lemma {:induction false} NoNewlineNoLines(s: seq<byte>)
    requires NEWLINE !in s
    ensures Lines(s) == [] && Tail(s) == s
  {
  }

  lemma OneRecord(r: seq<byte>)
    requires IsRecord(r)
    ensures Lines(r) == [r] && Tail(r) == [] && (|r| <= DATA_SIZE ==> ShortLines(r))
  {
    hide Lines, Tail, ShortLines, IndexOf;
    var n := |r| - 1;
    IndexOfUnique(r, NEWLINE, n);
    FirstLine(r, n);
    assert r[..n + 1] == r && r[n + 1..] == [];
    IndexOfNothing();
    NoLine([]);
  }

  lemma IndexOfNothing()
    ensures IndexOf([], NEWLINE) == 0
  {
  }

  /** The lines of a log are its records. */
  lemma {:induction false} LinesOfLog(log: Log)
    requires AllRecords(log)
    ensures Lines(Flatten(log)) == log && Tail(Flatten(log)) == []
  {
    hide Lines, Tail, Flatten, IsRecord;
    if log != [] {
      var front, r := log[..|log| - 1], log[|log| - 1];
      FlattenLast(log);
      LinesOfLog(front);
      LinesConcat(Flatten(front), r);
      OneRecord(r);
      assert [] + r == r && front + [r] == log;
    } else {
      FlattenNothing();
      NoNewlineNoLines([]);
    }
  }

  lemma {:induction false} RecordsAreShort(log: Log)
    requires AllRecords(log) && Bounded(log, MAX_RECORD)
    ensures ShortLines(Flatten(log))
  {
    if log != [] {
      var front, r := log[..|log| - 1], log[|log| - 1];
      assert IsRecord(r) && AllRecords(front) && Flatten(log) == Flatten(front) + r;
      hide Lines, Tail, ShortLines, Flatten, IsRecord;
      RecordsAreShort(front);
      LinesOfLog(front);
      ShortConcat(Flatten(front), r);
      OneRecord(r);
      assert [] + r == r;
    }
  }

  /** How many bytes one iteration asks for at offset counter `off` with `carry` bytes kept. */
  function ToRead(off: nat, carry: nat, eoff: int): int {
    Min(BULK_BUF_SIZE - carry - 1, eoff - off) - if off % 512 != 0 then 512 - off % 512 else 0
  }

  /** The true file position at which the reader stops when every read is whole. `off` is the
      reader's own counter: each iteration adds the carried bytes to it a second time. */
  function FinalPos(bytes: seq<byte>, soff: nat, off: nat, pos: nat, eoff: int): (r: nat)
    requires soff <= pos <= |bytes|
    ensures pos <= r <= |bytes|
    decreases |bytes| - pos
  {
    var carry := |Tail(bytes[soff..pos])|;
    var n := Min(ToRead(off, carry, eoff), |bytes| - pos);
    if off >= eoff || n <= 0 then pos else FinalPos(bytes, soff, off + carry + n, pos + n, eoff)
  }

  /** An aligned range that fits the buffer is read to its end. */
  lemma AlignedRangeIsComplete(bytes: seq<byte>, soff: nat, eoff: int)
    requires soff % 512 == 0 && soff <= eoff <= |bytes| && eoff - soff < BULK_BUF_SIZE
    ensures FinalPos(bytes, soff, soff, soff, eoff) == eoff
  {
    assert bytes[soff..soff] == [];
    assert Tail([]) == [];
  }

  /** A range inside one 512-byte block is read to its end if it starts the block, else not at all. */
  lemma RangeInsideOneBlock(bytes: seq<byte>, soff: nat, eoff: int)
    requires soff < eoff <= |bytes| && eoff <= soff + 512 - soff % 512
    ensures FinalPos(bytes, soff, soff, soff, eoff) == if soff % 512 == 0 then eoff else soff
  {
    if soff % 512 == 0 {
      AlignedRangeIsComplete(bytes, soff, eoff);
    } else {
      assert bytes[soff..soff] == [];
      assert Tail([]) == [];
    }
  }

  predicate ShortTails(bytes: seq<byte>, soff: nat) {
    forall p :: soff <= p <= |bytes| ==> |Tail(bytes[soff..p])| < 1024
  }

  /** Each read but the last advances by nearly the whole buffer and puts the counter ahead by less
      than one line, so the counter stays within a thousandth of the way. A range that ends that far and
      one buffer past the end of the file is read to the end of the file. */
  lemma {:induction false} OpenRangeIsComplete(bytes: seq<byte>, soff: nat, off: nat, pos: nat, eoff: int)
    requires soff <= pos <= |bytes| && ShortTails(bytes, soff)
    requires pos <= off && 1000 * (off - pos) <= pos - soff
    requires 1000 * (eoff - BULK_BUF_SIZE) >= 1001 * |bytes|
    ensures FinalPos(bytes, soff, off, pos, eoff) == |bytes|
    decreases |bytes| - pos
  {
    hide FinalPos, Tail;
    var carry := |Tail(bytes[soff..pos])|;
    var n := Min(ToRead(off, carry, eoff), |bytes| - pos);
    assert off < eoff && ToRead(off, carry, eoff) >= BULK_BUF_SIZE - 1535;
    OneRead(bytes, soff, off, pos, eoff, carry);
    if pos + n < |bytes| {
      OpenRangeIsComplete(bytes, soff, off + carry + n, pos + n, eoff);
    } else if pos < |bytes| {
      FinalPosAtEnd(bytes, soff, off + carry + n, eoff);
    }
  }

  /** One turn of `FinalPos`. */
  lemma OneRead(bytes: seq<byte>, soff: nat, off: nat, pos: nat, eoff: int, carry: nat)
    requires soff <= pos <= |bytes| && carry == |Tail(bytes[soff..pos])| && off < eoff
    ensures var n := Min(ToRead(off, carry, eoff), |bytes| - pos);
            FinalPos(bytes, soff, off, pos, eoff)
            == if n <= 0 then pos else FinalPos(bytes, soff, off + carry + n, pos + n, eoff)
  {
  }

  lemma FinalPosAtEnd(bytes: seq<byte>, soff: nat, off: nat, eoff: int)
    requires soff <= |bytes|
    ensures FinalPos(bytes, soff, off, |bytes|, eoff) == |bytes|
  {
  }

  lemma TailInsideRecord(r: seq<byte>, k: nat)
    requires IsRecord(r) && k <= |r|
    ensures |Tail(r[..k])| < |r|
  {
    if k == |r| {
      IndexOfUnique(r, NEWLINE, |r| - 1);
      assert r[..k] == r && r[|r|..] == [];
    } else {
      NoNewlineNoLines(r[..k]);
    }
  }

  /** Unfinished lines of a log are shorter than a record. */
  lemma {:induction false} TailInsideLog(log: Log, p: nat)
    requires AllRecords(log) && Bounded(log, MAX_RECORD) && p <= |Flatten(log)|
    ensures |Tail(Flatten(log)[..p])| < MAX_RECORD
  {
    if log == [] {
      assert Flatten(log)[..p] == [];
    } else {
      var front, r := log[..|log| - 1], log[|log| - 1];
      var n := |Flatten(front)|;
      if p <= n {
        TailInsideLog(front, p);
        assert Flatten(log)[..p] == Flatten(front)[..p];
      } else {
        var part := r[..p - n];
        assert Flatten(log)[..p] == Flatten(front) + part;
        TailAfterLog(front, part);
        TailInsideRecord(r, p - n);
      }
    }
  }

  lemma TailAfterLog(log: Log, s: seq<byte>)
    requires AllRecords(log)
    ensures Tail(Flatten(log) + s) == Tail(s)
  {
    LinesOfLog(log);
    LinesConcat(Flatten(log), s);
    assert [] + s == s;
  }

  // ---------------------------------------------------------------- exactly when a range is read to its end

  /** Nothing is carried after a newline. */
  lemma {:induction false} NothingCarried(s: seq<byte>)
    requires s != []
    ensures Tail(s) == [] <==> s[|s| - 1] == NEWLINE
    decreases |s|
  {
    hide Tail, IndexOf;
    var i := IndexOf(s, NEWLINE);
    if i == |s| {
      NoLine(s);
    } else {
      FirstOfTail(s, i);
      if i + 1 < |s| {
        NothingCarried(s[i + 1..]);
      } else {
        IndexOfNothing();
        NoLine([]);
      }
    }
  }

  /** Once the counter is ahead of the file position the end of the range is never reached. */
  lemma {:induction false} AheadNeverEnds(bytes: seq<byte>, soff: nat, off: nat, pos: nat, eoff: int)
    requires soff <= pos < eoff <= |bytes| && pos < off
    ensures FinalPos(bytes, soff, off, pos, eoff) < eoff
    decreases |bytes| - pos
  {
    hide FinalPos, Tail;
    var carry := |Tail(bytes[soff..pos])|;
    var n := Min(ToRead(off, carry, eoff), |bytes| - pos);
    if off < eoff {
      OneRead(bytes, soff, off, pos, eoff, carry);
      if n > 0 {
        AheadNeverEnds(bytes, soff, off + carry + n, pos + n, eoff);
      }
    } else {
      StopsAtEnd(bytes, soff, off, pos, eoff);
    }
  }

  lemma StopsAtEnd(bytes: seq<byte>, soff: nat, off: nat, pos: nat, eoff: int)
    requires soff <= pos <= |bytes| && off >= eoff
    ensures FinalPos(bytes, soff, off, pos, eoff) == pos
  {
  }

  /** The position `j` steps of `e` bytes before the end of the range. */
  function Back(eoff: nat, j: nat, e: nat): int {
    eoff - j * e
  }

  predicate LineEndsAt(bytes: seq<byte>, p: int) {
    0 < p <= |bytes| && bytes[p - 1] == NEWLINE
  }

  /** `e` divides the last `r` bytes of the range, and a line ends at each of these steps but the last two. */
  predicate StepsOnLines(bytes: seq<byte>, eoff: nat, r: nat, e: nat) {
    e > 0 && r % e == 0 && forall j :: 2 <= j <= r / e ==> LineEndsAt(bytes, Back(eoff, j, e))
  }

  lemma DivideLess(r: nat, e: nat)
    requires 0 < e <= r
    ensures (r - e) / e == r / e - 1 && (r - e) % e == r % e
  {
    var q, x := r / e, r % e;
    assert r == q * e + x;
    Times(q, 1, e);
    DivisionIs(r - e, q - 1, e, x);
  }

  /** Less than one step is no step. */
  lemma DivideSmall(x: nat, e: nat)
    requires x < e
    ensures x / e == 0 && x % e == x
  {
    DivisionIs(x, 0, e, x);
  }

  lemma StepsSplit(bytes: seq<byte>, eoff: nat, r: nat, e: nat)
    requires 0 < e < r < eoff <= |bytes|
    ensures StepsOnLines(bytes, eoff, r, e)
            <==> bytes[eoff - r - 1] == NEWLINE && StepsOnLines(bytes, eoff, r - e, e)
  {
    DivideLess(r, e);
    if r % e == 0 {
      var k := r / e;
      assert r == k * e && Back(eoff, k, e) == eoff - r;
      if r - e < e {
        DivideSmall(r - e, e);
      }
      assert k >= 2;
    }
  }

  /** With the counter right and `r` < 512 bytes left, each read takes eoff % 512 bytes. */
  lemma {:induction false} Approach(bytes: seq<byte>, soff: nat, r: nat, eoff: nat)
    requires 0 < r < 512 && soff + r < eoff <= |bytes| && eoff - soff < BULK_BUF_SIZE
    ensures FinalPos(bytes, soff, eoff - r, eoff - r, eoff) == eoff <==> StepsOnLines(bytes, eoff, r, eoff % 512)
    decreases r
  {
    hide FinalPos, Tail, StepsOnLines;
    var pos, e := eoff - r, eoff % 512;
    var carry := |Tail(bytes[soff..pos])|;
    OneRead(bytes, soff, pos, pos, eoff, carry);
    NothingCarried(bytes[soff..pos]);
    ReadSize(pos, carry, eoff, r);
    if e == r {
      StopsAtEnd(bytes, soff, pos + carry + e, eoff, eoff);
      LastStep(bytes, eoff, r);
    } else if 0 < e < r {
      StepsSplit(bytes, eoff, r, e);
      if carry == 0 {
        Approach(bytes, soff, r - e, eoff);
      } else {
        AheadNeverEnds(bytes, soff, pos + carry + e, pos + e, eoff);
        NotOnLines(bytes, eoff, r, e);
      }
    } else {
      NoSteps(bytes, eoff, r, e);
    }
  }

  lemma ReadSize(pos: nat, carry: nat, eoff: nat, r: nat)
    requires 0 < r < 512 && pos + r == eoff && carry + r < BULK_BUF_SIZE
    ensures var e := eoff % 512;
            if 0 < e <= r then ToRead(pos, carry, eoff) == e else ToRead(pos, carry, eoff) <= 0
  {
  }

  lemma LastStep(bytes: seq<byte>, eoff: nat, r: nat)
    requires 0 < r < eoff <= |bytes|
    ensures StepsOnLines(bytes, eoff, r, r)
  {
    DivisionIs(r, 1, r, 0);
  }

  lemma NotOnLines(bytes: seq<byte>, eoff: nat, r: nat, e: nat)
    requires 0 < e < r < eoff <= |bytes| && bytes[eoff - r - 1] != NEWLINE
    ensures !StepsOnLines(bytes, eoff, r, e)
  {
    StepsSplit(bytes, eoff, r, e);
  }

  lemma NoSteps(bytes: seq<byte>, eoff: nat, r: nat, e: nat)
    requires 0 < r < eoff <= |bytes| && (e == 0 || e > r)
    ensures !StepsOnLines(bytes, eoff, r, e)
  {
    if e > 0 {
      DivideSmall(r, e);
    }
  }

  /** The condition on a range, from its two offsets and at most 511 bytes before its end: it starts on a
      512-byte boundary; or it is longer than the distance `d` to the next one, eoff % 512 divides `d`,
      and lines end where the last reads begin. */
  predicate ReadsToEnd(bytes: seq<byte>, soff: nat, eoff: nat)
    requires soff < eoff <= |bytes|
  {
    var d := 512 - soff % 512;
    soff % 512 == 0 || (soff + d < eoff && StepsOnLines(bytes, eoff, d, eoff % 512))
  }

  /** A range that fits the buffer is read to its end exactly under that condition. */
  lemma ReachesEnd(bytes: seq<byte>, soff: nat, eoff: nat)
    requires soff < eoff <= |bytes| && eoff - soff < BULK_BUF_SIZE
    ensures FinalPos(bytes, soff, soff, soff, eoff) == eoff <==> ReadsToEnd(bytes, soff, eoff)
  {
    hide FinalPos, Tail, StepsOnLines;
    if soff % 512 == 0 {
      AlignedRangeIsComplete(bytes, soff, eoff);
    } else {
      var d := 512 - soff % 512;
      assert bytes[soff..soff] == [];
      NoTail();
      OneRead(bytes, soff, soff, soff, eoff, 0);
      if soff + d < eoff {
        Approach(bytes, soff, d, eoff);
      }
    }
  }

  lemma NoTail()
    ensures Tail([]) == []
  {
  }

  /** The reader does not go past the end of the range. */
  lemma {:induction false} StaysInRange(bytes: seq<byte>, soff: nat, off: nat, pos: nat, eoff: int)
    requires soff <= pos <= |bytes| && pos <= off && pos <= eoff
    ensures FinalPos(bytes, soff, off, pos, eoff) <= eoff
    decreases |bytes| - pos
  {
    hide FinalPos, Tail;
    var carry := |Tail(bytes[soff..pos])|;
    var n := Min(ToRead(off, carry, eoff), |bytes| - pos);
    if off < eoff {
      OneRead(bytes, soff, off, pos, eoff, carry);
      if n > 0 {
        StaysInRange(bytes, soff, off + carry + n, pos + n, eoff);
      }
    } else {
      StopsAtEnd(bytes, soff, off, pos, eoff);
    }
  }

  /** Where the reads of a range begin when nothing is carried, and where they stop: the offsets alone
      decide. */
  function ReadPoints(pos: nat, eoff: nat): (ps: seq<nat>)
    ensures ps != [] && ps[0] == pos
    ensures pos <= eoff ==> forall i :: 0 <= i < |ps| ==> pos <= ps[i] <= eoff
    decreases eoff - pos
  {
    var n := ToRead(pos, 0, eoff);
    if pos >= eoff || n <= 0 then [pos] else [pos] + ReadPoints(pos + n, eoff)
  }

  /** How many bytes of an unfinished line are kept when the reader is at `p`. */
  function Carry(bytes: seq<byte>, soff: nat, p: nat): nat
    requires soff <= p <= |bytes|
  {
    |Tail(bytes[soff..p])|
  }

  /** The reads begin at the points `ps` but the last, which is `eoff`; each but the last read begins at a
      line start; and the last fits the buffer behind what is carried to it. */
  predicate CleanAt(bytes: seq<byte>, soff: nat, ps: seq<nat>, eoff: nat)
    requires ps != [] && forall i :: 0 <= i < |ps| ==> soff <= ps[i] <= |bytes|
  {
    var z := |ps| - 1;
    && ps[z] == eoff
    && (forall i :: 0 <= i < z - 1 ==> Carry(bytes, soff, ps[i]) == 0)
    && (z >= 1 ==> eoff - ps[z - 1] + Carry(bytes, soff, ps[z - 1]) < BULK_BUF_SIZE)
  }

  predicate CleanFrom(bytes: seq<byte>, soff: nat, pos: nat, eoff: nat)
    requires soff <= pos <= eoff <= |bytes|
  {
    CleanAt(bytes, soff, ReadPoints(pos, eoff), eoff)
  }

  /** A range of any length inside the file is read to its end exactly under that condition. */
  lemma {:induction false} ReachesEndClean(bytes: seq<byte>, soff: nat, pos: nat, eoff: nat)
    requires soff <= pos < eoff <= |bytes|
    ensures FinalPos(bytes, soff, pos, pos, eoff) == eoff <==> CleanFrom(bytes, soff, pos, eoff)
    decreases eoff - pos
  {
    hide FinalPos, Tail, CleanFrom;
    var carry := Carry(bytes, soff, pos);
    var n := ToRead(pos, carry, eoff);
    OneRead(bytes, soff, pos, pos, eoff, carry);
    if carry == 0 && n > 0 && pos + n < eoff {
      ReachesEndClean(bytes, soff, pos + n, eoff);
      CleanStep(bytes, soff, pos, eoff);
    } else {
      if n > 0 {
        if pos + n < eoff {
          AheadNeverEnds(bytes, soff, pos + carry + n, pos + n, eoff);
        } else {
          StopsAtEnd(bytes, soff, pos + carry + n, eoff, eoff);
        }
      }
      LastRead(bytes, soff, pos, eoff);
    }
  }

  /** A read that is not the last, with nothing carried. */
  lemma CleanStep(bytes: seq<byte>, soff: nat, pos: nat, eoff: nat)
    requires soff <= pos < eoff <= |bytes| && Carry(bytes, soff, pos) == 0
    requires var n := ToRead(pos, 0, eoff); n > 0 && pos + n < eoff
    ensures CleanFrom(bytes, soff, pos, eoff) <==> CleanFrom(bytes, soff, pos + ToRead(pos, 0, eoff), eoff)
  {
    hide Carry, ReadPoints, ToRead, CleanAt;
    NextPoint(pos, eoff);
    CleanCons(bytes, soff, pos, ReadPoints(pos + ToRead(pos, 0, eoff), eoff), eoff);
  }

  lemma CleanCons(bytes: seq<byte>, soff: nat, pos: nat, qs: seq<nat>, eoff: nat)
    requires soff <= pos <= |bytes| && Carry(bytes, soff, pos) == 0
    requires qs != [] && forall i :: 0 <= i < |qs| ==> soff <= qs[i] <= |bytes|
    requires qs[0] < eoff
    ensures forall i :: 0 <= i < |[pos] + qs| ==> soff <= ([pos] + qs)[i] <= |bytes|
    ensures CleanAt(bytes, soff, [pos] + qs, eoff) <==> CleanAt(bytes, soff, qs, eoff)
  {
    hide Carry;
    var ps := [pos] + qs;
    assert forall i :: 0 <= i < |qs| ==> ps[i + 1] == qs[i];
    if CleanAt(bytes, soff, ps, eoff) {
      forall i | 0 <= i < |qs| - 2
        ensures Carry(bytes, soff, qs[i]) == 0
      {
        assert qs[i] == ps[i + 1];
      }
    }
  }

  lemma NextPoint(pos: nat, eoff: nat)
    requires pos < eoff && ToRead(pos, 0, eoff) > 0
    ensures ReadPoints(pos, eoff) == [pos] + ReadPoints(pos + ToRead(pos, 0, eoff), eoff)
  {
  }

  /** Otherwise the range is clean only if this read takes all of it. */
  lemma LastRead(bytes: seq<byte>, soff: nat, pos: nat, eoff: nat)
    requires soff <= pos < eoff <= |bytes|
    requires var c := Carry(bytes, soff, pos);
             c != 0 || ToRead(pos, c, eoff) <= 0 || pos + ToRead(pos, c, eoff) == eoff
    ensures CleanFrom(bytes, soff, pos, eoff) <==> pos + ToRead(pos, Carry(bytes, soff, pos), eoff) == eoff
  {
    hide Carry;
    var n := ToRead(pos, 0, eoff);
    if n > 0 {
      var qs := ReadPoints(pos + n, eoff);
      NextPoint(pos, eoff);
      if pos + n == eoff {
        assert qs == [eoff];
      } else {
        assert |qs| == 1 ==> qs[0] == pos + n;
      }
    }
  }
}
