// The log reader and writer (logfile/lfs_read.c): opening, range selection, line output, appending.
module LfsContext {
  import opened Bytes
  import opened LogFormat
  import opened FileIO
  import opened LogSearch
  import opened LogRange
  import opened LineSplit

  const MAX_LOGLINE_SIZE: int := 32768

  lemma ScanRecord(s: seq<byte>, r: seq<byte>)
    requires IsRecord(r) && r <= s
    ensures ScanHex(s) == Some(TimeOf(r))
  {
    HexRunUnique(s, 8);
    assert s[..8] == r[..8];
  }

  /** read(fd, data, DATA_SIZE) at an offset, into a fresh zeroed buffer. */
  method ReadWindow(f: File, from: nat) returns (data: array<byte>, dataLen: nat)
    requires f.wholeReads
    modifies f`pos
    ensures fresh(data) && data.Length == DATA_SIZE + 1 && dataLen <= DATA_SIZE
    ensures data[..dataLen] == Window(f.bytes, from)
    ensures f.pos == from + dataLen
  {
    data := new byte[DATA_SIZE + 1](_ => NUL);
    f.SeekSet(from);
    var n := f.Read(data, 0, DATA_SIZE);
    dataLen := n;
  }

  /** The last DATA_SIZE bytes of a file, or all of a shorter one. */
  function LastWindow(bytes: seq<byte>): seq<byte> {
    Window(bytes, if |bytes| >= DATA_SIZE then |bytes| - DATA_SIZE else 0)
  }

  lemma LastRecordInWindow(log: Log, w: seq<byte>)
    requires WellFormed(log) && w == LastWindow(Flatten(log))
    ensures var r := log[Last(log)];
            && |r| <= |w| && w[|w| - |r|..] == r
            && (|r| < |w| ==> w[|w| - 1 - |r|] == NEWLINE)
            && Start(log, Last(log)) == |Flatten(log)| - |r|
  {
    hide Flatten, IsRecord;
    var z, bytes := Last(log), Flatten(log);
    var r := log[z];
    FlattenSize(log);
    RecordBytes(log, z);
    LongEnough(log);
    EndOfEnd(bytes, w, r);
    if |r| < |w| {
      assert z > 0;
      ClosingNewline(log, z - 1);
    }
  }

  lemma LongEnough(log: Log)
    requires WellFormed(log)
    ensures 10 <= |log[Last(log)]| <= MAX_RECORD && Start(log, |log|) == Start(log, Last(log)) + |log[Last(log)]|
  {
  }

  lemma ClosingNewline(log: Log, k: nat)
    requires WellFormed(log) && k < |log|
    ensures 0 < Start(log, k + 1) <= |Flatten(log)| && Flatten(log)[Start(log, k + 1) - 1] == NEWLINE
  {
    RecordByte(log, k, |log[k]| - 1);
  }

  lemma EndOfEnd(bytes: seq<byte>, w: seq<byte>, r: seq<byte>)
    requires |r| <= |bytes| && bytes[|bytes| - |r|..|bytes|] == r && |r| <= DATA_SIZE && w == LastWindow(bytes)
    ensures |r| <= |w| <= |bytes| && w == bytes[|bytes| - |w|..] && w[|w| - |r|..] == r
    ensures |r| < |w| ==> w[|w| - 1 - |r|] == bytes[|bytes| - 1 - |r|]
  {
  }

  /** The length of the last line of a window, scanned backwards from the byte before its end. */
  method LastLineLength(data: array<byte>, dataLen: nat, ghost w: seq<byte>) returns (i: nat)
    requires 1 <= dataLen < data.Length && w == data[..dataLen]
    ensures 1 <= i <= |w|
    ensures NEWLINE !in w[|w| - i..|w| - 1]
    ensures i < |w| ==> w[|w| - 1 - i] == NEWLINE
    ensures data[dataLen - i..dataLen] == w[|w| - i..]
  {
    i := 1;
    while i < dataLen && data[dataLen - 1 - i] != NEWLINE
      invariant 1 <= i <= dataLen
      invariant forall j :: dataLen - i <= j < dataLen - 1 ==> data[j] != NEWLINE
    {
      i := i + 1;
    }
  }

  lemma LastLineIsRecord(w: seq<byte>, r: seq<byte>, i: nat)
    requires IsRecord(r) && |r| <= |w| && w[|w| - |r|..] == r
    requires |r| < |w| ==> w[|w| - 1 - |r|] == NEWLINE
    requires 1 <= i <= |w| && NEWLINE !in w[|w| - i..|w| - 1]
    requires i < |w| ==> w[|w| - 1 - i] == NEWLINE
    ensures i == |r|
  {
    assert forall j :: 0 <= j < |r| ==> w[|w| - |r| + j] == w[|w| - |r|..][j] == r[j];
    assert forall j :: |w| - i <= j < |w| - 1 ==> w[j] == w[|w| - i..|w| - 1][j - (|w| - i)];
  }

  /** Scanning back from the end of the last window finds the last record. */
  lemma LastRecordFound(log: Log, w: seq<byte>, i: nat)
    requires WellFormed(log) && w == LastWindow(Flatten(log))
    requires 1 <= i <= |w| && NEWLINE !in w[|w| - i..|w| - 1]
    requires i < |w| ==> w[|w| - 1 - i] == NEWLINE
    ensures ScanHex(w[|w| - i..]) == Some(Time(log, Last(log)))
    ensures |Flatten(log)| - i == Start(log, Last(log))
  {
    hide Flatten, ScanHex, TimeOf, LastWindow;
    var r := log[Last(log)];
    LastRecordInWindow(log, w);
    LastLineIsRecord(w, r, i);
    ScanRecord(r, r);
  }

  /** The first half of init_lfs: the last record, found backwards from the end of the file. */
  method LastRecord(f: File, size: nat, ghost log: Log) returns (lt: nat, loff: int)
    requires f.wholeReads && WellFormed(log) && f.bytes == Flatten(log) && size == |f.bytes|
    modifies f`pos
    ensures lt == Time(log, Last(log)) && loff == Start(log, Last(log))
  {
    hide Flatten, TimeOf, ScanHex;
    var data, dataLen := ReadWindow(f, if size >= DATA_SIZE then size - DATA_SIZE else 0);
    loff := f.pos;
    ghost var w := data[..dataLen];
    LastRecordInWindow(log, w);
    var i := LastLineLength(data, dataLen, w);
    LastRecordFound(log, w, i);
    lt := ScanHex(data[dataLen - i..dataLen]).value;
    loff := loff - i;
  }

  /** The second half of init_lfs: the first record. */
  method FirstRecord(f: File, ghost log: Log) returns (ft: nat)
    requires f.wholeReads && WellFormed(log) && f.bytes == Flatten(log)
    modifies f`pos
    ensures ft == Time(log, 0)
  {
    var data, dataLen := ReadWindow(f, 0);
    ghost var q := log[0];
    FirstRecordInWindow(log, data[..dataLen]);
    assert forall j :: 0 <= j < |q| ==> data[j] == data[..dataLen][j] == q[j];
    var i := 1;
    while i < dataLen && data[i] != NEWLINE
      invariant 1 <= i < |q|
    {
      i := i + 1;
    }
    assert data[..i + 1] == q;
    ScanRecord(q, q);
    ft := ScanHex(data[..i + 1]).value;
  }

  class Lfs {
    const fd: File
    const buf: array<byte>
    var foff: int
    var loff: int
    var ft: nat
    var lt: nat
    var fileSize: nat
    var st: nat
    var et: nat
    var soff: int
    var eoff: int

    /** The context describes the file of `log`. */
    ghost predicate Indexes(log: Log)
      reads this, fd
    {
      && WellFormed(log)
      && buf.Length == BULK_BUF_SIZE + 1
      && fd.bytes == Flatten(log)
      && foff == 0 && ft == Time(log, 0)
      && loff == Start(log, Last(log)) && lt == Time(log, Last(log))
      && fileSize == |fd.bytes|
    }

    /** init_lfs: finds the first and last record of a well-formed log of any number of records. */
    constructor Init(f: File, ghost log: Log)
      requires f.wholeReads && WellFormed(log) && f.bytes == Flatten(log)
      modifies f`pos
      ensures fd == f && fresh(buf)
      ensures Indexes(log)
    {
      fd := f;
      buf := new byte[BULK_BUF_SIZE + 1](_ => NUL);
      st, et, soff, eoff := 0, 0, 0, 0;
      new;
      var size := f.SeekEnd();
      fileSize := size;
      lt, loff := LastRecord(f, size, log);
      foff := 0;
      ft := FirstRecord(f, log);
    }

    /** The first half of filter1: the search for `st`. */
    method FindStart(ghost log: Log)
      requires Indexes(log) && Increasing(log) && fd.wholeReads
      modifies this`soff, fd`pos
      ensures Indexes(log) && soff == StartOffset(log, st)
    {
      hide Flatten, IsRecord, TimeOf;
      if st < ft {
        soff := foff;
        assert FirstAtLeast(log, st) == 0;
      } else {
        var mst, depth, count;
        ghost var k;
        soff, mst, depth, count, k := GetSeqPosition(fd, st, ft, lt, foff, loff, 0, 0, 0, log, 0, Last(log));
      }
    }

    /** The second half of filter1: the search for `et`, and where it hits, the search for `et + 1`. */
    method FindEnd(ghost log: Log)
      requires Indexes(log) && Increasing(log) && fd.wholeReads && et <= ULONG_MAX
      modifies this`eoff, fd`pos
      ensures Indexes(log) && eoff == EndOffset(log, et)
    {
      hide Flatten, IsRecord, TimeOf, Frugal, LeastAtLeast, FirstFrom, EndOffset, TakesLast, FirstAtLeast;
      ghost var z := Last(log);
      var met, depth, count := 0, 0, 0;
      ghost var k;
      if et > lt {
        eoff, met := fileSize, et;
      } else if et >= lt {
        eoff, met := loff, lt;
      } else {
        eoff, met, depth, count, k := GetSeqPosition(fd, et, ft, lt, foff, loff, met, 0, 0, log, 0, z);
      }
      FlattenSize(log);
      TimesAreSmall(log);
      EndCases(log, et);
      if met == lt {
        eoff := fileSize;
      } else if met == et {
        var next := if et == ULONG_MAX then 0 else et + 1;
        eoff, met, depth, count, k := GetSeqPosition(fd, next, ft, lt, foff, loff, met, 0, 0, log, 0, z);
      }
    }

    /** filter1: the two offsets of a time range. */
    method Filter1(st: nat, et: nat, ghost log: Log)
      requires Indexes(log) && Increasing(log) && fd.wholeReads
      requires et <= ULONG_MAX
      modifies this`st, this`et, this`soff, this`eoff, fd`pos
      ensures Indexes(log) && this.st == st && this.et == et
      ensures soff == StartOffset(log, st) && eoff == EndOffset(log, et)
      ensures
        var got := RangeBytes(fd.bytes, soff, eoff);
        && (got == Flatten(Selection(log, st, et)) <==> OffsetsReach(log, st, et))
        && (got == Flatten(InRange(log, st, et, |log|)) <==>
            OffsetsReach(log, st, et) && !(TakesLast(log, et) && st <= lt))
    {
      hide Flatten, InRange, Selection, RangeBytes, IsRecord, TimeOf, StartOffset, EndOffset;
      this.st, this.et := st, et;
      FindStart(log);
      FindEnd(log);
      RangeSelects(log, st, et);
    }

    /** The innermost loop of filter2: the length of the line at `pos`, without its newline. */
    method LineLength(pos: nat, len: nat, ghost rest: seq<byte>) returns (j: nat)
      requires pos < len < buf.Length && rest == buf[pos..len] && buf[len] == NUL
      ensures j == IndexOf(rest, NEWLINE)
      ensures buf[pos + j] == NEWLINE <==> j < |rest|
    {
      j := 0;
      while buf[pos + j] != NEWLINE && pos + j < len
        invariant 0 <= j <= |rest|
        invariant forall k :: 0 <= k < j ==> rest[k] != NEWLINE
        decreases len - pos - j
      {
        j := j + 1;
      }
      if j < |rest| {
        IndexOfUnique(rest, NEWLINE, j);
      }
    }

    /** The next complete line at `pos`, copied to `msg` (DATA_SIZE bytes and a NUL), or none. */
    method TakeLine(pos: nat, len: nat, ghost rest: seq<byte>) returns (msg: Option<seq<byte>>)
      requires pos < len < buf.Length && rest == buf[pos..len] && buf[len] == NUL && ShortLines(rest)
      ensures msg == None ==> Lines(rest) == [] && Tail(rest) == rest
      ensures msg.Some? ==> LineThenRest(rest, msg.value)
    {
      var j := LineLength(pos, len, rest);
      if buf[pos + j] != NEWLINE {
        return None;
      }
      assert buf[pos..pos + j + 1] == buf[pos..len][..j + 1];
      return Some(buf[pos..pos + j + 1]);
    }

    /** The inner loop of filter2 on buf[..len]: hands over the complete lines and moves the
        unfinished one to the front of the buffer. */
    method EmitLines(len: nat, ghost chunk: seq<byte>) returns (lines: seq<seq<byte>>, unbufBytes: nat)
      requires 0 < len < buf.Length && chunk == buf[..len] && buf[len] == NUL
      requires ShortLines(chunk)
      modifies buf
      ensures lines == Lines(chunk)
      ensures unbufBytes <= len && buf[..unbufBytes] == Tail(chunk)
    {
      hide Lines, Tail, ShortLines;
      var pos := 0;
      ghost var rest := chunk;
      lines, unbufBytes := [], 0;
      while pos < len
        invariant 0 <= pos <= len && |rest| == len - pos && rest == buf[pos..len] && buf[len] == NUL
        invariant Lines(chunk) == lines + Lines(rest) && Tail(chunk) == Tail(rest) && ShortLines(rest)
      {
        var msg := TakeLine(pos, len, rest);
        if msg == None {
          forall k | 0 <= k < len - pos {
            buf[k] := buf[pos + k];
          }
          assert buf[..len - pos] == rest;
          unbufBytes := len - pos;
          return;
        }
        rest := rest[|msg.value|..];
        assert lines + ([msg.value] + Lines(rest)) == (lines + [msg.value]) + Lines(rest);
        lines := lines + [msg.value];
        pos := pos + |msg.value|;
      }
      NoNewlineNoLines(rest);
    }

    /** One read of filter2 behind the carried bytes, and the closing NUL. */
    method Fill(unbufBytes: nat, toRead: nat) returns (len: int, ghost chunk: seq<byte>)
      requires unbufBytes + toRead < BULK_BUF_SIZE == buf.Length - 1
      modifies buf, fd`pos
      ensures len <= 0 ==> fd.pos == old(fd.pos) && buf[..unbufBytes] == old(buf[..unbufBytes])
      ensures fd.wholeReads ==> len == old(fd.Available(toRead))
      ensures len > 0 ==>
                && len <= toRead && fd.pos == old(fd.pos) + len <= |fd.bytes|
                && chunk == old(buf[..unbufBytes]) + fd.bytes[old(fd.pos)..fd.pos]
                && chunk == buf[..unbufBytes + len] && buf[unbufBytes + len] == NUL
    {
      ghost var carry := buf[..unbufBytes];
      len := fd.Read(buf, unbufBytes, toRead);
      chunk := carry;
      if len > 0 {
        buf[unbufBytes + len] := NUL;
        chunk := carry + fd.bytes[old(fd.pos)..fd.pos];
        assert buf[unbufBytes..unbufBytes + len] == fd.bytes[old(fd.pos)..fd.pos];
        assert buf[..unbufBytes + len] == buf[..unbufBytes] + buf[unbufBytes..unbufBytes + len];
        assert buf[..unbufBytes] == carry;
      }
    }

    /** One iteration of filter2's outer loop; `more` is false where the original breaks. */
    method ReadChunk(off: nat, carried: nat, lines: seq<seq<byte>>, ghost p: nat)
      returns (more: bool, off': nat, unbufBytes: nat, lines': seq<seq<byte>>)
      requires buf.Length == BULK_BUF_SIZE + 1 && 0 <= soff && carried < BULK_BUF_SIZE && off < eoff
      requires soff <= p == fd.pos <= off
      requires soff <= |fd.bytes| ==>
                 && ShortLines(fd.bytes[soff..])
                 && p <= |fd.bytes| && Holds(fd.bytes, soff, p, lines, buf[..carried])
      modifies buf, fd`pos
      ensures more <==> fd.pos != p
      ensures Advances(fd.wholeReads, |fd.bytes|, off, carried, eoff, p, fd.pos, off')
      ensures if more then unbufBytes < BULK_BUF_SIZE && Holds(fd.bytes, soff, fd.pos, lines', buf[..unbufBytes])
              else lines' == lines && unbufBytes == carried
    {
      hide Lines, Tail, ShortLines, Holds;
      more, off', unbufBytes, lines' := false, off, carried, lines;
      var toRead := Min(BULK_BUF_SIZE - carried - 1, eoff - off);
      if off % 512 != 0 {
        toRead := toRead - (512 - off % 512);
      }
      assert toRead == ToRead(off, carried, eoff);
      if toRead <= 0 {
        return;
      }
      ghost var carry := buf[..carried];
      var len;
      ghost var chunk;
      len, chunk := Fill(carried, toRead);
      if len <= 0 {
        return;
      }
      MoreBytes(fd.bytes, soff, p, p + len, lines, carry, chunk);
      var ls;
      ls, unbufBytes := EmitLines(carried + len, chunk);
      more, off', lines' := true, off + carried + len, lines + ls;
    }

    /** filter2: the lines handed to the filter, whatever the sizes that `read` returns. They are the
        complete lines of the bytes up to `end`, a position in the range; with whole reads `end` is
        the position that `FinalPos` computes. */
    method Filter2() returns (lines: seq<seq<byte>>, ghost end: nat)
      requires buf.Length == BULK_BUF_SIZE + 1 && 0 <= soff
      requires soff <= |fd.bytes| ==> ShortLines(fd.bytes[soff..])
      modifies buf, fd`pos
      ensures soff > |fd.bytes| ==> lines == []
      ensures soff <= |fd.bytes| ==>
                && soff <= end <= |fd.bytes| && (end <= eoff || end == soff)
                && lines == Lines(fd.bytes[soff..end])
                && lines <= Lines(RangeBytes(fd.bytes, soff, eoff))
                && (fd.wholeReads ==> end == FinalPos(fd.bytes, soff, soff, soff, eoff))
    {
      hide FinalPos, Tail, ShortLines;
      ghost var bytes, inside := fd.bytes, soff <= |fd.bytes|;
      ghost var goal := if inside then FinalPos(bytes, soff, soff, soff, eoff) else 0;
      var unbufBytes, off, more := 0, soff, true;
      lines, end := [], soff;
      fd.SeekSet(soff);
      assert inside ==> bytes[soff..soff] == [];
      while more && off < eoff
        invariant 0 <= unbufBytes < BULK_BUF_SIZE && soff <= end == fd.pos <= off
        invariant !inside ==> lines == [] && end == soff
        invariant inside ==> end <= |bytes| && (end <= eoff || end == soff)
        invariant inside ==>
                    || Holds(bytes, soff, end, lines, buf[..unbufBytes])
                    || (!more && lines == Lines(bytes[soff..end]))
        invariant inside && fd.wholeReads ==> StopsAt(bytes, soff, off, end, eoff, more, goal)
        decreases more, eoff - off
      {
        ghost var carry, was := unbufBytes, off;
        more, off, unbufBytes, lines := ReadChunk(off, unbufBytes, lines, end);
        if inside && fd.wholeReads {
          FinalPosStep(bytes, soff, was, end, eoff, carry, fd.pos, off, goal);
        }
        end := fd.pos;
      }
      if inside && fd.wholeReads && more {
        StopsAtEnd(bytes, soff, off, end, eoff);
      }
      if inside {
        EmittedIsPrefix(bytes, soff, end, eoff);
      }
    }
  }

  /** The arithmetic of one iteration that moves the file position from `p` to `q`. */
  predicate Advances(whole: bool, size: nat, off: nat, carried: nat, eoff: int, p: nat, q: nat, off': nat) {
    var toRead := ToRead(off, carried, eoff);
    if p == q then off' == off && (whole ==> toRead <= 0 || p >= size)
    else
      && p < q <= size
      && off' == off + carried + q - p
      && q - p <= toRead
      && (whole ==> q - p == Min(toRead, size - p))
  }

  /** With whole reads: the position `goal` is where the reader stops from here. */
  ghost predicate StopsAt(bytes: seq<byte>, soff: nat, off: nat, pos: nat, eoff: int, more: bool, goal: nat)
    requires soff <= pos <= |bytes|
  {
    goal == if more then FinalPos(bytes, soff, off, pos, eoff) else pos
  }

  lemma EmittedIsPrefix(bytes: seq<byte>, soff: nat, end: nat, eoff: int)
    requires soff <= end <= |bytes| && (end <= eoff || end == soff)
    ensures Lines(bytes[soff..end]) <= Lines(RangeBytes(bytes, soff, eoff))
  {
    hide Lines, Tail;
    if soff < eoff {
      LinesOfPrefix(bytes[soff..Min(eoff, |bytes|)], end - soff);
      PartOfSlice(bytes, soff, end, Min(eoff, |bytes|));
    } else {
      NoNewlineNoLines(bytes[soff..end]);
    }
  }

  lemma FinalPosStep(bytes: seq<byte>, soff: nat, off: nat, p: nat, eoff: int, carry: nat, q: nat, off': nat, goal: nat)
    requires soff <= p <= |bytes| && carry == |Tail(bytes[soff..p])| && off < eoff
    requires Advances(true, |bytes|, off, carry, eoff, p, q, off')
    requires StopsAt(bytes, soff, off, p, eoff, true, goal)
    ensures q <= |bytes| && StopsAt(bytes, soff, off', q, eoff, p != q, goal)
  {
  }

  /** `msg` is the first line of `rest`; it fits its buffer, and the remainder is split next. */
  ghost predicate LineThenRest(rest: seq<byte>, msg: seq<byte>) {
    && 0 < |msg| <= Min(DATA_SIZE, |rest|)
    && Lines(rest) == [msg] + Lines(rest[|msg|..])
    && Tail(rest) == Tail(rest[|msg|..])
    && ShortLines(rest[|msg|..])
  }

  /** What the reader keeps at position `p`: the lines so far and the unfinished one. */
  ghost predicate Holds(bytes: seq<byte>, soff: nat, p: nat, lines: seq<seq<byte>>, carry: seq<byte>)
    requires soff <= p <= |bytes|
  {
    lines == Lines(bytes[soff..p]) && carry == Tail(bytes[soff..p])
  }

  lemma MoreBytes(
    bytes: seq<byte>, soff: nat, p: nat, q: nat, lines: seq<seq<byte>>, carry: seq<byte>, chunk: seq<byte>)
    requires soff <= p <= q <= |bytes| && Holds(bytes, soff, p, lines, carry)
    requires ShortLines(bytes[soff..]) && chunk == carry + bytes[p..q]
    ensures Holds(bytes, soff, q, lines + Lines(chunk), Tail(chunk)) && ShortLines(chunk)
  {
    hide Lines, Tail, ShortLines;
    assert bytes[soff..q] == bytes[soff..p] + bytes[p..q];
    LinesConcat(bytes[soff..p], bytes[p..q]);
    assert bytes[soff..] == bytes[soff..q] + bytes[q..];
    ShortConcat(bytes[soff..q], bytes[q..]);
    ShortConcat(bytes[soff..p], bytes[p..q]);
  }

  lemma FirstRecordInWindow(log: Log, w: seq<byte>)
    requires WellFormed(log) && w == Window(Flatten(log), 0)
    ensures log[0] <= w
  {
    RecordBytes(log, 0);
    assert Start(log, 1) == |log[0]|;
    assert Flatten(log)[..|log[0]|] == log[0];
    assert w[..|log[0]|] == log[0];
  }

  /** The end offset in the order in which the searches find it. */
  lemma EndCases(log: Log, et: nat)
    requires WellFormed(log) && Increasing(log)
    ensures var ft, lt, k, end := Time(log, 0), Time(log, Last(log)), FirstAtLeast(log, et), EndOffset(log, et);
            && (et < ft ==> end == if et == 0 && ft == 1 then 0 else -1)
            && (et == lt ==> end == Start(log, |log|))
            && (et > lt ==> end == if et < ULONG_MAX then LogSearch.PAST_END else if ft == 0 then 0 else -1)
            && (ft <= et < lt ==>
                  && k <= Last(log)
                  && end == if Time(log, k) == lt then Start(log, |log|)
                            else if Time(log, k) == et then Start(log, FirstAtLeast(log, et + 1))
                            else Start(log, k))
  {
    hide Flatten, IsRecord, TimeOf, FirstFrom, FirstAtLeast, TakesLast, Start;
    if Time(log, 0) <= et < Time(log, Last(log)) {
      MetAtEnd(log, et);
    }
  }

  /** The search for `et` ends on the last record exactly when `TakesLast` or `et` is its time. */
  lemma MetAtEnd(log: Log, et: nat)
    requires WellFormed(log) && Increasing(log)
    requires Time(log, 0) <= et < Time(log, Last(log))
    ensures var k := FirstAtLeast(log, et);
            && k <= Last(log)
            && (Time(log, k) == Time(log, Last(log)) <==> TakesLast(log, et))
            && FirstAtLeast(log, et + 1) == if Time(log, k) == et then k + 1 else k
  {
    FirstSplits(log, et);
    FirstSplits(log, et + 1);
    var k := FirstAtLeast(log, et);
    if Time(log, k) == et {
      assert Time(log, k + 1) >= et + 1;
    } else {
      assert k == 0 || Time(log, k - 1) < et + 1;
    }
  }
}
