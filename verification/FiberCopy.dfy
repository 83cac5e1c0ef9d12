// Two fibers that copy a file through one shared buffer (eloop/fiberSample.c).
module FiberCopy {
  import opened Bytes

  const BUFFER_SIZE: nat := 32768
  const DWORD: int := 0x1_0000_0000

  /** Which fiber runs. */
  datatype Fiber = Primary | Reader | Writer

  /** Why a fiber left its loop. */
  datatype Ending = NotYet | EndOfFile | ReadError | WriteError

  /** A count in a 32-bit counter. */
  function Wrapped(n: nat): nat {
    n % DWORD
  }

  lemma AddModulo(a: nat, b: nat)
    ensures Wrapped(Wrapped(a) + b) == Wrapped(a + b)
  {
  }

  lemma ZeroWrapped()
    ensures Wrapped(0) == 0
  {
  }

  class Copy {
    const source: seq<byte>
    const buffer: array<byte>
    var current: Fiber
    var pos: nat              // bytes read from the source
    var dest: seq<byte>
    var bytesRead: nat        // g_dwBytesRead
    var readTotal: nat        // dwBytesProcessed of the read fiber
    var writeTotal: nat       // dwBytesProcessed of the write fiber, meaningless before it first runs
    var writerStarted: bool
    var ending: Ending

    /** What holds at every switch of fibers. */
    ghost predicate Valid()
      reads this, buffer
    {
      && buffer.Length == BUFFER_SIZE
      && bytesRead <= Min(BUFFER_SIZE, pos) && pos <= |source|
      && readTotal == Wrapped(pos)
      && (writerStarted ==> writeTotal == Wrapped(|dest|))
      && (writerStarted || dest == [])
      && match current
         case Reader => ending == NotYet && dest == source[..pos] && (pos == 0 || writerStarted)
         case Writer => ending == NotYet && Pending()
         case Primary =>
           match ending
           case NotYet => false
           case EndOfFile => pos == |source| && dest == source && (source == [] || writerStarted)
           case ReadError => dest == source[..pos]
           case WriteError => writerStarted && Pending()
    }

    /** The buffer holds the bytes that were read and are not yet written. */
    ghost predicate Pending()
      requires bytesRead <= pos <= |source| && bytesRead <= buffer.Length
      reads this`pos, this`bytesRead, this`dest, buffer
    {
      && bytesRead > 0
      && buffer[..bytesRead] == source[pos - bytesRead..pos]
      && dest == source[..pos - bytesRead]
    }

    /** The read fiber is entered first; the other counter holds whatever the heap block held. */
    constructor (source: seq<byte>, garbage: nat)
      ensures Valid() && current == Reader && this.source == source && pos == 0
    {
      this.source := source;
      buffer := new byte[BUFFER_SIZE](_ => NUL);
      current, pos, dest, bytesRead := Reader, 0, [], 0;
      readTotal, writeTotal, writerStarted, ending := 0, garbage, false, NotYet;
    }

    /** ReadFile: fails, or reads at least one byte unless the source is at its end. */
    method ReadFile() returns (ok: bool)
      requires Valid() && current == Reader
      modifies buffer, this`pos, this`bytesRead
      ensures ok ==>
                && bytesRead <= BUFFER_SIZE && pos == old(pos) + bytesRead <= |source|
                && (bytesRead == 0 <==> old(pos) == |source|)
                && buffer[..bytesRead] == source[old(pos)..pos]
      ensures !ok ==> pos == old(pos) && bytesRead == old(bytesRead)
    {
      ok := *;
      if ok {
        var n: int := *;
        var most := if |source| - pos < BUFFER_SIZE then |source| - pos else BUFFER_SIZE;
        bytesRead := if n > most then most else if n >= 1 then n else if most > 0 then 1 else 0;
        assert bytesRead <= most && (bytesRead == 0 <==> most == 0);
        var chunk := source[pos..pos + bytesRead];
        forall i | 0 <= i < bytesRead {
          buffer[i] := chunk[i];
        }
        assert buffer[..bytesRead] == chunk;
        pos := pos + bytesRead;
      }
    }

    /** One turn of the read fiber: from its resumption to its next switch. */
    method ReadTurn()
      requires Valid() && current == Reader
      modifies this, buffer
      ensures Valid() && pos >= old(pos)
      ensures current == Writer ==> pos > old(pos) && dest == old(dest)
      ensures current == Primary ==> ending == EndOfFile || ending == ReadError
      ensures current != Reader
    {
      hide Wrapped;
      var ok := ReadFile();
      if !ok {
        current, ending := Primary, ReadError;
      } else if bytesRead == 0 {
        current, ending := Primary, EndOfFile;
      } else {
        AddModulo(old(pos), bytesRead);
        readTotal := Wrapped(readTotal + bytesRead);
        current := Writer;
      }
    }

    lemma PendingJoins()
      requires bytesRead <= pos <= |source| && bytesRead <= buffer.Length && Pending()
      ensures dest + buffer[..bytesRead] == source[..pos]
    {
    }

    /** One turn of the write fiber; its first turn also resets its counter. Writes are whole or fail. */
    method WriteTurn()
      requires Valid() && current == Writer
      modifies this
      ensures Valid() && pos == old(pos)
      ensures current == Reader ==> dest == source[..pos]
      ensures current == Primary ==> ending == WriteError && dest == old(dest)
      ensures current != Writer
    {
      hide Wrapped, Pending;
      ZeroWrapped();
      PendingJoins();
      if !writerStarted {
        writeTotal, writerStarted := 0, true;
      }
      var ok := *;
      if !ok {
        current, ending := Primary, WriteError;
      } else {
        AddModulo(|dest|, bytesRead);
        dest := dest + buffer[..bytesRead];
        writeTotal := Wrapped(writeTotal + bytesRead);
        current := Reader;
      }
    }

    /** The whole run. At the end of the source the destination is the source, and both counters agree
        modulo 2^32 if anything was copied; after any failure it is a prefix. The hand-off ends. */
    method Run()
      requires Valid() && current == Reader && pos == 0
      modifies this, buffer
      ensures Valid() && current == Primary && ending != NotYet
      ensures dest <= source && readTotal == Wrapped(pos)
      ensures ending == EndOfFile ==>
                dest == source && readTotal == |source| % 0x1_0000_0000 && (source != [] ==> writeTotal == readTotal)
      ensures ending == WriteError ==>
                dest == source[..pos - bytesRead] && bytesRead > 0 && writeTotal == Wrapped(|dest|)
    {
      while current != Primary
        invariant Valid()
        decreases |source| - pos, if current == Writer then 2 else if current == Reader then 1 else 0
      {
        if current == Reader {
          ReadTurn();
        } else {
          WriteTurn();
        }
      }
    }
  }
}
