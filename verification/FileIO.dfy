// An open file descriptor: its bytes, its position, and the three system calls the log uses.
module FileIO {
  import opened Bytes

  class File {
    var bytes: seq<byte>
    var pos: nat
    // True when every read returns all the bytes it may (a regular file that is not interrupted);
    // false when reads may also be short or fail.
    const wholeReads: bool

    constructor (bytes: seq<byte>, wholeReads: bool)
      ensures this.bytes == bytes && this.wholeReads == wholeReads && pos == 0
    {
      this.bytes, this.wholeReads, this.pos := bytes, wholeReads, 0;
    }

    /** How many bytes a read of `n` could return at the current position. */
    function Available(n: int): (r: nat)
      requires n >= 0
      reads this
    {
      if |bytes| <= pos then 0 else Min(n, |bytes| - pos)
    }

    /** lseek(fd, off, SEEK_SET): a negative offset fails with EINVAL and leaves the position. */
    method SeekSet(off: int)
      modifies this`pos
      ensures pos == if off < 0 then old(pos) else off
    {
      if off >= 0 {
        pos := off;
      }
    }

    /** lseek(fd, 0, SEEK_END). */
    method SeekEnd() returns (r: nat)
      modifies this`pos
      ensures pos == r == |bytes|
    {
      pos := |bytes|;
      r := pos;
    }

    /** read(fd, buf + at, n): some of the available bytes, in place; -1 on an error. */
    method Read(buf: array<byte>, at: nat, n: nat) returns (len: int)
      requires at + n <= buf.Length
      modifies this`pos, buf
      ensures -1 <= len <= old(Available(n)) <= n
      ensures wholeReads ==> len == old(Available(n))
      ensures pos == old(pos) + if len > 0 then len else 0
      ensures len > 0 ==> pos <= |bytes| && buf[at..at + len] == bytes[old(pos)..pos]
      ensures forall i :: 0 <= i < buf.Length && !(at <= i < at + len) ==> buf[i] == old(buf[i])
    {
      var want: int := *;
      len := if wholeReads || want > Available(n) then Available(n) else if want < 0 then -1 else want;
      if len > 0 {
        forall i | at <= i < at + len {
          buf[i] := bytes[pos + i - at];
        }
        pos := pos + len;
      }
    }

    /** write(fd, data, |data|) on a descriptor opened with O_APPEND. */
    method Append(data: seq<byte>) returns (r: nat)
      modifies this
      ensures bytes == old(bytes) + data && r == |data|
    {
      bytes := bytes + data;
      pos := |bytes|;
      r := |data|;
    }
  }
}
