/** Buffered line reading over a file that others may be writing, for every buffer
    capacity and every pattern of short reads. */
module Bufio {
  import opened Lines
  import opened Wrappers
  import opened FileSystem
  import opened Transcript

  const MIN_READ_BUFFER_SIZE := 16

  datatype SliceError = ReadFailed(io: IOError) | BufferFull

  /** The file ended at the handle's offset, or before, at the last system call. */
  ghost predicate AtEnd(disk: Disk, file: File)
    reads disk, file
  {
    file.inode in disk.inodes && |disk.inodes[file.inode]| <= file.offset
  }

  /** From this offset on the content starts with these bytes. */
  predicate Holds(content: seq<byte>, at: nat, bytes: seq<byte>) {
    at + |bytes| <= |content| && forall i :: 0 <= i < |bytes| ==> bytes[i] == content[at + i]
  }

  /** After a read of these bytes, possibly none, that left the offset at `end`. */
  lemma HoldsRead(before: seq<byte>, after: seq<byte>, at: nat, bytes: seq<byte>, chunk: seq<byte>, end: nat)
    requires before <= after && Holds(before, at, bytes) && end == at + |bytes| + |chunk|
    requires chunk == [] || (end <= |after| && chunk == after[end - |chunk|..end])
    ensures Holds(after, at, bytes + chunk)
  {
    assert bytes + chunk == if chunk == [] then bytes else bytes + after[end - |chunk|..end];
  }

  lemma HoldsStill(before: seq<byte>, after: seq<byte>, at: nat, bytes: seq<byte>)
    requires before <= after && Holds(before, at, bytes)
    ensures Holds(after, at, bytes)
  {
  }

  lemma HoldsFront(content: seq<byte>, at: nat, front: seq<byte>, back: seq<byte>)
    requires Holds(content, at, front + back)
    ensures Holds(content, at, front)
  {
    assert forall i :: 0 <= i < |front| ==> front[i] == (front + back)[i];
  }

  lemma HoldsSlice(content: seq<byte>, from: nat, to: nat)
    requires from <= to <= |content|
    ensures Holds(content, from, content[from..to])
  {
  }

  /** Reads end or fail, and do not fail when reliable. */
  predicate MayFail(law: Law, err: Option<IOError>) {
    err.Some? ==> err.value == EOF || (err.value == Failed && !law.reliable)
  }

  function IOErrorOf(error: Option<SliceError>): Option<IOError> {
    if error.Some? && error.value.ReadFailed? then Some(error.value.io) else None
  }

  lemma RawLineAfter(front: seq<byte>, raw: seq<byte>)
    requires NL !in front && IsRawLine(raw)
    ensures IsRawLine(front + raw)
  {
  }

  class Reader {
    const buf: array<byte>
    var src: File
    var r: nat
    var w: nat
    var err: Option<IOError>  // pending read error

    ghost var base: nat         // file offset when the reader was last reset
    ghost var given: seq<byte>  // every byte handed to the caller since then

    ghost predicate Valid()
      reads this, src
    {
      && buf.Length >= MIN_READ_BUFFER_SIZE
      && r <= w <= buf.Length
      && src.offset == base + |given| + (w - r)
    }

    ghost function Unread(): seq<byte>
      requires r <= w <= buf.Length
      reads this, buf
    {
      buf[r..w]
    }

    /** Every byte read from the file since the last reset. */
    ghost function Taken(): seq<byte>
      requires r <= w <= buf.Length
      reads this, buf
    {
      given + Unread()
    }

    /** While files only grow, what was taken is what the file holds. */
    ghost predicate Coherent(disk: Disk)
      requires r <= w <= buf.Length
      reads this, src, disk, buf
    {
      && disk.Valid()
      && src.inode in disk.inodes
      && (disk.law.grows ==> Holds(disk.inodes[src.inode], base, Taken()))
    }

    constructor (file: File, size: nat)
      ensures Valid() && fresh(buf) && src == file && err.None?
      ensures base == file.offset && given == [] && r == w == 0
    {
      var capacity := if size < MIN_READ_BUFFER_SIZE then MIN_READ_BUFFER_SIZE else size;
      buf := new byte[capacity];
      src := file;
      r, w, err := 0, 0, None;
      base, given := file.offset, [];
    }

    method Reset(file: File)
      requires buf.Length >= MIN_READ_BUFFER_SIZE
      modifies this
      ensures Valid() && src == file && err.None?
      ensures base == file.offset && given == [] && r == w == 0
    {
      src := file;
      r, w, err := 0, 0, None;
      base, given := file.offset, [];
    }

    function Buffered(): nat
      requires Valid()
      reads this, src
    {
      w - r
    }

    /** Moves the unread bytes to the front of the buffer. */
    method Slide()
      requires Valid()
      modifies this`r, this`w, buf
      ensures Valid() && r == 0 && Unread() == old(Unread())
    {
      ghost var unread := Unread();
      if r > 0 {
        forall i | 0 <= i < w - r { buf[i] := buf[r + i]; }
        w, r := w - r, 0;
        assert buf[r..w] == unread;
      }
    }

    /** Slides, then reads once more. What is added to the buffer is what the file holds at
        the offset read from, at that moment. */
    method Fill(disk: Disk) returns (ghost answer: Answer)
      requires Valid() && Coherent(disk)
      requires w - r < buf.Length && err.None?
      modifies disk, this`r, this`w, this`err, src, buf
      ensures Valid() && Coherent(disk)
      ensures Evolves(disk.law, old(disk.inodes), disk.inodes)
      ensures disk.law.stays ==> disk.path == old(disk.path)
      ensures Unread() == old(Unread()) + BytesOf([answer])
      ensures src.offset == old(src.offset) || old(src.offset) < src.offset <= disk.limit
      ensures err.None? ==> src.offset <= |disk.inodes[src.inode]| && |Unread()| > |old(Unread())| &&
                            Unread() == old(Unread()) + disk.inodes[src.inode][old(src.offset)..src.offset]
      ensures err == Some(EOF) ==> AtEnd(disk, src)
      ensures MayFail(disk.law, err) && Reading(src.inode, old(src.offset), [answer], err)
      ensures disk.answers == old(disk.answers) + [answer]
    {
      hide Holds, Admits, Evolves, Honest, Reading, BytesOf;
      Slide();
      ghost var taken, content, offset := Taken(), disk.inodes[src.inode], src.offset;
      answer := ReadMore(disk);
      EvolvesAt(disk.law, old(disk.inodes), disk.inodes, src.inode);
      if disk.law.grows {
        HoldsRead(content, disk.inodes[src.inode], base, taken, BytesOf([answer]), src.offset);
      }
    }

    /** The read itself, into the free end of the buffer. */
    method ReadMore(disk: Disk) returns (ghost answer: Answer)
      requires Valid() && disk.Valid() && src.inode in disk.inodes && w < buf.Length && err.None?
      modifies disk, this`w, this`err, src, buf
      ensures Valid() && disk.Valid() && src.inode in disk.inodes
      ensures Evolves(disk.law, old(disk.inodes), disk.inodes)
      ensures disk.law.stays ==> disk.path == old(disk.path)
      ensures var chunk := BytesOf([answer]);
              && Unread() == old(Unread()) + chunk && Taken() == old(Taken()) + chunk
              && src.offset == old(src.offset) + |chunk| && (err.None? <==> chunk != [])
              && (chunk != [] ==> src.offset <= |disk.inodes[src.inode]| <= disk.limit &&
                                  chunk == disk.inodes[src.inode][old(src.offset)..src.offset])
      ensures err == Some(EOF) ==> AtEnd(disk, src)
      ensures MayFail(disk.law, err) && Reading(src.inode, old(src.offset), [answer], err)
      ensures disk.answers == old(disk.answers) + [answer]
    {
      hide Admits, Evolves, Honest, Reading, BytesOf;
      ghost var unread := Unread();
      var n, e := disk.Read(src, buf, w);
      answer := disk.answers[|disk.answers| - 1];
      OneRead(src.inode, old(src.offset), answer);
      ghost var chunk := buf[w..w + n];
      assert buf[r..w] == unread;
      w, err := w + n, e;
      assert Unread() == unread + chunk;
      Regroup(given, unread, chunk);
    }

    method IndexNL(from: nat) returns (i: Option<nat>)
      requires Valid() && r + from <= w
      requires forall k :: r <= k < r + from ==> buf[k] != NL
      ensures i.Some? ==> i.value < w - r && IsRawLine(Unread()[..i.value + 1])
      ensures i.None? <==> NL !in Unread()
    {
      var k := r + from;
      while k < w
        invariant r <= k <= w
        invariant forall j :: r <= j < k ==> buf[j] != NL
      {
        if buf[k] == NL {
          ghost var raw := Unread()[..k - r + 1];
          assert |raw| == k - r + 1 && raw[k - r] == NL;
          assert forall j :: 0 <= j < k - r ==> raw[j] == buf[r + j];
          assert Unread()[k - r] == NL;
          return Some(k - r);
        }
        k := k + 1;
      }
      assert forall j :: 0 <= j < w - r ==> Unread()[j] == buf[r + j];
      return None;
    }

    /** Hands over the next n unread bytes (a copy of the buffer's slice). */
    method Take(n: nat) returns (line: seq<byte>)
      requires Valid() && n <= w - r
      modifies this`r, this`given
      ensures Valid() && r == old(r) + n
      ensures line == old(Unread())[..n] && Unread() == old(Unread())[n..]
      ensures given == old(given) + line && Taken() == old(Taken())
    {
      ghost var unread, front := Unread(), given;
      line := buf[r..r + n];
      assert line == unread[..n] && buf[r + n..w] == unread[n..];
      r := r + n;
      given := given + line;
      assert given + Unread() == front + unread;
    }

    /** Fills until a newline is buffered, the file gives no more, or the buffer is full. */
    method FillToNewline(disk: Disk) returns (i: Option<nat>, ghost got: seq<Answer>)
      requires Valid() && Coherent(disk) && err.None?
      modifies disk, this`r, this`w, this`err, src, buf
      ensures Valid() && Coherent(disk)
      ensures Evolves(disk.law, old(disk.inodes), disk.inodes)
      ensures disk.law.stays ==> disk.path == old(disk.path)
      ensures Unread() == old(Unread()) + BytesOf(got)
      ensures src.offset == old(src.offset) || old(src.offset) < src.offset <= disk.limit
      ensures i.Some? ==> err.None? && i.value < w - r && IsRawLine(Unread()[..i.value + 1])
      ensures i.None? ==> NL !in Unread() && (err.Some? || w - r == buf.Length)
      ensures err == Some(EOF) ==> AtEnd(disk, src)
      ensures MayFail(disk.law, err) && Reading(src.inode, old(src.offset), got, err)
      ensures disk.answers == old(disk.answers) + got
    {
      hide Admits, Holds, Evolves, Honest, AtEnd, IsRawLine, Reading, BytesOf, MayFail;
      EvolvesSame(disk.law, disk.inodes);
      NoReads(src.inode, src.offset);
      NothingFailed(disk.law);
      got := [];
      i := IndexNL(0);
      while i.None? && err.None? && w - r < buf.Length
        invariant Valid() && Coherent(disk)
        invariant Evolves(disk.law, old(disk.inodes), disk.inodes)
        invariant disk.law.stays ==> disk.path == old(disk.path)
        invariant Unread() == old(Unread()) + BytesOf(got)
        invariant src.offset == old(src.offset) || old(src.offset) < src.offset <= disk.limit
        invariant i.Some? ==> err.None? && i.value < w - r && IsRawLine(Unread()[..i.value + 1])
        invariant i.None? ==> NL !in Unread()
        invariant err == Some(EOF) ==> AtEnd(disk, src)
        invariant MayFail(disk.law, err) && Reading(src.inode, old(src.offset), got, err)
        invariant disk.answers == old(disk.answers) + got
        decreases if err.None? then 1 else 0, buf.Length - (w - r)
      {
        ghost var inodes, before, answer := disk.inodes, got, ReadFailure;
        i, answer := FillAndSearch(disk);
        EvolvesOn(disk.law, old(disk.inodes), inodes, disk.inodes);
        ReadOnward(src.inode, old(src.offset), before, [answer], err);
        got := before + [answer];
        Regroup(old(Unread()), BytesOf(before), BytesOf([answer]));
      }
    }

    lemma NothingFailed(law: Law)
      ensures MayFail(law, None)
    {
    }

    /** Once more, when no newline is buffered: only the new bytes are searched. */
    method FillAndSearch(disk: Disk) returns (i: Option<nat>, ghost answer: Answer)
      requires Valid() && Coherent(disk) && err.None? && w - r < buf.Length && NL !in Unread()
      modifies disk, this`r, this`w, this`err, src, buf
      ensures Valid() && Coherent(disk)
      ensures Evolves(disk.law, old(disk.inodes), disk.inodes)
      ensures disk.law.stays ==> disk.path == old(disk.path)
      ensures Unread() == old(Unread()) + BytesOf([answer])
      ensures src.offset == old(src.offset) || old(src.offset) < src.offset <= disk.limit
      ensures err.None? ==> |Unread()| > |old(Unread())|
      ensures i.Some? ==> err.None? && i.value < w - r && IsRawLine(Unread()[..i.value + 1])
      ensures i.None? ==> NL !in Unread()
      ensures err == Some(EOF) ==> AtEnd(disk, src)
      ensures MayFail(disk.law, err) && Reading(src.inode, old(src.offset), [answer], err)
      ensures disk.answers == old(disk.answers) + [answer]
    {
      hide Admits, Holds, Evolves, Honest, AtEnd, IsRawLine, MayFail, BytesOf, Reading, Coherent;
      var s := w - r;
      ghost var unread := Unread();
      answer := Fill(disk);
      assert forall k :: 0 <= k < s ==> Unread()[k] == unread[k];
      assert forall k :: r <= k < r + s ==> buf[k] == unread[k - r];
      i := IndexNL(s);
      if err.Some? {
        EndGivesNothing(src.inode, old(src.offset), answer, err.value);
        assert Unread() == unread;
      }
    }

    /** Bytes up to and including the next newline, or everything buffered together with
        the reason why there is none. */
    method ReadSlice(disk: Disk) returns (line: seq<byte>, error: Option<SliceError>, ghost got: seq<Answer>)
      requires Valid() && Coherent(disk) && err.None?
      modifies disk, this`r, this`w, this`err, this`given, src, buf
      ensures Valid() && Coherent(disk) && err.None?
      ensures Evolves(disk.law, old(disk.inodes), disk.inodes)
      ensures disk.law.stays ==> disk.path == old(disk.path)
      ensures given == old(given) + line && old(Unread()) + BytesOf(got) == line + Unread()
      ensures error.None? ==> IsRawLine(line)
      ensures error.Some? ==> NL !in line && r == w
      ensures src.offset == old(src.offset) || old(src.offset) < src.offset <= disk.limit
      ensures error == Some(BufferFull) ==> |line| == buf.Length == w && line == buf[..]
      ensures error == Some(ReadFailed(EOF)) ==> AtEnd(disk, src)
      ensures MayFail(disk.law, IOErrorOf(error)) && Reading(src.inode, old(src.offset), got, IOErrorOf(error))
      ensures disk.answers == old(disk.answers) + got
    {
      hide Admits, Evolves, Holds, Honest, Reading, BytesOf;
      var i;
      i, got := FillToNewline(disk);
      error := if i.Some? then None else if err.Some? then Some(ReadFailed(err.value)) else Some(BufferFull);
      ghost var unread := Unread();
      line := Take(if i.Some? then i.value + 1 else w - r);
      assert line + Unread() == unread;
      err := None;
    }

    /** One call of ReadLine: a line without its terminator, or the front of a line that
        fills the buffer, or what is left when the file ends or a read fails. `raw` is what
        the call consumed; reads come to an end in the last case and in no other. */
    method ReadLine(disk: Disk)
      returns (line: seq<byte>, isPrefix: bool, error: Option<IOError>, ghost raw: seq<byte>,
               ghost got: seq<Answer>, ghost end: Option<IOError>)
      requires Valid() && Coherent(disk) && err.None?
      modifies disk, this`r, this`w, this`err, this`given, src, buf
      ensures Valid() && Coherent(disk) && err.None?
      ensures Evolves(disk.law, old(disk.inodes), disk.inodes)
      ensures disk.law.stays ==> disk.path == old(disk.path)
      ensures given == old(given) + raw && old(Unread()) + BytesOf(got) == raw + Unread()
      ensures LineRead(line, isPrefix, error, raw, Unread())
      ensures isPrefix ==> |raw| + |Unread()| == buf.Length
      ensures end.Some? <==> error.Some? || IsTail(isPrefix, error, raw)
      ensures error.Some? ==> error == end
      ensures ReadFailure in got ==> if raw == [] then error == Some(Failed) else IsTail(isPrefix, error, raw)
      ensures end == Some(EOF) ==> AtEnd(disk, src)
      ensures MayFail(disk.law, end) && Reading(src.inode, old(src.offset), got, end)
      ensures disk.answers == old(disk.answers) + got
    {
      hide Admits, Evolves, Holds, Honest, AtEnd, Coherent, Reading, BytesOf, MayFail;
      var slice, e;
      slice, e, got := ReadSlice(disk);
      line, isPrefix, error, raw, end := slice, false, None, slice, IOErrorOf(e);
      FailureIsLast(src.inode, old(src.offset), got, end);
      assert e.None? || e == Some(BufferFull) || e == Some(ReadFailed(e.value.io));
      if e == Some(BufferFull) {
        isPrefix := true;
        if line[|line| - 1] == CR {
          // "\r\n" may straddle the buffer: leave the '\r' for the next call.
          PutBack(disk);
          line := line[..|line| - 1];
          raw := line;
          assert slice == raw + Unread();
        }
      } else if |line| == 0 {
        error := Some(e.value.io);
      } else if line[|line| - 1] == NL {
        var drop := if |line| > 1 && line[|line| - 2] == CR then 2 else 1;
        line := line[..|line| - drop];
      }
    }

    method PutBack(ghost disk: Disk)
      requires Valid() && r > 0 && |given| > 0 && given[|given| - 1] == buf[r - 1] && Coherent(disk)
      modifies this`r, this`given
      ensures Valid() && Coherent(disk) && r == old(r) - 1 && given == old(given)[..|old(given)| - 1]
      ensures Unread() == [old(given)[|old(given)| - 1]] + old(Unread())
      ensures Taken() == old(Taken())
    {
      hide Holds;
      ghost var front, last, unread := given[..|given| - 1], given[|given| - 1], Unread();
      assert given == front + [last] && buf[r - 1..w] == [last] + unread;
      Regroup(front, [last], unread);
      r := r - 1;
      given := front;
    }

    /** Everything up to and including the next newline, however long. */
    method ReadBytes(disk: Disk) returns (bytes: seq<byte>, error: Option<IOError>, ghost got: seq<Answer>)
      requires Valid() && Coherent(disk) && err.None?
      modifies disk, this`r, this`w, this`err, this`given, src, buf
      ensures Valid() && Coherent(disk) && err.None?
      ensures Evolves(disk.law, old(disk.inodes), disk.inodes)
      ensures disk.law.stays ==> disk.path == old(disk.path)
      ensures given == old(given) + bytes && old(Unread()) + BytesOf(got) == bytes + Unread()
      ensures error.None? ==> IsRawLine(bytes)
      ensures error.Some? ==> NL !in bytes && r == w
      ensures error == Some(EOF) ==> AtEnd(disk, src)
      ensures MayFail(disk.law, error) && Reading(src.inode, old(src.offset), got, error)
      ensures disk.answers == old(disk.answers) + got
    {
      hide Admits, Holds, Evolves, Honest, AtEnd, IsRawLine, MayFail, Reading, BytesOf;
      var e: Option<SliceError>;
      bytes, e, got := ReadSlice(disk);
      while e == Some(BufferFull)
        invariant Valid() && Coherent(disk) && err.None?
        invariant Evolves(disk.law, old(disk.inodes), disk.inodes)
        invariant disk.law.stays ==> disk.path == old(disk.path)
        invariant given == old(given) + bytes && old(Unread()) + BytesOf(got) == bytes + Unread()
        invariant e.None? ==> IsRawLine(bytes)
        invariant e.Some? ==> NL !in bytes && r == w
        invariant e == Some(ReadFailed(EOF)) ==> AtEnd(disk, src)
        invariant MayFail(disk.law, IOErrorOf(e)) && Reading(src.inode, old(src.offset), got, IOErrorOf(e))
        invariant disk.answers == old(disk.answers) + got
        decreases if e == Some(BufferFull) then 1 else 0,
                  if src.offset <= disk.limit then disk.limit - src.offset else 0
      {
        ghost var front, inodes, before, unread, more := bytes, disk.inodes, got, Unread(), [];
        var further;
        further, e, more := ReadSlice(disk);
        bytes := bytes + further;
        EvolvesOn(disk.law, old(disk.inodes), inodes, disk.inodes);
        Regroup(old(given), front, further);
        Regroup(old(Unread()), BytesOf(before), BytesOf(more));
        Regroup(front, unread, BytesOf(more));
        Regroup(front, further, Unread());
        ReadOnward(src.inode, old(src.offset), before, more, IOErrorOf(e));
        got := before + more;
        if e.None? {
          RawLineAfter(front, further);
        }
      }
      error := if e.Some? then Some(e.value.io) else None;
    }
  }

  /** What one call of ReadLine may return, given what it consumed and left unread. */
  ghost predicate LineRead(line: seq<byte>, isPrefix: bool, error: Option<IOError>, raw: seq<byte>, unread: seq<byte>) {
    if error.Some? then
      !isPrefix && raw == line == unread == []
    else if isPrefix then
      raw != [] && NL !in raw && line == raw && (raw[|raw| - 1] == CR ==> unread != [] && unread[0] == CR)
    else if IsRawLine(raw) then
      IsTextOf(line, raw)
    else
      raw != [] && NL !in raw && line == raw && unread == []
  }

  /** A final piece that no newline ended. */
  ghost predicate IsTail(isPrefix: bool, error: Option<IOError>, raw: seq<byte>) {
    error.None? && !isPrefix && !IsRawLine(raw)
  }
}
