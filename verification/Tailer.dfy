/** The goroutine that turns a growing, truncated or rotated file into lines. */
module Tailer {
  import opened Lines
  import opened Wrappers
  import opened FileSystem
  import opened Contexts
  import opened Bufio
  import opened Transcript
  import opened TailLog
  import opened RunRecord

  const INITIAL_BACKOFF_DELAY := 250   // milliseconds
  const MAX_BACKOFF_DELAY := 5000
  const BACKOFF_FACTOR := 2
  const DEFAULT_BUFFER_SIZE := 4096

  datatype Next = Line(text: seq<byte>) | Ended(why: Stop)

  /** The delay before the next poll after n idle polls in a row. */
  function Backoff(n: nat): (delay: nat)
    ensures INITIAL_BACKOFF_DELAY <= delay <= MAX_BACKOFF_DELAY
  {
    if n == 0 then INITIAL_BACKOFF_DELAY
    else if Backoff(n - 1) * BACKOFF_FACTOR < MAX_BACKOFF_DELAY then Backoff(n - 1) * BACKOFF_FACTOR
    else MAX_BACKOFF_DELAY
  }

  /** It is doubled five times, from a quarter of a second to five seconds. */
  lemma {:induction false} BackoffExactly(n: nat)
    ensures Backoff(n) == match n
                          case 0 => 250
                          case 1 => 500
                          case 2 => 1000
                          case 3 => 2000
                          case 4 => 4000
                          case _ => 5000
  {
    if n > 0 {
      BackoffExactly(n - 1);
    }
  }

  /** The current file is on the disk, and holds what was delivered of it while files grow. */
  ghost predicate OnDisk(law: Law, log: Log, inodes: Inodes) {
    && Inode(log) in inodes
    && (law.grows ==> Opening(log) <= inodes[Inode(log)] && Holds(inodes[Inode(log)], RestartAt(log), SinceRestart(log)))
  }

  lemma StillOnDisk(law: Law, log: Log, before: Inodes, after: Inodes)
    requires OnDisk(law, log, before) && Evolves(law, before, after)
    ensures OnDisk(law, log, after)
  {
    EvolvesAt(law, before, after, Inode(log));
    if law.grows {
      HoldsStill(before[Inode(log)], after[Inode(log)], RestartAt(log), SinceRestart(log));
    }
  }

  class Tailer {
    const disk: Disk
    const ctx: Context
    const offset: nat      // lines to skip
    const bufferSize: nat
    var file: File?
    var reader: Reader?
    var currentBackoff: nat
    var eofCount: nat
    var lines: seq<seq<byte>>  // sent on the Lines channel
    ghost var log: Log
    ghost var parts: seq<Part>   // the disk's answers behind each event
    ghost var got: seq<Answer>   // reads since the last event
    ghost var poll: seq<Answer>  // of a poll that ended the run
    ghost var base: seq<Answer>  // answers before the run

    ghost predicate Backing()
      reads this
    {
      currentBackoff == Backoff(eofCount)
    }

    /** The reader stands exactly after what the log says was delivered plus `pending`. */
    ghost predicate Steady(pending: seq<byte>)
      reads this, reader, file, if reader != null then {reader.src, reader.buf} else {}
    {
      && Backing() && log != [] && Legal(disk.law, log) && lines == Texts(log)
      && file != null && reader != null && reader.src == file
      && reader.Valid() && reader.err.None?
      && file.inode == Inode(log)
      && reader.base == RestartAt(log)
      && reader.given == SinceRestart(log) + pending
    }

    ghost predicate Running(pending: seq<byte>)
      reads this, disk, reader, file, if reader != null then {reader.src, reader.buf} else {}
    {
      Steady(pending) && reader.Coherent(disk) && Placed()
    }

    ghost predicate Placed()
      reads this, disk
    {
      && (disk.law.stays ==> disk.path == Some(Inode(log)))
      && Inode(log) in disk.inodes
      && (disk.law.grows ==> Opening(log) <= disk.inodes[Inode(log)])
    }

    /** What is known of a run at any time, also after it ended: the log is legal, and while
        files only grow what was delivered since the last restart are bytes of the file. */
    ghost predicate Recorded()
      reads this, disk
    {
      && disk.Valid() && log != [] && Legal(disk.law, log) && lines == Texts(log)
      && Placed() && OnDisk(disk.law, log, disk.inodes)
    }

    /** The log as the disk's transcript tells it: what reads served and was not delivered is
        pending or unread. */
    ghost predicate Telling(pending: seq<byte>, end: Option<IOError>)
      reads this, disk, reader, if reader != null then {reader.buf} else {}
    {
      && Tale(disk.law, log, parts) && |log| == |parts| > 0 && disk.answers == base + (Told(parts) + got) && poll == []
      && ReadOnBy(log, parts, got, end)
      && reader != null && reader.r <= reader.w <= reader.buf.Length
      && Undelivered(log, parts) + BytesOf(got) == pending + reader.Unread()
    }

    ghost predicate Finished(why: Stop)
      reads this, disk, ctx
    {
      && Tale(disk.law, log, parts) && |log| == |parts| > 0 && disk.answers == base + (Told(parts) + (got + poll))
      && Ending(log, parts, got, poll, why, ctx.done)
    }

    /** Every call of ReadLine took bytes or came to an end. */
    ghost predicate Accounted(calls: nat, pending: nat)
      reads this, disk
    {
      calls + Ends(base) <= Volume(log) + pending + Ends(disk.answers)
    }

    lemma RunningIsOnDisk(pending: seq<byte>)
      requires Running(pending)
      ensures Recorded()
    {
      if disk.law.grows {
        var content := disk.inodes[file.inode];
        HoldsFront(content, reader.base, reader.given, reader.Unread());
        HoldsFront(content, reader.base, SinceRestart(log), pending);
      }
    }

    /** A system call that only looks leaves a running tailer running. */
    lemma LookedAt(before: Inodes, path: Option<nat>)
      requires Steady([]) && disk.Valid() && Evolves(disk.law, before, disk.inodes) && Inode(log) in before
      requires disk.law.stays ==> path == Some(Inode(log)) && disk.path == path
      requires disk.law.grows ==>
                 Opening(log) <= before[Inode(log)] && Holds(before[Inode(log)], reader.base, reader.Taken())
      ensures Running([])
    {
      EvolvesAt(disk.law, before, disk.inodes, Inode(log));
      if disk.law.grows {
        HoldsStill(before[Inode(log)], disk.inodes[Inode(log)], reader.base, reader.Taken());
      }
    }

    constructor (disk: Disk, ctx: Context, offset: nat, bufferSize: nat)
      ensures this.disk == disk && this.ctx == ctx && this.offset == offset && this.bufferSize == bufferSize
      ensures Unstarted()
    {
      this.disk, this.ctx, this.offset, this.bufferSize := disk, ctx, offset, bufferSize;
      file, reader := null, null;
      currentBackoff, eofCount := INITIAL_BACKOFF_DELAY, 0;
      lines, log, parts, got, poll, base := [], [], [], [], [], [];
    }

    ghost predicate Unstarted()
      reads this
    {
      Backing() && file == null && reader == null && lines == [] && log == [] && parts == [] && got == [] && poll == []
    }

    method ResetBackoff()
      modifies this`currentBackoff, this`eofCount
      ensures Backing() && currentBackoff == INITIAL_BACKOFF_DELAY && eofCount == 0
    {
      currentBackoff, eofCount := INITIAL_BACKOFF_DELAY, 0;
    }

    method ApplyBackoff()
      requires Backing()
      modifies this`currentBackoff, this`eofCount
      ensures Backing() && eofCount == old(eofCount) + 1
    {
      eofCount := eofCount + 1;
      currentBackoff := if currentBackoff * BACKOFF_FACTOR < MAX_BACKOFF_DELAY
                        then currentBackoff * BACKOFF_FACTOR else MAX_BACKOFF_DELAY;
    }

    /** Leaves the file just after its offset-th newline, or at its end if it has fewer,
        whatever was read ahead. */
    method SeekToLineOffset() returns (error: Option<IOError>, ghost skipped: seq<Answer>)
      requires file != null && file.offset == 0
      requires disk.Valid() && file.inode in disk.inodes
      modifies disk, file
      ensures disk.Valid() && Evolves(disk.law, old(disk.inodes), disk.inodes) && file.inode in disk.inodes
      ensures disk.law.stays ==> disk.path == old(disk.path)
      ensures error.None? && disk.law.grows ==>
                file.offset == LineEnd(disk.inodes[file.inode], offset)
      ensures disk.answers == old(disk.answers) + skipped
      ensures error.Some? ==> error == Some(Failed) && Reading(file.inode, 0, skipped, error)
      ensures error.None? ==> Sought(file.inode, skipped, offset, file.offset)
    {
      var scan := new Reader(file, bufferSize);
      HoldsSlice(disk.inodes[file.inode], 0, 0);
      assert scan.Taken() == disk.inodes[file.inode][0..0];
      hide Holds, MayFail, Admits, Honest, LineEnd, Reading, Evolves, Skipped, AtEnd, BytesOf;
      var linesSkipped;
      error, linesSkipped, skipped := SkipLines(scan);
      if error == Some(Failed) {
        return;
      }
      SoughtInBytes(scan.given, scan.Unread(), linesSkipped, offset, error);
      // What was read ahead must be read again later.
      if disk.law.grows {
        Landing(scan, linesSkipped, error);
      }
      file.offset := file.offset - scan.Buffered();
      error := None;
    }

    /** Reads lines until enough are skipped or reads come to an end. */
    method SkipLines(scan: Reader)
      returns (error: Option<IOError>, linesSkipped: nat, ghost skipped: seq<Answer>)
      requires file != null && scan.src == file && scan.base == 0 && scan.given == []
      requires scan.Valid() && scan.Coherent(disk) && scan.err.None? && scan.r == scan.w && file.offset == 0
      modifies disk, file, scan, scan.buf
      ensures scan.src == file && scan.base == 0 && scan.Valid() && scan.Coherent(disk)
      ensures Evolves(disk.law, old(disk.inodes), disk.inodes)
      ensures disk.law.stays ==> disk.path == old(disk.path)
      ensures Skipped(scan.given, linesSkipped, error)
      ensures if error.Some? then linesSkipped < offset else linesSkipped == offset
      ensures error.Some? ==> error.value == EOF || error.value == Failed
      ensures error == Some(EOF) ==> AtEnd(disk, file)
      ensures error.Some? ==> scan.r == scan.w
      ensures Reading(file.inode, 0, skipped, error) && disk.answers == old(disk.answers) + skipped
      ensures BytesOf(skipped) == scan.given + scan.Unread()
    {
      hide Holds, MayFail, Admits, Honest, IsRawLine, Reading, BytesOf, Evolves, Skipped, AtEnd;
      error, linesSkipped, skipped := None, 0, [];
      NoReads(file.inode, 0);
      NoneSkipped();
      EvolvesSame(disk.law, disk.inodes);
      while linesSkipped < offset && error.None?
        invariant scan.src == file && scan.base == 0
        invariant scan.Valid() && scan.Coherent(disk) && scan.err.None?
        invariant Evolves(disk.law, old(disk.inodes), disk.inodes)
        invariant disk.law.stays ==> disk.path == old(disk.path)
        invariant linesSkipped <= offset && (error.Some? ==> linesSkipped < offset)
        invariant Skipped(scan.given, linesSkipped, error)
        invariant error == Some(EOF) ==> AtEnd(disk, file)
        invariant error.Some? ==> scan.r == scan.w
        invariant error.Some? ==> error.value == EOF || error.value == Failed
        invariant Reading(file.inode, 0, skipped, error) && disk.answers == old(disk.answers) + skipped
        invariant BytesOf(skipped) == scan.given + scan.Unread()
        decreases if error.None? then 1 else 0, offset - linesSkipped
      {
        ghost var before, ahead, inodes, earlier, more := scan.given, scan.Unread(), disk.inodes, skipped, [];
        ghost var bytes;
        bytes, error, more := scan.ReadBytes(disk);
        EndsOrFails(disk.law, error);
        skipped := earlier + more;
        ReadOnward(file.inode, 0, earlier, more, error);
        EvolvesOn(disk.law, old(disk.inodes), inodes, disk.inodes);
        Regroup(before, ahead, BytesOf(more));
        Regroup(before, bytes, scan.Unread());
        SkippedMore(before, bytes, linesSkipped, error);
        if error.None? {
          linesSkipped := linesSkipped + 1;
        }
      }
    }

    lemma Landing(scan: Reader, n: nat, error: Option<IOError>)
      requires scan.Valid() && scan.Coherent(disk) && disk.law.grows && scan.base == 0 && Skipped(scan.given, n, error)
      requires if error.Some? then AtEnd(disk, scan.src) && scan.r == scan.w && n < offset else n == offset
      ensures scan.src.offset - scan.Buffered() == LineEnd(disk.inodes[scan.src.inode], offset)
    {
      SoughtInFile(disk.inodes[scan.src.inode], scan.given, scan.Unread(), n, offset, error);
    }

    method OpenAndSeek() returns (error: Option<IOError>, ghost answers: seq<Answer>)
      requires disk.Valid()
      modifies disk, this`file
      ensures disk.Valid() && Evolves(disk.law, old(disk.inodes), disk.inodes)
      ensures disk.law.stays ==> disk.path == old(disk.path)
      ensures error.None? ==> file != null && fresh(file) && file.inode in disk.inodes
      ensures error.None? && disk.law.stays ==> disk.path == Some(file.inode)
      ensures error.None? && disk.law.grows ==> file.offset == LineEnd(disk.inodes[file.inode], offset)
      ensures disk.answers == old(disk.answers) + answers
      ensures error.Some? ==> NeverStarted(answers, Broken(error.value))
      ensures error.None? ==> answers != [] && answers[0] == Opened(Success(file.inode)) &&
                              Sought(file.inode, answers[1..], offset, file.offset)
    {
      hide Evolves, Admits, LineEnd, Honest, Reading, BytesOf;
      var handle := disk.Open();
      answers := [disk.answers[|disk.answers| - 1]];
      assert answers[1..] == [];
      if handle.Failure? {
        return Some(handle.error), answers;
      }
      file := handle.value;
      NoReads(file.inode, 0);
      ghost var inodes := disk.inodes;
      EvolvesSame(disk.law, inodes);
      if offset > 0 {
        ghost var skipped;
        error, skipped := SeekToLineOffset();
        assert ([answers[0]] + skipped)[1..] == skipped;
        answers := [answers[0]] + skipped;
      } else {
        error := None;
        NoLines(disk.inodes[file.inode]);
        NoLines([]);
      }
      EvolvesOn(disk.law, old(disk.inodes), inodes, disk.inodes);
    }

    lemma NoLines(content: seq<byte>)
      ensures LineEnd(content, 0) == 0
    {
    }

    method TakeOver(handle: File, ghost reason: Reason)
      requires disk.Valid() && handle.inode in disk.inodes && handle.offset == 0
      requires log != [] && Legal(disk.law, log) && lines == Texts(log)
      requires LegalStep(disk.law, log, Switched(reason, 0)) && !disk.law.stays
      requires reader != null && reader.buf.Length >= MIN_READ_BUFFER_SIZE
      modifies this`file, this`log, this`currentBackoff, this`eofCount, reader
      ensures Running([]) && reader.r == reader.w
      ensures log == old(log) + [Switched(reason, handle.inode)] && file == handle
    {
      hide Legal, SinceRestart, RestartAt, Inode, Texts, Holds, LegalStep, Opening, Admits;
      file := handle;
      reader.Reset(file);
      ResetBackoff();
      Switching(disk.law, log, reason, file.inode, disk.inodes);
      log := log + [Switched(reason, file.inode)];
    }

    /** Closes the old file and opens whatever the path names, waiting while it is missing. */
    method ReopenWithReason(ghost reason: Reason) returns (stop: Option<Stop>)
      requires Running([]) && LegalStep(disk.law, log, Switched(reason, 0)) && !disk.law.stays
      modifies this`file, this`log, this`currentBackoff, this`eofCount, disk, ctx, reader
      ensures old(disk.answers) <= disk.answers
      ensures Reopened(old(log), log, reason, disk.answers[|old(disk.answers)|..], stop, ctx.done)
      ensures Evolves(disk.law, old(disk.inodes), disk.inodes)
      ensures file == old(file) || fresh(file)
      ensures if stop.None? then Running([]) && reader.r == reader.w else Recorded()
    {
      hide Legal, SinceRestart, RestartAt, Inode, Texts, Holds, LegalStep, Opening, OnDisk, Evolves, Admits;
      var reopenAttempts := 0;
      ghost var opens: seq<Answer> := [];
      RunningIsOnDisk([]);
      EvolvesSame(disk.law, disk.inodes);
      while true
        invariant reopenAttempts == |opens| <= MAX_REOPEN_ATTEMPTS && Missing(opens)
        invariant disk.answers == old(disk.answers) + opens
        invariant log == old(log) && file == old(file) && reader == old(reader) && lines == old(lines)
        invariant Recorded() && LegalStep(disk.law, log, Switched(reason, 0))
        invariant reader.buf.Length >= MIN_READ_BUFFER_SIZE
        invariant Evolves(disk.law, old(disk.inodes), disk.inodes)
        decreases MAX_REOPEN_ATTEMPTS - reopenAttempts
      {
        var cancelled := ctx.IsDone();
        if cancelled {
          return Some(Cancelled);
        }
        ghost var inodes := disk.inodes;
        var handle := disk.Open();
        StillOnDisk(disk.law, log, inodes, disk.inodes);
        EvolvesOn(disk.law, old(disk.inodes), inodes, disk.inodes);
        ghost var tried, answer := opens, disk.answers[|disk.answers| - 1];
        opens := opens + [answer];
        assert opens[..|opens| - 1] == tried && disk.answers[|old(disk.answers)|..] == opens;
        if handle.Success? {
          TakeOver(handle.value, reason);
          return None;
        }
        if handle.error == NotExist {
          reopenAttempts := reopenAttempts + 1;
          if reopenAttempts > MAX_REOPEN_ATTEMPTS {
            return Some(ReopenExhausted);
          }
        } else {
          return Some(Broken(handle.error));
        }
      }
    }

    /** The file shrank: forget the buffer and read it from its start. */
    method RestartFromZero(ghost content: seq<byte>)
      requires Running([]) && !disk.law.grows && |content| < Position(log)
      modifies this`currentBackoff, this`eofCount, this`log, file, reader
      ensures Running([]) && reader.r == reader.w && log == old(log) + [Truncated(content)]
    {
      hide Legal, Texts;
      ResetBackoff();
      file.offset := 0;
      reader.Reset(file);
      Appended(disk.law, log, Truncated(content));
      TruncatedInode(log, content);
      log := log + [Truncated(content)];
    }

    /** Called with nothing buffered: what it does is determined by the disk's answers. */
    method HandleEOF() returns (stop: Option<Stop>)
      requires Running([]) && reader.r == reader.w
      modifies this`file, this`log, this`currentBackoff, this`eofCount, disk, ctx, file, reader
      ensures old(disk.answers) <= disk.answers
      ensures PollOutcome(old(log), log, disk.answers[|old(disk.answers)|..], stop, ctx.done)
      ensures Evolves(disk.law, old(disk.inodes), disk.inodes)
      ensures disk.law.stays ==> disk.path == old(disk.path)
      ensures file == old(file) || fresh(file)
      ensures if stop.None? then Running([]) && reader.r == reader.w else Recorded()
    {
      hide Legal, SinceRestart, RestartAt, Inode, Texts, Holds, Opening, OnDisk, Evolves, Admits, LegalStep, Reopened;
      hide SizeOutcome, Exhausts;
      RunningIsOnDisk([]);
      ghost var inodes, path, answers := disk.inodes, disk.path, disk.answers;
      var info := disk.StatFile(file);
      ghost var content, polled := disk.inodes[file.inode], disk.inodes;
      LookedAt(inodes, path);
      EvolvesSame(disk.law, polled);
      if info.Failure? {
        if info.error == NotExist {
          MissingIsLegal(disk.law, log);
          stop := ReopenWithReason(OpenFileMissing);
        } else {
          RunningIsOnDisk([]);
          stop := Some(Broken(info.error));
        }
      } else {
        stop := CheckSize(info.value.size, content);
      }
      EvolvesOn(disk.law, inodes, polled, disk.inodes);
      ghost var first := OpenFile(Inode(old(log)), if info.Success? then Success(content) else Failure(info.error));
      Answered(answers, first, disk.answers);
    }

    method CheckSize(size: nat, ghost content: seq<byte>) returns (stop: Option<Stop>)
      requires Running([]) && reader.r == reader.w && content == disk.inodes[file.inode] && size == |content|
      modifies this`file, this`log, this`currentBackoff, this`eofCount, disk, ctx, file, reader
      ensures old(disk.answers) <= disk.answers
      ensures SizeOutcome(old(log), log, content, disk.answers[|old(disk.answers)|..], stop, ctx.done)
      ensures Evolves(disk.law, old(disk.inodes), disk.inodes)
      ensures disk.law.stays ==> disk.path == old(disk.path)
      ensures file == old(file) || fresh(file)
      ensures if stop.None? then Running([]) && reader.r == reader.w else Recorded()
    {
      hide Legal, SinceRestart, RestartAt, Inode, Texts, Opening, OnDisk, Evolves, Admits, LegalStep, Reopened;
      hide PathOutcome;
      EvolvesSame(disk.law, disk.inodes);
      var pos := file.offset;
      AtPosition(content);
      hide Holds;
      if size < pos {
        RestartFromZero(content);
        stop := None;
      } else if size > pos {
        ResetBackoff();
        Polling(disk.law, log, Grew(content));
        log := log + [Grew(content)];
        stop := None;
      } else {
        AllDelivered(content);
        stop := CheckRotation(content);
      }
    }

    /** With nothing buffered the file stands where the deliveries end, and not beyond a file
        that only grows. */
    lemma AtPosition(content: seq<byte>)
      requires Running([]) && reader.r == reader.w && content == disk.inodes[file.inode]
      ensures file.offset == Position(log) && (disk.law.grows ==> Position(log) <= |content|)
    {
      assert reader.Taken() == reader.given == SinceRestart(log);
    }

    lemma AllDelivered(content: seq<byte>)
      requires Running([]) && reader.r == reader.w && file.offset == |content|
      requires disk.law.grows ==> content == disk.inodes[file.inode]
      ensures Exhausts(disk.law, log, content)
    {
      assert reader.Taken() == reader.given == SinceRestart(log);
      if disk.law.grows {
        AllHeld(content, RestartAt(log), SinceRestart(log));
      }
    }

    /** The open file has no more to give; is it still the one the path names? */
    method CheckRotation(ghost content: seq<byte>) returns (stop: Option<Stop>)
      requires Running([]) && reader.r == reader.w && Exhausts(disk.law, log, content)
      modifies this`file, this`log, this`currentBackoff, this`eofCount, disk, ctx, reader
      ensures old(disk.answers) <= disk.answers
      ensures PathOutcome(old(log), log, content, disk.answers[|old(disk.answers)|..], stop, ctx.done)
      ensures Evolves(disk.law, old(disk.inodes), disk.inodes)
      ensures disk.law.stays ==> disk.path == old(disk.path)
      ensures file == old(file) || fresh(file)
      ensures if stop.None? then Running([]) && reader.r == reader.w else Recorded()
    {
      hide Legal, SinceRestart, RestartAt, Inode, Texts, Holds, Opening, OnDisk, Evolves, Admits, LegalStep, Reopened;
      hide Exhausts;
      ghost var inodes, path, answers := disk.inodes, disk.path, disk.answers;
      var onDisk := disk.StatPath();
      ghost var polled := disk.inodes;
      LookedAt(inodes, path);
      EvolvesSame(disk.law, polled);
      if onDisk.Failure? {
        if onDisk.error == NotExist {
          SwitchIsLegal(disk.law, log, PathMissing(content));
          stop := ReopenWithReason(PathMissing(content));
        } else {
          RunningIsOnDisk([]);
          stop := Some(Broken(onDisk.error));
        }
      } else if onDisk.value.inode != file.inode {
        SwitchIsLegal(disk.law, log, NotSameFile(content, onDisk.value.inode));
        stop := ReopenWithReason(NotSameFile(content, onDisk.value.inode));
      } else {
        ApplyBackoff();
        Polling(disk.law, log, Idle(content));
        log := log + [Idle(content)];
        stop := None;
      }
      EvolvesOn(disk.law, inodes, polled, disk.inodes);
      ghost var first := AtPath(if onDisk.Success? then Success(onDisk.value.inode) else Failure(onDisk.error));
      Answered(answers, first, disk.answers);
    }

    /** One more chunk of the line under assembly. */
    method ReadChunk(ghost acc: seq<byte>)
      returns (chunk: seq<byte>, isPrefix: bool, e: Option<IOError>, ghost raw: seq<byte>, ghost end: Option<IOError>)
      requires Running(acc) && Telling(acc, None) && NL !in acc && KeptCR(acc, reader.Unread())
      modifies this`got, disk, file, reader, reader.buf
      ensures Evolves(disk.law, old(disk.inodes), disk.inodes)
      ensures disk.law.stays ==> disk.path == old(disk.path)
      ensures Running(raw) && Telling(raw, end) && acc <= raw
      ensures Ends(disk.answers) >= Ends(old(disk.answers)) && (end.Some? ==> Ends(disk.answers) > Ends(old(disk.answers)))
      ensures end.None? ==> e.None? && |raw| > |acc|
      ensures isPrefix ==> end.None? && acc + chunk == raw && NL !in raw && KeptCR(raw, reader.Unread())
      ensures e.Some? ==> e == end && raw == acc == acc + chunk && !isPrefix && reader.Unread() == []
      ensures e == Some(EOF) ==> AtEnd(disk, file)
      ensures e.Some? ==> e.value == EOF || e.value == Failed
      ensures !isPrefix && (e.None? || (acc != [] && e.value == EOF)) ==>
                MaySend(raw, acc + chunk, end)
    {
      hide Legal, SinceRestart, RestartAt, Inode, Texts, Holds, Opening, Admits, Honest, Evolves, LineRead;
      hide KeptCR, IsSegment, IsRawLine, IsTail, Tale, Undelivered, ReadOnBy, BytesOf, Told, Ends, MayFail, AtEnd;
      ghost var unread, given, inodes, earlier := reader.Unread(), SinceRestart(log), disk.inodes, got;
      ghost var piece, more;
      WhereItReads(acc);
      chunk, isPrefix, e, piece, more, end := reader.ReadLine(disk);
      EvolvesAt(disk.law, inodes, disk.inodes, file.inode);
      raw := acc + piece;
      Regroup(given, acc, piece);
      Join(acc, chunk, isPrefix, e, piece, unread, reader.Unread());
      EndsOrFails(disk.law, end);
      got := earlier + more;
      StillTold(base, log, parts, earlier, more, end);
      StillUndelivered(Undelivered(log, parts), BytesOf(earlier), BytesOf(more), acc, unread, piece, reader.Unread());
      WhereItEnds(acc, piece, isPrefix, e, end);
      if disk.law.grows && disk.law.whole && end == Some(EOF) && raw != [] {
        EndsInNewline(raw);
        LastIsThere(raw);
      }
    }

    /** The next read is from where the reads so far ended. */
    lemma WhereItReads(acc: seq<byte>)
      requires Running(acc) && Telling(acc, None)
      ensures file.offset == Position(log) + |Undelivered(log, parts)| + |BytesOf(got)| && file.inode == Inode(log)
    {
      hide Legal, Tale, ReadOnBy, Told, Undelivered, BytesOf, RestartAt, SinceRestart, Opening, Inode, Holds, Texts;
    }

    /** A file of whole lines ends in a newline, and so does what was consumed when its end
        was reached. */
    lemma EndsInNewline(raw: seq<byte>)
      requires Running(raw) && disk.law.whole && disk.law.grows && raw != []
      requires AtEnd(disk, file) && reader.Unread() == []
      ensures raw[|raw| - 1] == NL
    {
      var content := disk.inodes[file.inode];
      assert reader.Taken() == reader.given;
      assert content[|content| - 1] == reader.given[|reader.given| - 1] == raw[|raw| - 1];
    }

    /** One read and what it calls for: the line goes on, is complete, or the run ends. */
    method ReadOn(text: seq<byte>, ghost calls: nat)
      returns (next: Option<Next>, longer: seq<byte>, ghost raw: seq<byte>, ghost end: Option<IOError>)
      requires Running(text) && Telling(text, None) && NL !in text && KeptCR(text, reader.Unread())
      requires Accounted(calls, |text|)
      modifies this`file, this`log, this`parts, this`got, this`poll, this`currentBackoff, this`eofCount
      modifies disk, ctx, file, reader, reader.buf
      ensures Evolves(disk.law, old(disk.inodes), disk.inodes)
      ensures disk.law.stays ==> disk.path == old(disk.path)
      ensures file == old(file) || fresh(file)
      ensures Quiet(old(log), log)
      ensures next.None? ==>
                Running(longer) && Telling(longer, None) && NL !in longer && KeptCR(longer, reader.Unread()) &&
                Accounted(calls + 1, |longer|)
      ensures next.Some? && next.value.Line? ==>
                Running(raw) && Telling(raw, end) && MaySend(raw, next.value.text, end) && Accounted(calls + 1, |raw|)
      ensures next.Some? && next.value.Ended? ==> Recorded() && Finished(next.value.why) && next.value.why != StillRunning
    {
      hide Legal, SinceRestart, RestartAt, Inode, Texts, Holds, Opening, OnDisk, Evolves, Admits, Honest, IsSegment;
      hide KeptCR, IsRawLine, PollOutcome, Volume, Tale, Undelivered, ReadOnBy, BytesOf, Told, Ends;
      var chunk, isPrefix, e;
      chunk, isPrefix, e, raw, end := ReadChunk(text);
      longer, next := text + chunk, None;
      if e.Some? && e.value != EOF {
        RunningIsOnDisk(raw);
        FailedEnd(raw);
        next := Some(Ended(Broken(e.value)));
      } else if e.Some? && |longer| == 0 {
        ghost var inodes := disk.inodes;
        var stop := Poll();
        EvolvesOn(disk.law, old(disk.inodes), inodes, disk.inodes);
        if stop.Some? {
          next := Some(Ended(stop.value));
        } else {
          KeptNone(reader.Unread());
        }
      } else if e.Some? || !isPrefix {
        next := Some(Line(longer));
      }
    }

    /** What may be sent: a segment that is a line unless reads came to an end with it. */
    ghost predicate MaySend(raw: seq<byte>, text: seq<byte>, end: Option<IOError>)
      requires reader != null && reader.r <= reader.w <= reader.buf.Length
      reads this, reader, reader.buf
    {
      && IsSegment(raw, text) && (IsRawLine(raw) <==> end.None?)
      && (end.Some? ==> reader.Unread() == [] && MayCut(disk.law, end.value))
    }

    lemma FailedEnd(raw: seq<byte>)
      requires Telling(raw, Some(Failed))
      ensures Finished(Broken(Failed))
    {
      hide Tale, Undelivered, ReadOnBy, BytesOf, Told;
      assert got + [] == got;
    }

    lemma StoppedNow(raw: seq<byte>, end: Option<IOError>)
      requires Telling(raw, end) && (end.Some? ==> end.value == EOF || end.value == Failed)
      ensures ctx.done ==> Finished(Cancelled)
      ensures end.None? ==> Finished(StillRunning)
    {
      hide Tale, Undelivered, Reading, BytesOf, Told;
      assert got + [] == got;
    }

    /** Assembles the next line from as many chunks as it takes, polling at end of file while
        there is nothing to deliver. `steps` bounds the reads observed. */
    method NextLine(steps: nat, ghost calls: nat)
      returns (next: Next, ghost raw: seq<byte>, ghost end: Option<IOError>, left: nat)
      requires Running([]) && Telling([], None) && Accounted(calls, 0)
      modifies this`file, this`log, this`parts, this`got, this`poll, this`currentBackoff, this`eofCount
      modifies disk, ctx, file, reader, reader.buf
      ensures Evolves(disk.law, old(disk.inodes), disk.inodes)
      ensures disk.law.stays ==> disk.path == old(disk.path)
      ensures file == old(file) || fresh(file)
      ensures Quiet(old(log), log) && left <= steps
      ensures next.Line? ==>
                left < steps && Running(raw) && Telling(raw, end) && MaySend(raw, next.text, end) &&
                Accounted(calls + (steps - left), |raw|)
      ensures next.Ended? ==> Recorded() && Finished(next.why)
      ensures next == Ended(StillRunning) ==>
                left == 0 && |log| == |parts| && Accounted(calls + steps, |Undelivered(log, parts) + BytesOf(got)|)
    {
      hide Legal, SinceRestart, RestartAt, Inode, Texts, Holds, Opening, OnDisk, Evolves, Admits, Honest, IsSegment;
      hide KeptCR, IsRawLine, Volume, Tale, Undelivered, ReadOnBy, BytesOf, Told, Ends;
      var text: seq<byte> := [];
      raw, end, left := [], None, steps;
      KeptNone(reader.Unread());
      EvolvesSame(disk.law, disk.inodes);
      while left > 0
        invariant reader == old(reader) && (file == old(file) || fresh(file))
        invariant Evolves(disk.law, old(disk.inodes), disk.inodes)
        invariant disk.law.stays ==> disk.path == old(disk.path)
        invariant Quiet(old(log), log) && left <= steps
        invariant Running(text) && Telling(text, None) && NL !in text && KeptCR(text, reader.Unread())
        invariant Accounted(calls + (steps - left), |text|)
        decreases left
      {
        ghost var inodes := disk.inodes;
        var done;
        done, text, raw, end := ReadOn(text, calls + (steps - left));
        left := left - 1;
        EvolvesOn(disk.law, old(disk.inodes), inodes, disk.inodes);
        if done.Some? {
          return done.value, raw, end, left;
        }
      }
      RunningIsOnDisk(text);
      StoppedNow(text, None);
      next := Ended(StillRunning);
    }

    /** A poll within the assembly of a line. */
    method Poll() returns (stop: Option<Stop>)
      requires Running([]) && Telling([], Some(EOF)) && reader.Unread() == []
      modifies this`file, this`log, this`parts, this`got, this`poll, this`currentBackoff, this`eofCount
      modifies disk, ctx, file, reader
      ensures Quiet(old(log), log) && Volume(log) == Volume(old(log)) && Ends(disk.answers) >= Ends(old(disk.answers))
      ensures Evolves(disk.law, old(disk.inodes), disk.inodes)
      ensures disk.law.stays ==> disk.path == old(disk.path)
      ensures file == old(file) || fresh(file)
      ensures if stop.None? then Running([]) && Telling([], None) else Recorded() && Finished(stop.value)
      ensures stop != Some(StillRunning)
    {
      hide Evolves, Volume, Legal, SinceRestart, RestartAt, Inode, Texts, Holds, Opening, OnDisk, Admits, Honest;
      hide PollOutcome, Tale, Undelivered, ReadOnBy, BytesOf, Told, Ends, Ending, Scene;
      ghost var earlier, answers, unread := log, disk.answers, reader.Unread();
      stop := HandleEOF();
      ghost var seen := disk.answers[|answers|..];
      assert disk.answers == answers + seen;
      EndsAppend(answers, seen);
      PollAdds(earlier, log, seen, stop, ctx.done);
      if stop.Some? {
        poll := seen;
        PollEnds(base, earlier, parts, got, seen, stop.value, ctx.done, disk.answers);
      } else {
        var e := log[|earlier|];
        PollTold(disk.law, base, earlier, parts, got, seen, e, ctx.done, disk.answers);
        parts, got := parts + [Part(got, seen)], [];
      }
    }

    /** Opens the file and places a reader after the lines to skip. */
    method Begin() returns (e: Option<IOError>, ghost answers: seq<Answer>)
      requires disk.Valid() && Unstarted()
      modifies this`file, this`reader, this`log, this`parts, this`base, disk
      ensures disk.Valid() && Evolves(disk.law, old(disk.inodes), disk.inodes)
      ensures disk.law.stays ==> disk.path == old(disk.path)
      ensures base == old(disk.answers) && got == [] && poll == [] && disk.answers == base + answers
      ensures e.Some? ==> log == [] && parts == [] && NeverStarted(answers, Broken(e.value))
      ensures e.None? ==>
                Running([]) && Telling([], None) && Accounted(0, 0) && fresh(file) && fresh(reader) && fresh(reader.buf) &&
                |log| == 1 && FirstOf(log[0], old(disk.inodes), old(disk.path))
    {
      hide Running, Telling, Accounted, LineEnd, Honest, Sought, NeverStarted, Evolves, Admits;
      base := disk.answers;
      e, answers := OpenAndSeek();
      if e.None? {
        Place(answers);
        StartsThere(log[0], old(disk.inodes), old(disk.path));
      }
    }

    lemma StartsThere(e: Event, inodes: Inodes, path: Option<nat>)
      requires e.Started? && e.skip == offset && (disk.law.stays ==> path == Some(e.inode))
      requires Evolves(disk.law, inodes, disk.inodes) && e.inode in disk.inodes && e.start == disk.inodes[e.inode]
      ensures FirstOf(e, inodes, path)
    {
    }

    /** A new reader at the offset that was sought. */
    method Place(ghost answers: seq<Answer>)
      requires disk.Valid() && Backing() && lines == [] && got == [] && poll == []
      requires file != null && file.inode in disk.inodes && (disk.law.stays ==> disk.path == Some(file.inode))
      requires disk.law.grows ==> file.offset == LineEnd(disk.inodes[file.inode], offset)
      requires disk.answers == base + answers && answers != [] && answers[0] == Opened(Success(file.inode))
      requires Sought(file.inode, answers[1..], offset, file.offset)
      modifies this`reader, this`log, this`parts
      ensures Running([]) && Telling([], None) && Accounted(0, 0) && fresh(reader) && fresh(reader.buf)
      ensures log == [Started(file.inode, disk.inodes[file.inode], offset, file.offset)]
    {
      hide Legal, SinceRestart, RestartAt, Inode, Texts, Holds, Opening, LineEnd, Honest, Sought, ReadOnBy, BytesOf;
      hide Scene, Tale;
      hide Undelivered, Told, Ends, Volume;
      ghost var start := disk.inodes[file.inode];
      reader := new Reader(file, bufferSize);
      log, parts := [Started(file.inode, start, offset, file.offset)], [Part([], answers)];
      Beginning(disk.law, start, offset, file.inode, file.offset);
      StartTold(disk.law, log[0], answers);
      EndsAppend(base, answers);
    }

    /** The start of a run, in terms of the disk it was called on. */
    ghost predicate FirstOf(e: Event, inodes: Inodes, path: Option<nat>)
      reads this
    {
      && e.Started? && e.skip == offset
      && (disk.law.stays ==> path == Some(e.inode))
      && (disk.law.grows && e.inode in inodes ==> inodes[e.inode] <= e.start)
    }

    /** Hands one line to the consumer. */
    method Send(ghost raw: seq<byte>, text: seq<byte>, ghost end: Option<IOError>)
      requires Running(raw) && Telling(raw, end) && MaySend(raw, text, end)
      modifies this`log, this`parts, this`got, this`lines, this`currentBackoff, this`eofCount
      ensures Running([]) && Telling([], None)
      ensures log == old(log) + [Delivered(raw, text)] && Volume(log) == Volume(old(log)) + |raw|
    {
      hide IsRawLine, Evolves, Legal, SinceRestart, RestartAt, Inode, Texts, Holds, Opening, Admits, Honest, IsSegment;
      hide Volume, LegalStep;
      hide Tale, Undelivered, ReadOnBy, BytesOf, Told, Ends, Scene;
      ResetBackoff();
      Delivering(disk.law, log, raw, text);
      SendTold(disk.law, base, log, parts, got, raw, text, end, reader.Unread());
      log, lines := log + [Delivered(raw, text)], lines + [text];
      parts, got := parts + [Part(got, [])], [];
    }

    /** The tailing goroutine, for every buffer size, pattern of short reads and schedule of
        other writers, observed for at most `steps` reads. */
    method Run(steps: nat) returns (why: Stop)
      requires disk.Valid() && Unstarted()
      modifies this, disk, ctx
      ensures disk.Valid() && Evolves(disk.law, old(disk.inodes), disk.inodes)
      ensures disk.law.stays ==> disk.path == old(disk.path)
      ensures if log == [] then lines == [] else Recorded() && FirstOf(log[0], old(disk.inodes), old(disk.path))
      ensures ArePieces(Raws(log), lines)
      ensures old(disk.answers) <= disk.answers
      ensures IsRun(disk.law, Record(log, parts, got, poll), disk.answers[|old(disk.answers)|..], why, ctx.done)
      ensures why == StillRunning ==>
                KeptReading(Record(log, parts, got, poll), disk.answers[|old(disk.answers)|..], steps)
      ensures log != [] && disk.law.grows && disk.law.stays ==> OneFile(log)
      ensures log != [] && disk.law.CutsAtLines() && disk.law.stays ==>
                SentPart(log, disk.inodes[Inode(log)]) && (log[|log| - 1].Idle? ==> SentAll(log, log[|log| - 1].content))
      ensures log != [] && disk.law.grows && disk.law.stays && CR !in SinceRestart(log) ==>
                Flatten(lines) == WithoutNewlines(SinceRestart(log))
    {
      hide Legal, SinceRestart, Opening, RestartAt, Inode, Holds, Admits, Honest, Evolves, LineEnd, LinesOf, Texts;
      hide Flatten, ArePieces;
      hide IsRun, KeptReading, Tale, Undelivered;
      why := RunLoop(steps);
      NothingSent(disk.law);
      LegalSegments(disk.law, log, 0, |log|);
      assert log[0..|log|] == log;
      TextsArePieces(log);
      if log != [] && disk.law.grows && disk.law.stays {
        LegalOneFile(disk.law, log);
        if CR !in SinceRestart(log) {
          OneFileBytes(log);
          TextsKeepBytes(log);
        }
        if disk.law.CutsAtLines() {
          SentLines(disk.law, log, disk.inodes[Inode(log)]);
          if log[|log| - 1].Idle? {
            LastIdle(disk.law, log);
          }
        }
      }
    }

    method RunLoop(steps: nat) returns (why: Stop)
      requires disk.Valid() && Unstarted()
      modifies this, disk, ctx
      ensures disk.Valid() && Evolves(disk.law, old(disk.inodes), disk.inodes)
      ensures disk.law.stays ==> disk.path == old(disk.path)
      ensures if log == [] then lines == [] else Recorded() && FirstOf(log[0], old(disk.inodes), old(disk.path))
      ensures old(disk.answers) <= disk.answers
      ensures IsRun(disk.law, Record(log, parts, got, poll), disk.answers[|old(disk.answers)|..], why, ctx.done)
      ensures why == StillRunning ==>
                KeptReading(Record(log, parts, got, poll), disk.answers[|old(disk.answers)|..], steps)
    {
      hide Legal, SinceRestart, RestartAt, Inode, Texts, Holds, Opening, OnDisk, Admits, Honest, Evolves, IsSegment;
      hide Volume;
      hide Tale, Undelivered, ReadOnBy, BytesOf, Told, Ends, Ending, NeverStarted;
      ghost var answers;
      var e;
      e, answers := Begin();
      if e.Some? {
        assert disk.answers[|base|..] == answers;
        return Broken(e.value);
      }
      var left: nat, stop := steps, None;
      while stop.None?
        invariant reader != null && fresh(reader) && fresh(reader.buf) && file != null && fresh(file)
        invariant if stop.None? then Running([]) && Telling([], None) && Accounted(steps - left, 0)
                  else Recorded() && Finished(stop.value)
        invariant Evolves(disk.law, old(disk.inodes), disk.inodes)
        invariant disk.law.stays ==> disk.path == old(disk.path)
        invariant log != [] && FirstOf(log[0], old(disk.inodes), old(disk.path))
        invariant left <= steps && base == old(disk.answers)
        invariant stop == Some(StillRunning) ==> |log| == |parts| && Accounted(steps, |Undelivered(log, parts) + BytesOf(got)|)
        decreases stop.None?, left
      {
        ghost var inodes := disk.inodes;
        stop, left := Iterate(left, steps - left);
        EvolvesOn(disk.law, old(disk.inodes), inodes, disk.inodes);
      }
      FinishedIsRun(stop.value);
      if stop == Some(StillRunning) {
        EndsAppend(base, disk.answers[|base|..]);
        assert disk.answers == base + disk.answers[|base|..];
      }
      return stop.value;
    }

    lemma FinishedIsRun(why: Stop)
      requires Finished(why)
      ensures base <= disk.answers
      ensures IsRun(disk.law, Record(log, parts, got, poll), disk.answers[|base|..], why, ctx.done)
    {
      hide Tale, Told, Ending;
      assert disk.answers[|base|..] == Told(parts) + (got + poll);
    }

    /** One round of the loop: one line is assembled and handed over, or the run ends. */
    method Iterate(steps: nat, ghost calls: nat) returns (stop: Option<Stop>, left: nat)
      requires Running([]) && Telling([], None) && Accounted(calls, 0)
      modifies this`file, this`log, this`parts, this`got, this`poll, this`lines, this`currentBackoff, this`eofCount
      modifies disk, ctx, file, reader, reader.buf
      ensures file == old(file) || fresh(file)
      ensures Evolves(disk.law, old(disk.inodes), disk.inodes)
      ensures disk.law.stays ==> disk.path == old(disk.path)
      ensures old(log) <= log && left <= steps
      ensures if stop.None? then
                && left < steps && Running([]) && Telling([], None) && Accounted(calls + (steps - left), 0)
                && |log| > |old(log)| && Quiet(old(log), log[..|log| - 1]) && log[|log| - 1].Delivered?
              else Recorded() && Finished(stop.value) && Quiet(old(log), log)
      ensures stop == Some(StillRunning) ==>
                |log| == |parts| && Accounted(calls + steps, |Undelivered(log, parts) + BytesOf(got)|)
    {
      hide Running, Recorded, Finished, IsSegment, IsRawLine, Evolves, Volume, Tale, Undelivered, ReadOnBy, BytesOf, Told;
      hide Ends;
      EvolvesSame(disk.law, disk.inodes);
      var cancelled := ctx.IsDone();
      if cancelled {
        RunningIsOnDisk([]);
        StoppedNow([], None);
        return Some(Cancelled), steps;
      }
      ghost var raw, end;
      var next;
      next, raw, end, left := NextLine(steps, calls);
      if next.Ended? {
        return Some(next.why), left;
      }
      // Both the consumer and the cancellation may be ready.
      cancelled := ctx.IsDone();
      var preferred: bool := *;
      if cancelled && preferred {
        RunningIsOnDisk(raw);
        StoppedNow(raw, end);
        return Some(Cancelled), left;
      }
      ghost var before := log;
      Send(raw, next.text, end);
      assert log[..|log| - 1] == before;
      stop := None;
    }
  }

  // ---------- what a run of one file sent ----------

  lemma NothingSent(law: Law)
    ensures Legal(law, []) && Texts([]) == []
  {
  }

  /** The texts are the first lines of the content behind the skipped ones. */
  ghost predicate SentPart(log: Log, content: seq<byte>)
    requires log != [] && log[0].Started?
  {
    var n := Min(log[0].skip, |LinesOf(log[0].start)|);
    log[0].start <= content && n <= |LinesOf(content)| && Texts(log) <= LinesOf(content)[n..]
  }

  /** The texts are all lines of the content behind the skipped ones. */
  ghost predicate SentAll(log: Log, content: seq<byte>)
    requires log != [] && log[0].Started?
  {
    var n := Min(log[0].skip, |LinesOf(log[0].start)|);
    log[0].start <= content && n <= |LinesOf(content)| && Texts(log) == LinesOf(content)[n..]
  }

  lemma LastIdle(law: Law, log: Log)
    requires Legal(law, log) && OneFile(log) && law.CutsAtLines() && log[|log| - 1].Idle?
    ensures SentAll(log, log[|log| - 1].content)
  {
    IdleIsExact(law, log, |log| - 1);
  }

  /** On a file that only grows by whole lines the lines sent are the lines behind the skipped
      ones, in order, none twice and none left out. */
  lemma SentLines(law: Law, log: Log, content: seq<byte>)
    requires Legal(law, log) && OneFile(log) && law.CutsAtLines()
    requires Opening(log) <= content && Holds(content, RestartAt(log), SinceRestart(log))
    ensures SentPart(log, content)
  {
    hide Holds, Legal, Terminated, LinesOf, LineEnd, Opening, RestartAt, SinceRestart, Texts, Raws, Flatten;
    assert log[..1] == [log[0]];
    RestartsAt(log, 0);
    LegalAt(law, log, 0);
    SinceRestartIsFlat(law, log, 0);
    var at, given := RestartAt(log), SinceRestart(log);
    SkippedLines(log[0].start, content, log[0].skip);
    HoldsPrefix(content, at, given);
    LinesGrow(given, content[at..]);
    LegalSegments(law, log, 0, |log|);
    assert log[0..|log|] == log;
    TextsAreLines(log);
    OneFileBytes(log);
  }

  lemma OneFileBytes(log: Log)
    requires OneFile(log)
    ensures Flatten(Raws(log)) == SinceRestart(log)
  {
    SinceRestartIsFlat(Law(false, false, false, false), log, 0);
    TextsBehind(log);
  }

  lemma AllHeld(content: seq<byte>, at: nat, bytes: seq<byte>)
    requires Holds(content, at, bytes) && at + |bytes| == |content|
    ensures bytes == content[at..]
  {
  }

  lemma HoldsPrefix(content: seq<byte>, at: nat, bytes: seq<byte>)
    requires Holds(content, at, bytes)
    ensures at <= |content| && bytes <= content[at..]
  {
  }

  // ---------- single events ----------

  lemma Beginning(law: Law, start: seq<byte>, skip: nat, inode: nat, at: nat)
    requires (law.grows ==> at == LineEnd(start, skip)) && (law.whole ==> WholeLines(start))
    ensures var log := [Started(inode, start, skip, at)];
            Legal(law, log) && SinceRestart(log) == [] && RestartAt(log) == at && Inode(log) == inode &&
            Texts(log) == [] && Opening(log) == start
    ensures at <= |start| ==> Holds(start, at, [])
  {
    var e := Started(inode, start, skip, at);
    assert [e][..0] == [] && LegalStep(law, [], e) && Legal(law, []);
  }

  lemma Delivering(law: Law, log: Log, raw: seq<byte>, text: seq<byte>)
    requires Legal(law, log) && log != [] && IsSegment(raw, text) && (law.CutsAtLines() ==> IsRawLine(raw))
    ensures var log' := log + [Delivered(raw, text)];
            Legal(law, log') && SinceRestart(log') + [] == SinceRestart(log) + raw &&
            RestartAt(log') == RestartAt(log) && Inode(log') == Inode(log) && Opening(log') == Opening(log) &&
            Texts(log') == Texts(log) + [text] && Volume(log') == Volume(log) + |raw|
  {
    hide Legal, RestartAt, SinceRestart, Inode, Opening, Texts, Volume;
    Appended(law, log, Delivered(raw, text));
  }

  lemma Switching(law: Law, log: Log, reason: Reason, inode: nat, inodes: Inodes)
    requires Legal(law, log) && LegalStep(law, log, Switched(reason, 0)) && inode in inodes
    ensures var log' := log + [Switched(reason, inode)];
            Legal(law, log') && SinceRestart(log') == [] && RestartAt(log') == 0 && Inode(log') == inode &&
            Opening(log') == [] && Texts(log') == Texts(log)
    ensures Holds(inodes[inode], 0, [])
  {
    Appended(law, log, Switched(reason, inode));
  }

  lemma TruncatedInode(log: Log, content: seq<byte>)
    ensures var log' := log + [Truncated(content)];
            Inode(log') == Inode(log) && RestartAt(log') == 0 && SinceRestart(log') == [] && Opening(log') == []
  {
  }

  lemma Polling(law: Law, log: Log, e: Event)
    requires Legal(law, log) && log != [] && (e.Idle? || e.Grew?)
    requires if e.Idle? then Exhausts(law, log, e.content) else |e.content| > Position(log)
    ensures var log' := log + [e];
            Legal(law, log') && SinceRestart(log') == SinceRestart(log) && RestartAt(log') == RestartAt(log) &&
            Inode(log') == Inode(log) && Opening(log') == Opening(log) && Texts(log') == Texts(log)
  {
    Appended(law, log, e);
  }

  lemma MissingIsLegal(law: Law, log: Log)
    requires log != [] && !law.stays
    ensures LegalStep(law, log, Switched(OpenFileMissing, 0))
  {
  }

  lemma SwitchIsLegal(law: Law, log: Log, reason: Reason)
    requires log != [] && !law.stays && !reason.OpenFileMissing? && Exhausts(law, log, reason.content)
    requires reason.NotSameFile? ==> reason.onDisk != Inode(log)
    ensures LegalStep(law, log, Switched(reason, 0))
  {
  }

  lemma Answered(before: seq<Answer>, first: Answer, after: seq<Answer>)
    requires before + [first] <= after
    ensures before <= after && after[|before|..] == [first] + after[|before + [first]|..]
    ensures ([first] + after[|before + [first]|..])[1..] == after[|before + [first]|..]
  {
  }

  // ---------- telling the log from the transcript ----------

  lemma EndsOrFails(law: Law, end: Option<IOError>)
    requires MayFail(law, end)
    ensures end.Some? ==> end.value == EOF || (end.value == Failed && !law.reliable)
  {
  }

  lemma LastIsThere(raw: seq<byte>)
    requires raw != [] && raw[|raw| - 1] == NL
    ensures NL in raw
  {
  }

  lemma StartTold(law: Law, e: Event, answers: seq<Answer>)
    requires e.Started? && answers != [] && answers[0] == Opened(Success(e.inode))
    requires Sought(e.inode, answers[1..], e.skip, e.at)
    ensures var log, parts := [e], [Part([], answers)];
            && Tale(law, log, parts) && Told(parts) + [] == answers
            && Undelivered(log, parts) + BytesOf([]) == [] && Volume(log) == 0
    ensures ReadOnBy([e], [Part([], answers)], [], None)
  {
    hide Sought, Reading;
    NoReads(e.inode, e.at);
    OneMore(law, [], [], e, Part([], answers));
    assert [] + [e] == [e] && [] + [Part([], answers)] == [Part([], answers)];
    assert Tale(law, [], []) && Told([]) == [];
    assert [e][..0] == [];
  }

  lemma NoneRead(log: Log, parts: seq<Part>)
    requires |log| == |parts|
    ensures ReadOnBy(log, parts, [], None) && BytesOf([]) == []
  {
    NoReads(Inode(log), Position(log) + |Undelivered(log, parts)|);
  }

  lemma StillTold(base: seq<Answer>, log: Log, parts: seq<Part>, got: seq<Answer>, more: seq<Answer>, end: Option<IOError>)
    requires |log| == |parts| && ReadOnBy(log, parts, got, None)
    requires Reading(Inode(log), Position(log) + |Undelivered(log, parts)| + |BytesOf(got)|, more, end)
    ensures ReadOnBy(log, parts, got + more, end) && BytesOf(got + more) == BytesOf(got) + BytesOf(more)
    ensures (base + (Told(parts) + got)) + more == base + (Told(parts) + (got + more))
    ensures var before, after := base + (Told(parts) + got), base + (Told(parts) + (got + more));
            Ends(after) >= Ends(before) && (end.Some? ==> Ends(after) > Ends(before))
  {
    hide Reading, BytesOf, Ends, Told, Undelivered, Position, Inode;
    var at := Position(log) + |Undelivered(log, parts)|;
    ReadOnward(Inode(log), at, got, more, end);
    EndsOfReading(Inode(log), at + |BytesOf(got)|, more, end);
    EndsAppend(base + (Told(parts) + got), more);
    Regroup(base, Told(parts) + got, more);
    Regroup(Told(parts), got, more);
  }

  lemma StillUndelivered(undelivered: seq<byte>, served: seq<byte>, more: seq<byte>, acc: seq<byte>, unread: seq<byte>,
                         piece: seq<byte>, unread': seq<byte>)
    requires undelivered + served == acc + unread && unread + more == piece + unread'
    ensures undelivered + (served + more) == (acc + piece) + unread'
  {
    Regroup(undelivered, served, more);
    Regroup(acc, unread, more);
    Regroup(acc, piece, unread');
  }

  /** Reads come to an end exactly with what no newline ended. */
  lemma WhereItEnds(acc: seq<byte>, piece: seq<byte>, isPrefix: bool, e: Option<IOError>, end: Option<IOError>)
    requires NL !in acc && (end.Some? <==> e.Some? || IsTail(isPrefix, e, piece))
    requires e.Some? ==> piece == []
    requires isPrefix ==> e.None?
    ensures isPrefix ==> end.None?
    ensures !isPrefix ==> (IsRawLine(acc + piece) <==> end.None?)
  {
    if IsRawLine(piece) {
      RawLineAfter(acc, piece);
    }
    if IsRawLine(acc + piece) {
      RawLineBehind(acc, piece);
    }
  }

  lemma RawLineBehind(acc: seq<byte>, piece: seq<byte>)
    requires NL !in acc && IsRawLine(acc + piece)
    ensures IsRawLine(piece)
  {
    var raw := acc + piece;
    assert raw[|raw| - 1] == NL;
    assert piece != [];
    assert forall i :: 0 <= i < |piece| ==> piece[i] == raw[|acc| + i];
  }

  lemma PollAdds(before: Log, after: Log, answers: seq<Answer>, stop: Option<Stop>, done: bool)
    requires PollOutcome(before, after, answers, stop, done)
    ensures stop.Some? ==> after == before && stop != Some(StillRunning)
    ensures stop.None? ==> |after| == |before| + 1 && after == before + [after[|before|]] && IsPoll(after[|before|])
    ensures Volume(after) == Volume(before) && Quiet(before, after) && answers != []
  {
    hide Volume;
    if stop.None? {
      Appended(Law(false, false, false, false), before, after[|before|]);
    }
  }

  predicate IsPoll(e: Event) {
    e.Idle? || e.Grew? || e.Truncated? || e.Switched?
  }

  lemma PollTold(law: Law, base: seq<Answer>, log: Log, parts: seq<Part>, got: seq<Answer>, seen: seq<Answer>,
                 e: Event, done: bool, answers: seq<Answer>)
    requires Tale(law, log, parts) && |log| == |parts| > 0 && ReadOnBy(log, parts, got, Some(EOF)) && IsPoll(e)
    requires Undelivered(log, parts) + BytesOf(got) == [] && PollOutcome(log, log + [e], seen, None, done)
    requires answers == (base + (Told(parts) + got)) + seen
    ensures var parts' := parts + [Part(got, seen)];
            && Tale(law, log + [e], parts') && |log + [e]| == |parts'| && answers == base + (Told(parts') + [])
            && Undelivered(log + [e], parts') + BytesOf([]) == []
    ensures ReadOnBy(log + [e], parts + [Part(got, seen)], [], None)
  {
    hide Tale, Undelivered, Reading, BytesOf, Told, PollOutcome;
    NoneRead(log + [e], parts + [Part(got, seen)]);
    DoneIsMoot(log, log + [e], seen, done);
    OneMore(law, log, parts, e, Part(got, seen));
    Regroup(base, Told(parts) + got, seen);
    Regroup(Told(parts), got, seen);
  }

  lemma DoneIsMoot(before: Log, after: Log, answers: seq<Answer>, done: bool)
    requires PollOutcome(before, after, answers, None, done)
    ensures PollOutcome(before, after, answers, None, false)
  {
  }

  lemma PollEnds(base: seq<Answer>, log: Log, parts: seq<Part>, got: seq<Answer>, seen: seq<Answer>,
                 why: Stop, done: bool, answers: seq<Answer>)
    requires |log| == |parts| && ReadOnBy(log, parts, got, Some(EOF)) && seen != []
    requires Undelivered(log, parts) + BytesOf(got) == [] && PollOutcome(log, log, seen, Some(why), done)
    requires answers == (base + (Told(parts) + got)) + seen
    ensures Ending(log, parts, got, seen, why, done) && answers == base + (Told(parts) + (got + seen))
  {
    hide Undelivered, ReadOnBy, BytesOf, Told, PollOutcome;
    Regroup(base, Told(parts) + got, seen);
    Regroup(Told(parts), got, seen);
  }

  lemma SendTold(law: Law, base: seq<Answer>, log: Log, parts: seq<Part>, got: seq<Answer>,
                 raw: seq<byte>, text: seq<byte>, end: Option<IOError>, unread: seq<byte>)
    requires Tale(law, log, parts) && |log| == |parts| > 0 && ReadOnBy(log, parts, got, end)
    requires Undelivered(log, parts) + BytesOf(got) == raw + unread
    requires (IsRawLine(raw) <==> end.None?) && (end.Some? ==> unread == [] && MayCut(law, end.value))
    ensures var log', parts' := log + [Delivered(raw, text)], parts + [Part(got, [])];
            && Tale(law, log', parts') && |log'| == |parts'| && base + (Told(parts) + got) == base + (Told(parts') + [])
            && Undelivered(log', parts') + BytesOf([]) == [] + unread
    ensures ReadOnBy(log + [Delivered(raw, text)], parts + [Part(got, [])], [], None)
  {
    hide Tale, Undelivered, ReadOnBy, BytesOf, Told, IsRawLine;
    NoneRead(log + [Delivered(raw, text)], parts + [Part(got, [])]);
    OneMore(law, log, parts, Delivered(raw, text), Part(got, []));
    assert got + [] == got;
    assert (raw + unread)[|raw|..] == unread;
    assert raw + [] == raw;
  }

  /** A carriage return at the end of what was accumulated is followed by another one. */
  predicate KeptCR(acc: seq<byte>, unread: seq<byte>) {
    acc != [] && acc[|acc| - 1] == CR ==> unread != [] && unread[0] == CR
  }

  lemma KeptNone(unread: seq<byte>)
    ensures KeptCR([], unread)
  {
  }

  /** A carriage return that the prefix ends in stands before another one, not before the newline. */
  lemma TextAfter(acc: seq<byte>, chunk: seq<byte>, piece: seq<byte>)
    requires IsTextOf(chunk, piece) && piece != []
    requires acc != [] && acc[|acc| - 1] == CR ==> piece[0] == CR
    ensures IsTextOf(acc + chunk, acc + piece)
  {
    Regroup(acc, chunk, [CR, NL]);
    Regroup(acc, chunk, [NL]);
    if chunk == [] && piece == [NL] {
      assert acc + chunk == acc;
    }
  }

  /** Adding one more chunk to a line under assembly. */
  lemma Join(acc: seq<byte>, chunk: seq<byte>, isPrefix: bool, e: Option<IOError>, piece: seq<byte>,
             unread: seq<byte>, unread': seq<byte>)
    requires NL !in acc && KeptCR(acc, unread) && unread <= piece + unread'
    requires LineRead(chunk, isPrefix, e, piece, unread')
    ensures isPrefix ==> acc + chunk == acc + piece && NL !in acc + piece && KeptCR(acc + piece, unread')
    ensures e.Some? ==> !isPrefix && acc + piece == acc == acc + chunk && unread' == []
    ensures !isPrefix && (e.None? || acc != []) ==> IsSegment(acc + piece, acc + chunk)
    ensures !isPrefix && e.None? && !IsRawLine(acc + piece) ==> IsTail(isPrefix, e, piece)
    ensures !isPrefix && !IsRawLine(acc + piece) ==> NL !in acc + piece && unread' == []
    ensures e.None? ==> piece != []
  {
    if e.None? && IsRawLine(piece) {
      assert acc != [] && acc[|acc| - 1] == CR ==> piece[0] == (piece + unread')[0] == unread[0] == CR;
      var raw := acc + piece;
      assert raw[|raw| - 1] == NL;
      assert forall i :: |acc| <= i < |raw| - 1 ==> raw[i] == piece[i - |acc|];
      assert IsRawLine(raw);
      TextAfter(acc, chunk, piece);
    }
  }

  /** Nothing logged after `before` is a delivery. */
  predicate Quiet(before: Log, after: Log) {
    before <= after && forall i :: |before| <= i < |after| ==> !after[i].Delivered?
  }

  /** What a scan consumed that skipped n lines, and then came to an end or not. */
  predicate Skipped(given: seq<byte>, n: nat, error: Option<IOError>) {
    |LinesOf(given)| == n && (error.None? ==> WholeLines(given))
  }

  lemma NoneSkipped()
    ensures Skipped([], 0, None)
  {
  }

  lemma SkippedMore(given: seq<byte>, bytes: seq<byte>, n: nat, error: Option<IOError>)
    requires Skipped(given, n, None) && if error.None? then IsRawLine(bytes) else NL !in bytes
    ensures Skipped(given + bytes, if error.None? then n + 1 else n, error)
  {
    hide LinesOf;
    LinesAppend(given, bytes);
    if error.None? {
      LinesOfOne(bytes);
    } else {
      LinesNone(bytes);
    }
  }

  /** Where a scan that consumed `given` and read `ahead` stands, in terms of what it read. */
  lemma SoughtInBytes(given: seq<byte>, ahead: seq<byte>, n: nat, offset: nat, error: Option<IOError>)
    requires Skipped(given, n, error) && if error.Some? then ahead == [] && n < offset else n == offset
    ensures |given| == LineEnd(given + ahead, offset)
  {
    if error.Some? {
      assert given + ahead == given;
      LineEndBeyond(given, offset);
    } else {
      LineEndUnique(given, ahead);
    }
  }

  /** Where a scan that consumed `given` and read `ahead` stands, in terms of the file. */
  lemma SoughtInFile(content: seq<byte>, given: seq<byte>, ahead: seq<byte>, n: nat, offset: nat, error: Option<IOError>)
    requires Holds(content, 0, given + ahead) && Skipped(given, n, error)
    requires if error.Some? then |content| <= |given| && n < offset else n == offset
    ensures |given| == LineEnd(content, offset)
  {
    assert forall i :: 0 <= i < |given| ==> given[i] == (given + ahead)[i];
    if error.Some? {
      assert given == content;
      LineEndBeyond(content, offset);
    } else {
      assert content == given + content[|given|..];
      LineEndUnique(given, content[|given|..]);
    }
  }
}
