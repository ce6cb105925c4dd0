/** Tailing sessions of one file: the resume decision, the tailer, and the loop that processes
    each received line and then counts it; and any number of them in a row. */
module TailFile {
  import opened Lines
  import opened Wrappers
  import opened FileSystem
  import opened Contexts
  import opened Transcript
  import opened TailLog
  import opened RunRecord
  import opened Tailer
  import opened FileStates

  /** The consumer's loop: a line is counted only after it was processed, and lines are left
      over only when the context is cancelled. */
  method Consume(channel: seq<seq<byte>>, ctx: Context, state: FileState) returns (processed: seq<seq<byte>>)
    modifies state, ctx
    ensures processed <= channel && (processed == channel || ctx.done) && (old(ctx.done) ==> ctx.done)
    ensures state.Value() == old(state.Value()).(lineNumber := old(state.lineNumber) + |processed|)
  {
    processed := [];
    while |processed| < |channel|
      invariant processed <= channel && (old(ctx.done) ==> ctx.done)
      invariant state.Value() == old(state.Value()).(lineNumber := old(state.lineNumber) + |processed|)
    {
      var cancelled := ctx.IsDone();
      var preferred: bool := *;
      if cancelled && preferred {
        return;
      }
      processed := processed + [channel[|processed|]];  // ProcessLine; an error is logged and ignored
      state.IncrementLineNumber();
    }
  }

  /** A path that stays on a file that only grows by whole lines, read without failures. */
  predicate IsAppendOnly(law: Law) {
    law.stays && law.CutsAtLines()
  }

  /** The file the path names, when the path stays. */
  function Watched(disk: Disk): seq<byte>
    requires disk.Valid()
    reads disk
  {
    if disk.path.Some? then disk.inodes[disk.path.value] else []
  }

  /** One session. It runs a tailer behind the lines that the resume decision skips. If it may
      take its count over and the file is append-only, what is processed are the next lines of
      the file and the count ends where they end. If moreover its last event was an idle poll
      and nothing was left over, they are all the lines there were. */
  method Session(disk: Disk, ctx: Context, state: FileState, stat: Option<Stat>, steps: nat)
    returns (processed: seq<seq<byte>>, ghost run: Record, ghost why: Stop)
    requires disk.Valid()
    modifies disk, ctx, state
    ensures disk.Valid() && Evolves(disk.law, old(disk.inodes), disk.inodes)
    ensures disk.law.stays ==> disk.path == old(disk.path)
    ensures state.Value() == old(state.Value()).(lineNumber := old(state.lineNumber) + |processed|)
    ensures old(disk.answers) <= disk.answers
    ensures IsRun(disk.law, run, disk.answers[|old(disk.answers)|..], why, ctx.done)
    ensures why == StillRunning ==> KeptReading(run, disk.answers[|old(disk.answers)|..], steps)
    ensures run.log != [] ==> run.log[0].Started? && run.log[0].skip == Skip(old(state.Value()), stat)
    ensures ArePieces(Raws(run.log), Texts(run.log))
    ensures Legal(disk.law, run.log) && processed <= Texts(run.log) && (processed == Texts(run.log) || ctx.done)
    ensures IsAppendOnly(disk.law) && Resumable(old(state.Value()), stat)
            && old(state.lineNumber) <= |LinesOf(old(Watched(disk)))| ==>
              && NextLines(old(state.lineNumber), state.lineNumber, processed, LinesOf(Watched(disk)))
              && (run.log != [] && run.log[|run.log| - 1].Idle? && processed == Texts(run.log) ==>
                    var content := run.log[|run.log| - 1].content;
                    state.lineNumber == |LinesOf(content)| && old(Watched(disk)) <= content <= Watched(disk))
  {
    hide Legal, SinceRestart, RestartAt, Inode, LinesOf, Admits, Honest, SameFile, Opening, OnDisk;
    hide Texts, Flatten, ArePieces, IsRun, KeptReading;
    var offset := state.ResumeOffset(stat);
    SkipIsCount(state.Value(), stat);
    var t := new Tailer(disk, ctx, offset, DEFAULT_BUFFER_SIZE);
    ghost var content, n, inodes, path, answers := Watched(disk), state.lineNumber, disk.inodes, disk.path, disk.answers;
    PathIsThere(disk);
    why := t.Run(steps);
    run := Record(t.log, t.parts, t.got, t.poll);
    ghost var done := ctx.done;
    processed := Consume(t.lines, ctx, state);
    DoneLater(disk.law, run, disk.answers[|answers|..], why, done, ctx.done);
    ghost var log := run.log;
    NothingSent(disk.law);
    if IsAppendOnly(disk.law) {
      WatchedGrows(disk, inodes, path);
      StillLines(0, 0, [], content, Watched(disk));
      if log != [] {
        OneInode(log);
        if log[|log| - 1].Idle? {
          assert disk.answers == answers + disk.answers[|answers|..];
          LastReported(disk.law, disk.inodes, answers, run, disk.answers[|answers|..], why, ctx.done);
        }
        if offset == n <= |LinesOf(content)| {
          LinesGrow(content, log[0].start);
          TakenOver(n, Texts(log), processed, LinesOf(Watched(disk)));
        }
      }
    }
  }

  /** Lines from one count to another. */
  predicate NextLines(before: nat, after: nat, lines: seq<seq<byte>>, all: seq<seq<byte>>) {
    before <= after <= |all| && lines == all[before..after]
  }

  lemma {:induction false} OneInode(log: Log)
    requires OneFile(log)
    ensures Inode(log) == log[0].inode
    decreases |log|
  {
    if |log| > 1 {
      var front, e := log[..|log| - 1], log[|log| - 1];
      assert log[1..] == front[1..] + [e] && e in log[1..];
      assert forall x <- front[1..] :: x in log[1..];
      OneInode(front);
    }
  }

  lemma TakenOver(skip: nat, texts: seq<seq<byte>>, processed: seq<seq<byte>>, all: seq<seq<byte>>)
    requires skip <= |all| && texts <= all[skip..] && processed <= texts
    ensures NextLines(skip, skip + |processed|, processed, all)
  {
  }

  /** One of several sessions: the count it began with, its run, the disk's answers to it, how
      it ended, and the lines that were processed. */
  datatype Round = Round(from: nat, run: Record, answers: seq<Answer>, why: Stop, processed: seq<seq<byte>>)

  function Processed(rounds: seq<Round>): seq<seq<byte>> {
    if rounds == [] then [] else Processed(rounds[..|rounds| - 1]) + rounds[|rounds| - 1].processed
  }

  function AnswersTo(rounds: seq<Round>): seq<Answer> {
    if rounds == [] then [] else AnswersTo(rounds[..|rounds| - 1]) + rounds[|rounds| - 1].answers
  }

  /** A run that skipped the lines counted before, and lines it sent. */
  predicate Resumes(law: Law, r: Round) {
    && IsRun(law, r.run, r.answers, r.why, true) && r.processed <= Texts(r.run.log)
    && (r.run.log != [] ==> r.run.log[0].Started? && r.run.log[0].skip == r.from)
  }

  /** Each resumes behind what those before it processed. */
  predicate InARow(law: Law, first: nat, rounds: seq<Round>) {
    rounds == [] ||
    (var front, last := rounds[..|rounds| - 1], rounds[|rounds| - 1];
     InARow(law, first, front) && Resumes(law, last) && last.from == first + |Processed(front)|)
  }

  /** What these rounds did, from a count on: together they processed the file's lines from
      that count to the last, none repeated and none skipped. */
  ghost predicate Followed(disk: Disk, state: FileState, first: nat, earlier: seq<Answer>, rounds: seq<Round>)
    reads disk, state
  {
    && disk.Valid() && InARow(disk.law, first, rounds) && disk.answers == earlier + AnswersTo(rounds)
    && NextLines(first, state.lineNumber, Processed(rounds), LinesOf(Watched(disk)))
  }

  lemma OneRoundMore(law: Law, first: nat, rounds: seq<Round>, r: Round)
    ensures InARow(law, first, rounds + [r]) <==>
            InARow(law, first, rounds) && Resumes(law, r) && r.from == first + |Processed(rounds)|
    ensures Processed(rounds + [r]) == Processed(rounds) + r.processed
    ensures AnswersTo(rounds + [r]) == AnswersTo(rounds) + r.answers
  {
    assert (rounds + [r])[..|rounds|] == rounds;
  }

  /** One more session that takes its count over. */
  method Resume(disk: Disk, state: FileState, stat: Option<Stat>, steps: nat,
                ghost first: nat, ghost earlier: seq<Answer>, ghost rounds: seq<Round>)
    returns (processed: seq<seq<byte>>, ghost round: Round)
    requires IsAppendOnly(disk.law) && Followed(disk, state, first, earlier, rounds) && Resumable(state.Value(), stat)
    modifies disk, state
    ensures disk.Valid() && Followed(disk, state, first, earlier, rounds + [round]) && processed == round.processed
    ensures Processed(rounds + [round]) == Processed(rounds) + processed
    ensures disk.path == old(disk.path) && old(Watched(disk)) <= Watched(disk)
    ensures state.Value() == old(state.Value()).(lineNumber := old(state.lineNumber) + |processed|)
  {
    hide LinesOf, Legal, Texts, Evolves, Admits, Honest, SameFile, IsRun, InARow, Processed, AnswersTo, KeptReading;
    hide Skip;
    var ctx := new Context();
    ghost var n, content, inodes, path, answers := state.lineNumber, Watched(disk), disk.inodes, disk.path, disk.answers;
    ghost var run, why;
    PathIsThere(disk);
    SkipIsCount(state.Value(), stat);
    processed, run, why := Session(disk, ctx, state, stat, steps);
    WatchedGrows(disk, inodes, path);
    round := Round(n, run, disk.answers[|answers|..], why, processed);
    DoneLater(disk.law, run, round.answers, why, ctx.done, true);
    OneRoundMore(disk.law, first, rounds, round);
    Regroup(earlier, AnswersTo(rounds), round.answers);
    Chained(first, n, state.lineNumber, Processed(rounds), processed, content, Watched(disk));
  }

  /** Other writers, while no session runs. */
  method Between(disk: Disk, ghost state: FileState, ghost first: nat, ghost earlier: seq<Answer>, ghost rounds: seq<Round>)
    requires IsAppendOnly(disk.law) && Followed(disk, state, first, earlier, rounds)
    modifies disk`inodes, disk`path
    ensures disk.Valid() && Followed(disk, state, first, earlier, rounds)
    ensures disk.path == old(disk.path) && old(Watched(disk)) <= Watched(disk)
  {
    hide LinesOf, Evolves, Admits, Honest, InARow, Processed, AnswersTo;
    ghost var content, inodes, path := Watched(disk), disk.inodes, disk.path;
    PathIsThere(disk);
    disk.Interfere();
    WatchedGrows(disk, inodes, path);
    StillLines(first, state.lineNumber, Processed(rounds), content, Watched(disk));
  }

  lemma NoRounds(disk: Disk, state: FileState)
    requires disk.Valid() && state.lineNumber <= |LinesOf(Watched(disk))|
    ensures Followed(disk, state, state.lineNumber, disk.answers, []) && Processed([]) == []
  {
    hide LinesOf;
    assert disk.answers + [] == disk.answers;
  }

  /** Sessions in a row, each in a process of its own that found the file by some stat, with
      other writers and a new stamp of the metadata in between. They go on as long as the next
      one may take its count over. */
  method Sessions(disk: Disk, state: FileState, stats: seq<Option<Stat>>, stamps: seq<Option<Stat>>, steps: nat)
    returns (all: seq<seq<byte>>, ghost rounds: seq<Round>)
    requires disk.Valid() && IsAppendOnly(disk.law) && |stamps| == |stats|
    requires state.lineNumber <= |LinesOf(Watched(disk))|
    modifies disk, state
    ensures Followed(disk, state, old(state.lineNumber), old(disk.answers), rounds) && all == Processed(rounds)
    ensures |rounds| <= |stats| && (|rounds| < |stats| ==> !Resumable(state.Value(), stats[|rounds|]))
  {
    hide LinesOf, Followed, SameFile;
    NoRounds(disk, state);
    all, rounds := [], [];
    var resumed := 0;
    while resumed < |stats|
      invariant resumed == |rounds| <= |stats| && all == Processed(rounds)
      invariant Followed(disk, state, old(state.lineNumber), old(disk.answers), rounds)
    {
      var mayResume := Match(state.Value(), stats[resumed]).Some? || state.lineNumber == 0;
      if !mayResume {
        return;
      }
      var processed;
      ghost var round;
      processed, round := Resume(disk, state, stats[resumed], steps, old(state.lineNumber), old(disk.answers), rounds);
      all, rounds := all + processed, rounds + [round];
      Stamping(disk, state, stamps[resumed], old(state.lineNumber), old(disk.answers), rounds);
      Between(disk, state, old(state.lineNumber), old(disk.answers), rounds);
      resumed := resumed + 1;
    }
  }

  method Stamping(ghost disk: Disk, state: FileState, stat: Option<Stat>,
                  ghost first: nat, ghost earlier: seq<Answer>, ghost rounds: seq<Round>)
    requires Followed(disk, state, first, earlier, rounds)
    modifies state
    ensures Followed(disk, state, first, earlier, rounds) && state.Value() == Stamped(old(state.Value()), stat)
  {
    state.UpdateMetadata(stat);
  }

  /** What a stat that works reports of the path. A modification changes the size here, so the
      size determines the modification time. */
  function TrueStat(disk: Disk, modifiedAt: nat -> int): Option<Stat>
    requires disk.Valid()
    reads disk
  {
    if disk.path.None? then None
    else Some(Stat(Some(disk.path.value), |Watched(disk)|, modifiedAt(|Watched(disk)|)))
  }

  /** The metadata was true of the file once. */
  predicate OnceTrue(s: Saved, disk: Disk, modifiedAt: nat -> int)
    requires disk.Valid()
    reads disk
  {
    disk.path == Some(s.inode) && s.fileSize <= |Watched(disk)| && s.lastModified == modifiedAt(s.fileSize)
  }

  lemma TrueStatsVouch(s: Saved, disk: Disk, modifiedAt: nat -> int)
    requires disk.Valid() && disk.path.Some? && disk.path.value > 0 && OnceTrue(s, disk, modifiedAt)
    ensures Resumable(s, TrueStat(disk, modifiedAt))
  {
  }

  /** One of them: resumed by a stat, and stamped by another when it ended. */
  method Restart(disk: Disk, state: FileState, modifiedAt: nat -> int, steps: nat,
                 ghost first: nat, ghost earlier: seq<Answer>, ghost rounds: seq<Round>)
    returns (processed: seq<seq<byte>>, ghost round: Round)
    requires IsAppendOnly(disk.law) && Followed(disk, state, first, earlier, rounds) && disk.Valid()
    requires disk.path.Some? && disk.path.value > 0
    requires state.lineNumber == 0 || OnceTrue(state.Value(), disk, modifiedAt)
    modifies disk, state
    ensures disk.Valid() && Followed(disk, state, first, earlier, rounds + [round])
    ensures disk.path == old(disk.path) && OnceTrue(state.Value(), disk, modifiedAt)
    ensures Processed(rounds + [round]) == Processed(rounds) + processed
  {
    hide Followed, Processed, SameFile, Admits, Honest, LinesOf;
    if state.lineNumber > 0 {
      TrueStatsVouch(state.Value(), disk, modifiedAt);
    }
    processed, round := Resume(disk, state, TrueStat(disk, modifiedAt), steps, first, earlier, rounds);
    Stamping(disk, state, TrueStat(disk, modifiedAt), first, earlier, rounds + [round]);
    Between(disk, state, first, earlier, rounds + [round]);
  }

  /** Restarts at any moments, on an append-only file, with stats that work: every session
      resumes, and together they processed the file's lines from the first count to the last,
      whatever other writers appended meanwhile. */
  method Restarts(disk: Disk, state: FileState, n: nat, modifiedAt: nat -> int, steps: nat)
    returns (all: seq<seq<byte>>, ghost rounds: seq<Round>)
    requires disk.Valid() && IsAppendOnly(disk.law) && disk.path != Some(0)
    requires state.lineNumber == 0 || OnceTrue(state.Value(), disk, modifiedAt)
    requires state.lineNumber <= |LinesOf(Watched(disk))|
    modifies disk, state
    ensures Followed(disk, state, old(state.lineNumber), old(disk.answers), rounds) && all == Processed(rounds)
    ensures |rounds| == n
  {
    hide LinesOf, Followed, Processed, OnceTrue;
    NoRounds(disk, state);
    PathIsThere(disk);
    all, rounds := [], [];
    for i := 0 to n
      invariant i == |rounds| && all == Processed(rounds)
      invariant Followed(disk, state, old(state.lineNumber), old(disk.answers), rounds)
      invariant disk.Valid() && disk.path == old(disk.path)
      invariant state.lineNumber == 0 || OnceTrue(state.Value(), disk, modifiedAt)
    {
      var processed;
      ghost var round;
      processed, round := Restart(disk, state, modifiedAt, steps, old(state.lineNumber), old(disk.answers), rounds);
      all, rounds := all + processed, rounds + [round];
    }
  }

  lemma WatchedGrows(disk: Disk, inodes: Inodes, path: Option<nat>)
    requires disk.Valid() && disk.law.grows && Evolves(disk.law, inodes, disk.inodes) && disk.path == path
    requires path.Some? ==> path.value in inodes
    ensures path.Some? ==> inodes[path.value] <= Watched(disk)
  {
  }

  lemma PathIsThere(disk: Disk)
    requires disk.Valid()
    ensures disk.path.Some? ==> disk.path.value in disk.inodes
    ensures disk.law.stays ==> disk.path.Some?
  {
  }

  lemma StillLines(before: nat, after: nat, lines: seq<seq<byte>>, content: seq<byte>, later: seq<byte>)
    requires NextLines(before, after, lines, LinesOf(content)) && content <= later
    ensures NextLines(before, after, lines, LinesOf(later)) && |LinesOf(content)| <= |LinesOf(later)|
  {
    hide LinesOf;
    LinesGrow(content, later);
  }

  lemma Chained(a: nat, b: nat, c: nat, first: seq<seq<byte>>, second: seq<seq<byte>>, content: seq<byte>, later: seq<byte>)
    requires content <= later && NextLines(a, b, first, LinesOf(content)) && NextLines(b, c, second, LinesOf(later))
    ensures NextLines(a, c, first + second, LinesOf(later))
  {
    hide LinesOf;
    LinesGrow(content, later);
  }
}
