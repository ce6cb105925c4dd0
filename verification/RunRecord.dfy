/** A run of the tailer told by the disk's transcript: which answers lie behind every event, and
    what of it the tailer was free to choose (nothing but when to stop). */
module RunRecord {
  import opened Lines
  import opened Wrappers
  import opened FileSystem
  import opened Transcript
  import opened TailLog

  const MAX_REOPEN_ATTEMPTS := 10

  datatype Stop = Cancelled | Broken(error: IOError) | ReopenExhausted | StillRunning

  // ---------- what a poll at end of file must do, given the disk's answers ----------

  /** The attempts to open the path again: each before the last finds nothing, and an
      eleventh such attempt ends the run. */
  predicate Reopened(before: Log, after: Log, reason: Reason, opens: seq<Answer>, stop: Option<Stop>, done: bool) {
    var n := |opens|;
    match stop
    case None =>
      && 0 < n <= MAX_REOPEN_ATTEMPTS + 1 && Missing(opens[..n - 1])
      && opens[n - 1].Opened? && opens[n - 1].r.Success?
      && after == before + [Switched(reason, opens[n - 1].r.value)]
    case Some(Cancelled) => n <= MAX_REOPEN_ATTEMPTS && Missing(opens) && done && after == before
    case Some(ReopenExhausted) => n == MAX_REOPEN_ATTEMPTS + 1 && Missing(opens) && after == before
    case Some(Broken(e)) =>
      && 0 < n <= MAX_REOPEN_ATTEMPTS + 1 && Missing(opens[..n - 1])
      && opens[n - 1] == Opened(Failure(e)) && e != NotExist && after == before
    case Some(StillRunning) => false
  }

  predicate Missing(opens: seq<Answer>) {
    forall a <- opens :: a == Opened(Failure(NotExist))
  }

  /** The open file has no more to give: a path that is missing or names another inode is
      opened again, one that names the same inode makes the tailer wait. */
  predicate PathOutcome(before: Log, after: Log, content: seq<byte>, answers: seq<Answer>, stop: Option<Stop>, done: bool) {
    && answers != [] && answers[0].AtPath?
    && match answers[0].r
       case Success(onDisk) =>
         if onDisk == Inode(before) then |answers| == 1 && stop.None? && after == before + [Idle(content)]
         else Reopened(before, after, NotSameFile(content, onDisk), answers[1..], stop, done)
       case Failure(e) =>
         if e == NotExist then Reopened(before, after, PathMissing(content), answers[1..], stop, done)
         else |answers| == 1 && stop == Some(Broken(e)) && after == before
  }

  /** A file shorter than what was read of it is read from its start, a longer one is read on,
      and otherwise the path is looked at. */
  predicate SizeOutcome(before: Log, after: Log, content: seq<byte>, answers: seq<Answer>, stop: Option<Stop>, done: bool) {
    if |content| < Position(before) then answers == [] && stop.None? && after == before + [Truncated(content)]
    else if |content| > Position(before) then answers == [] && stop.None? && after == before + [Grew(content)]
    else PathOutcome(before, after, content, answers, stop, done)
  }

  /** The open file is statted first; one that is gone is opened again. */
  predicate PollOutcome(before: Log, after: Log, answers: seq<Answer>, stop: Option<Stop>, done: bool) {
    && answers != [] && answers[0].OpenFile? && answers[0].inode == Inode(before)
    && match answers[0].content
       case Success(content) => SizeOutcome(before, after, content, answers[1..], stop, done)
       case Failure(e) =>
         if e == NotExist then Reopened(before, after, OpenFileMissing, answers[1..], stop, done)
         else |answers| == 1 && stop == Some(Broken(e)) && after == before
  }

  /** The disk's answers alone decide what a poll does: what it logs, and whether and why the run
      ends. */
  lemma PollIsDetermined(before: Log, answers: seq<Answer>, after: Log, after': Log,
                         stop: Option<Stop>, stop': Option<Stop>, done: bool, done': bool)
    requires PollOutcome(before, after, answers, stop, done) && PollOutcome(before, after', answers, stop', done')
    ensures after == after' && stop == stop'
  {
    hide Position, Inode, Reopened;
    if answers[0].content.Failure? {
      ReopeningIsDetermined(before, OpenFileMissing, answers[1..], after, after', stop, stop', done, done');
    } else if |answers| > 1 && answers[1].AtPath? {
      var content := answers[0].content.value;
      assert answers[1..][1..] == answers[2..] && answers[1..][0] == answers[1];
      var reason := if answers[1].r.Success? then NotSameFile(content, answers[1].r.value) else PathMissing(content);
      ReopeningIsDetermined(before, reason, answers[2..], after, after', stop, stop', done, done');
    }
  }

  lemma ReopeningIsDetermined(before: Log, reason: Reason, opens: seq<Answer>, after: Log, after': Log,
                              stop: Option<Stop>, stop': Option<Stop>, done: bool, done': bool)
    ensures Reopened(before, after, reason, opens, stop, done) && Reopened(before, after', reason, opens, stop', done') ==>
              after == after' && stop == stop'
  {
    if Missing(opens) && opens != [] {
      assert opens[|opens| - 1] in opens;
    }
  }

  /** As many answers that the path is missing. */
  function Misses(n: nat): seq<Answer> {
    seq(n, _ => Opened(Failure(NotExist)))
  }

  lemma MissesThen(n: nat, last: Answer)
    ensures var opens := Misses(n) + [last];
            |opens| == n + 1 && Missing(opens[..n]) && opens[n] == last && Missing(Misses(n))
  {
    assert (Misses(n) + [last])[..n] == Misses(n);
  }

  /** How the attempts to open the path again decide: the first that finds a file switches to it
      if at most ten found none before, the eleventh that finds none ends the run, and so does
      any other error. */
  lemma ReopeningDecides(before: Log, reason: Reason, n: nat, inode: nat, e: IOError, done: bool)
    requires n <= 10 && e != NotExist
    ensures Reopened(before, before + [Switched(reason, inode)], reason, Misses(n) + [Opened(Success(inode))], None, done)
    ensures Reopened(before, before, reason, Misses(n) + [Opened(Failure(e))], Some(Broken(e)), done)
    ensures Reopened(before, before, reason, Misses(11), Some(ReopenExhausted), done)
    ensures Reopened(before, before, reason, Misses(n), Some(Cancelled), true)
  {
    MissesThen(n, Opened(Success(inode)));
    MissesThen(n, Opened(Failure(e)));
    MissesThen(11, Opened(Failure(e)));
  }

  /** How the stats decide. */
  lemma PollDecides(before: Log, content: seq<byte>, e: IOError, done: bool)
    requires e != NotExist
    ensures var stated := OpenFile(Inode(before), Success(content));
            && (|content| < Position(before) ==> PollOutcome(before, before + [Truncated(content)], [stated], None, done))
            && (|content| > Position(before) ==> PollOutcome(before, before + [Grew(content)], [stated], None, done))
            && (|content| == Position(before) ==>
                  && PollOutcome(before, before + [Idle(content)], [stated] + [AtPath(Success(Inode(before)))], None, done)
                  && PollOutcome(before, before, [stated] + [AtPath(Failure(e))], Some(Broken(e)), done))
    ensures PollOutcome(before, before, [OpenFile(Inode(before), Failure(e))], Some(Broken(e)), done)
  {
    hide Position, Inode, Reopened;
    var stated := OpenFile(Inode(before), Success(content));
    assert [stated][1..] == [] && ([stated] + [AtPath(Success(Inode(before)))])[1..] == [AtPath(Success(Inode(before)))];
    assert ([stated] + [AtPath(Failure(e))])[1..] == [AtPath(Failure(e))];
  }

  /** And when they lead to the path being opened again. */
  lemma PollReopens(before: Log, after: Log, content: seq<byte>, onDisk: nat, opens: seq<Answer>,
                    stop: Option<Stop>, done: bool)
    ensures PollOutcome(before, after, [OpenFile(Inode(before), Failure(NotExist))] + opens, stop, done) <==>
            Reopened(before, after, OpenFileMissing, opens, stop, done)
    ensures |content| == Position(before) ==>
              var stated := OpenFile(Inode(before), Success(content));
              && (PollOutcome(before, after, [stated] + ([AtPath(Failure(NotExist))] + opens), stop, done) <==>
                  Reopened(before, after, PathMissing(content), opens, stop, done))
              && (onDisk != Inode(before) ==>
                    (PollOutcome(before, after, [stated] + ([AtPath(Success(onDisk))] + opens), stop, done) <==>
                     Reopened(before, after, NotSameFile(content, onDisk), opens, stop, done)))
  {
    hide Position, Inode, Reopened;
    var stated := OpenFile(Inode(before), Success(content));
    assert ([OpenFile(Inode(before), Failure(NotExist))] + opens)[1..] == opens;
    var missing, other := [AtPath(Failure(NotExist))] + opens, [AtPath(Success(onDisk))] + opens;
    assert ([stated] + missing)[1..] == missing && missing[1..] == opens;
    assert ([stated] + other)[1..] == other && other[1..] == opens;
  }

  // ---------- the answers behind a log ----------

  /** The answers behind one event: the reads before it, and those of the poll that it is. For
      the start, the poll is the opening with the reads that skipped lines. */
  datatype Part = Part(got: seq<Answer>, poll: seq<Answer>)

  function Told(parts: seq<Part>): seq<Answer> {
    if parts == [] then []
    else Told(parts[..|parts| - 1]) + (parts[|parts| - 1].got + parts[|parts| - 1].poll)
  }

  /** The bytes served by all these reads. */
  function ServedBytes(parts: seq<Part>): seq<byte> {
    if parts == [] then [] else ServedBytes(parts[..|parts| - 1]) + BytesOf(parts[|parts| - 1].got)
  }

  function Drop(s: seq<byte>, n: nat): seq<byte> {
    if n <= |s| then s[n..] else []
  }

  /** The bytes served since reading last began anew that are not delivered yet. */
  function Undelivered(log: Log, parts: seq<Part>): seq<byte>
    requires |log| == |parts|
  {
    if log == [] then []
    else
      var n := |log| - 1;
      var served := Undelivered(log[..n], parts[..n]) + BytesOf(parts[n].got);
      if Restarts(log[n]) then []
      else if log[n].Delivered? then Drop(served, |log[n].raw|)
      else served
  }

  /** Consecutive reads of the current file, from where the reads since the last restart
      ended. */
  predicate ReadOnBy(log: Log, parts: seq<Part>, got: seq<Answer>, end: Option<IOError>)
    requires |log| == |parts|
  {
    Reading(Inode(log), Position(log) + |Undelivered(log, parts)|, got, end)
  }

  /** How an event comes about. The start is at the end of the lines to skip of the bytes
      served, or of all of them if there are fewer. A delivery is the next bytes that were served: a line, or all
      there is when reads came to an end. Everything else is a poll at an end of file with
      nothing undelivered, and the one its answers call for. */
  predicate Scene(law: Law, log: Log, parts: seq<Part>, e: Event, part: Part)
    requires |log| == |parts|
  {
    var left := Undelivered(log, parts) + BytesOf(part.got);
    match e
    case Started(inode, _, skip, at) =>
      && log == [] && part.got == [] && part.poll != [] && part.poll[0] == Opened(Success(inode))
      && Sought(inode, part.poll[1..], skip, at)
    case Delivered(raw, _) =>
      && log != [] && part.poll == [] && raw <= left
      && if IsRawLine(raw) then ReadOnBy(log, parts, part.got, None)
         else raw == left && (CutBy(law, log, parts, part.got, EOF) || CutBy(law, log, parts, part.got, Failed))
    case _ =>
      && log != [] && left == [] && ReadOnBy(log, parts, part.got, Some(EOF))
      && PollOutcome(log, log + [e], part.poll, None, false)
  }

  /** The bytes served, up to the end of the lines to skip if there are as many. */
  predicate Sought(inode: nat, got: seq<Answer>, skip: nat, at: nat) {
    (Reading(inode, 0, got, None) || Reading(inode, 0, got, Some(EOF))) && at == LineEnd(BytesOf(got), skip)
  }

  predicate Tale(law: Law, log: Log, parts: seq<Part>) {
    && |log| == |parts|
    && (log == [] ||
        var n := |log| - 1;
        Tale(law, log[..n], parts[..n]) && Scene(law, log[..n], parts[..n], log[n], parts[n]))
  }

  /** Reads that end within a line: at the end of a file whose last line is unfinished, or for
      a failure. */
  predicate CutBy(law: Law, log: Log, parts: seq<Part>, got: seq<Answer>, e: IOError)
    requires |log| == |parts|
  {
    ReadOnBy(log, parts, got, Some(e)) && MayCut(law, e)
  }

  predicate MayCut(law: Law, e: IOError) {
    if e == EOF then !(law.grows && law.whole) else e == Failed && !law.reliable
  }

  predicate HasRead(inode: nat, at: nat, got: seq<Answer>) {
    Reading(inode, at, got, None) || Reading(inode, at, got, Some(EOF)) || Reading(inode, at, got, Some(Failed))
  }

  /** How a run ends after its last event: within a poll, for a failed read with nothing
      buffered, cancelled, or merely observed no longer. */
  predicate Ending(log: Log, parts: seq<Part>, got: seq<Answer>, poll: seq<Answer>, why: Stop, done: bool)
    requires |log| == |parts|
  {
    if poll != [] then
      && Undelivered(log, parts) + BytesOf(got) == [] && ReadOnBy(log, parts, got, Some(EOF))
      && PollOutcome(log, log, poll, Some(why), done)
    else
      match why
      case Cancelled => done && HasRead(Inode(log), Position(log) + |Undelivered(log, parts)|, got)
      case Broken(e) => e == Failed && ReadOnBy(log, parts, got, Some(Failed))
      case ReopenExhausted => false
      case StillRunning => ReadOnBy(log, parts, got, None)
  }

  /** The log of a run with the answers behind it, and the answers after its last event. */
  datatype Record = Record(log: Log, parts: seq<Part>, got: seq<Answer>, poll: seq<Answer>)

  /** The opening failed, or a read while lines were skipped. */
  predicate NeverStarted(answers: seq<Answer>, why: Stop) {
    && why.Broken? && answers != [] && answers[0].Opened?
    && match answers[0].r
       case Failure(e) => |answers| == 1 && why.error == e
       case Success(inode) => why.error == Failed && Reading(inode, 0, answers[1..], Some(Failed))
  }

  /** A run that met these answers of the disk. */
  predicate IsRun(law: Law, run: Record, answers: seq<Answer>, why: Stop, done: bool) {
    if run.log == [] then
      run == Record([], [], [], []) && NeverStarted(answers, why)
    else
      && Tale(law, run.log, run.parts) && answers == Told(run.parts) + (run.got + run.poll)
      && Ending(run.log, run.parts, run.got, run.poll, why, done)
  }

  /** Being cancelled later does not change what a run was. */
  lemma DoneLater(law: Law, run: Record, answers: seq<Answer>, why: Stop, done: bool, later: bool)
    requires IsRun(law, run, answers, why, done) && (done ==> later)
    ensures IsRun(law, run, answers, why, later)
  {
    hide Tale, Told, Undelivered, ReadOnBy, HasRead, NeverStarted;
  }

  /** Of a run that was still going: every one of its calls of ReadLine took bytes, which were
      delivered or are pending, or came to an end. */
  predicate KeptReading(run: Record, answers: seq<Answer>, calls: nat) {
    && |run.log| == |run.parts| > 0
    && calls <= Volume(run.log) + |Undelivered(run.log, run.parts) + BytesOf(run.got)| + Ends(answers)
  }

  lemma OneMore(law: Law, log: Log, parts: seq<Part>, e: Event, part: Part)
    requires |log| == |parts|
    ensures Tale(law, log + [e], parts + [part]) <==> Tale(law, log, parts) && Scene(law, log, parts, e, part)
    ensures Told(parts + [part]) == Told(parts) + (part.got + part.poll)
    ensures ServedBytes(parts + [part]) == ServedBytes(parts) + BytesOf(part.got)
    ensures var served := Undelivered(log, parts) + BytesOf(part.got);
            Undelivered(log + [e], parts + [part]) ==
            if Restarts(e) then [] else if e.Delivered? then Drop(served, |e.raw|) else served
  {
    assert (log + [e])[..|log|] == log && (parts + [part])[..|parts|] == parts;
  }

  lemma {:induction false} TaleFront(law: Law, log: Log, parts: seq<Part>, k: nat)
    requires Tale(law, log, parts) && k <= |log|
    ensures Tale(law, log[..k], parts[..k])
    decreases |log|
  {
    if k == |log| {
      assert log[..k] == log && parts[..k] == parts;
    } else {
      var n := |log| - 1;
      TaleFront(law, log[..n], parts[..n], k);
      assert log[..n][..k] == log[..k] && parts[..n][..k] == parts[..k];
    }
  }

  lemma SceneAt(law: Law, log: Log, parts: seq<Part>, k: nat)
    requires Tale(law, log, parts) && k < |log|
    ensures |log| == |parts| && Scene(law, log[..k], parts[..k], log[k], parts[k])
  {
    TaleFront(law, log, parts, k + 1);
    assert log[..k + 1][..k] == log[..k] && parts[..k + 1][..k] == parts[..k];
  }

  /** On every disk, from a restart on, the deliveries and what is left are the bytes served. */
  lemma {:induction false} DeliveredIsServed(law: Law, log: Log, parts: seq<Part>, j: nat)
    requires Tale(law, log, parts) && j < |log| && Restarts(log[j]) && NoRestarts(log[j + 1..])
    ensures Flatten(Raws(log[j + 1..])) + Undelivered(log, parts) == ServedBytes(parts[j + 1..])
    decreases |log|
  {
    hide Flatten, Raws, Scene, BytesOf, Reading;
    var n := |log| - 1;
    if j == n {
      assert log[j + 1..] == [] && parts[j + 1..] == [];
      FlatNone();
    } else {
      var front, e, part := log[..n], log[n], parts[n];
      LastApart(log, j + 1);
      assert parts[j + 1..] == parts[..n][j + 1..] + [part];
      assert log == front + [e] && parts == parts[..n] + [part];
      var before, all := front[j + 1..], log[j + 1..];
      assert e in all && forall x <- before :: x in all;
      DeliveredIsServed(law, front, parts[..n], j);
      FlatStep(Law(false, false, false, false), front[j + 1..], e);
      OneMore(law, front, parts[..n], e, part);
      OneMore(law, front[j + 1..], parts[..n][j + 1..], e, part);
      var a, b, c := Flatten(Raws(front[j + 1..])), Undelivered(front, parts[..n]), BytesOf(part.got);
      Regroup(a, b, c);
      if e.Delivered? {
        DeliveredFirst(law, front, parts[..n], e, part);
        Regroup(a, e.raw, Undelivered(log, parts));
      } else {
        assert a + [] == a;
      }
    }
  }

  /** And these reads are of the file of the restart, each from where the one before ended,
      the first from the restart offset. */
  lemma ReadsInOrder(law: Law, log: Log, parts: seq<Part>, j: nat, k: nat)
    requires Tale(law, log, parts) && j < k < |log| && Restarts(log[j]) && NoRestarts(log[j + 1..k])
    ensures HasRead(Inode(log[..j + 1]), RestartAt(log[..j + 1]) + |ServedBytes(parts[j + 1..k])|, parts[k].got)
  {
    hide Tale, ServedBytes, Reading, BytesOf, PollOutcome;
    SceneAt(law, log, parts, k);
    hide Flatten, Raws, Inode, RestartAt, SinceRestart, Undelivered;
    TaleFront(law, log, parts, k);
    assert log[..k][j + 1..] == log[j + 1..k] && parts[..k][j + 1..] == parts[j + 1..k];
    assert log[..k][..j + 1] == log[..j + 1] && log[k - 1] == log[..k][k - 1];
    DeliveredIsServed(law, log[..k], parts[..k], j);
    SinceRestartIsFlat(Law(false, false, false, false), log[..k], j);
  }

  /** The first event is the start, at the lines to skip of what was served before. */
  lemma FirstSeen(law: Law, log: Log, parts: seq<Part>)
    requires Tale(law, log, parts) && log != []
    ensures log[0].Started? && parts[0].poll != [] && parts[0].poll[0] == Opened(Success(log[0].inode))
    ensures Sought(log[0].inode, parts[0].poll[1..], log[0].skip, log[0].at)
  {
    hide Sought, PollOutcome, Reading;
    SceneAt(law, log, parts, 0);
  }

  lemma DeliveredFirst(law: Law, log: Log, parts: seq<Part>, e: Event, part: Part)
    requires |log| == |parts| && Scene(law, log, parts, e, part) && e.Delivered?
    ensures var served := Undelivered(log, parts) + BytesOf(part.got);
            served == e.raw + Drop(served, |e.raw|)
  {
  }

  /** Rotation drains before switching, in every run, with everything as the disk reported it.
      Take any restart of the record of a run, and any later comparison of the open file with
      the path before the next restart. The poll saw the open file with a content and the path
      missing, on another inode, or on the same one, as the event says. On every disk the
      deliveries in between are exactly the bytes that reads served since the restart, and as
      many as the content has from the restart offset on. If files only grow they are the
      content there; if pieces are cut at newlines the texts are its lines; and without carriage
      returns they are it less newlines. */
  lemma RotationDrains(law: Law, log: Log, parts: seq<Part>, j: nat, k: nat) returns (content: seq<byte>)
    requires Legal(law, log) && Tale(law, log, parts) && j < k < |log|
    requires Restarts(log[j]) && NoRestarts(log[j + 1..k]) && IsComparison(log[k])
    ensures |parts[k].poll| >= 2 && parts[k].poll[0] == OpenFile(Inode(log[..k]), Success(content))
    ensures PathSeen(log[k], Inode(log[..k]), parts[k].poll)
    ensures var from, sent := RestartAt(log[..j + 1]), log[j + 1..k];
            && Flatten(Raws(sent)) == ServedBytes(parts[j + 1..k]) + BytesOf(parts[k].got)
            && from <= |content| && from + |Flatten(Raws(sent))| == |content|
            && (law.grows ==> Flatten(Raws(sent)) == content[from..])
            && (law.CutsAtLines() ==> Texts(sent) == LinesOf(content[from..]))
            && (law.grows && CR !in content[from..] ==> Flatten(Texts(sent)) == WithoutNewlines(content[from..]))
            && (!log[j].Started? ==> from == 0)
  {
    hide Legal, LegalStep, Flatten, Raws, Texts, LinesOf, RestartAt, SinceRestart, Opening, Inode, Undelivered, Reading;
    hide BytesOf;
    hide Tale, ServedBytes;
    content := Compared(log[k]);
    Drains(law, log, j, k);
    SceneAt(law, log, parts, k);
    ComparisonSeen(log[..k], log[k], parts[k].poll);
    TaleFront(law, log, parts, k);
    assert log[..k][j + 1..] == log[j + 1..k] && parts[..k][j + 1..] == parts[j + 1..k];
    DeliveredIsServed(law, log[..k], parts[..k], j);
    NothingLeft(Flatten(Raws(log[j + 1..k])), Undelivered(log[..k], parts[..k]), BytesOf(parts[k].got));
  }

  lemma NothingLeft(a: seq<byte>, b: seq<byte>, c: seq<byte>)
    requires b + c == []
    ensures a == (a + b) + c
  {
    Regroup(a, b, c);
  }

  /** What a poll found at the path, and what it then opened. */
  predicate PathSeen(e: Event, inode: nat, poll: seq<Answer>)
    requires IsComparison(e) && |poll| >= 2
  {
    if e.Idle? then |poll| == 2 && poll[1] == AtPath(Success(inode))
    else
      && (if e.reason.PathMissing? then poll[1] == AtPath(Failure(NotExist))
          else poll[1] == AtPath(Success(e.reason.onDisk)) && e.reason.onDisk != inode)
      && poll[|poll| - 1] == Opened(Success(e.inode))
  }

  lemma ComparisonSeen(log: Log, e: Event, poll: seq<Answer>)
    requires IsComparison(e) && PollOutcome(log, log + [e], poll, None, false)
    ensures |poll| >= 2 && poll[0] == OpenFile(Inode(log), Success(Compared(e)))
    ensures PathSeen(e, Inode(log), poll)
  {
    EventAdded(log, e, log + [e]);
  }

  lemma EventAdded(log: Log, e: Event, after: Log)
    requires after == log + [e]
    ensures after != log && forall x :: after == log + [x] ==> x == e
  {
    assert after[|log|] == e;
    assert forall x :: (log + [x])[|log|] == x;
  }

  /** A file that a poll found gone, or shorter than what was read of it, was reported so. */
  lemma OtherRestartsSeen(law: Law, log: Log, parts: seq<Part>, k: nat)
    requires Tale(law, log, parts) && k < |log|
    ensures log[k].Truncated? ==>
              parts[k].poll == [OpenFile(Inode(log[..k]), Success(log[k].content))] && |log[k].content| < Position(log[..k])
    ensures log[k].Switched? && log[k].reason.OpenFileMissing? ==>
              var poll := parts[k].poll;
              |poll| >= 2 && poll[0] == OpenFile(Inode(log[..k]), Failure(NotExist)) &&
              poll[|poll| - 1] == Opened(Success(log[k].inode))
  {
    hide Tale, Position, Inode, Reading, Undelivered;
    SceneAt(law, log, parts, k);
    if log[k].Truncated? || log[k].Switched? {
      OtherSeen(log[..k], log[k], parts[k].poll);
    }
  }

  lemma OtherSeen(log: Log, e: Event, poll: seq<Answer>)
    requires PollOutcome(log, log + [e], poll, None, false)
    ensures e.Truncated? ==> poll == [OpenFile(Inode(log), Success(e.content))] && |e.content| < Position(log)
    ensures e.Switched? && e.reason.OpenFileMissing? ==>
              && |poll| >= 2 && poll[0] == OpenFile(Inode(log), Failure(NotExist))
              && poll[|poll| - 1] == Opened(Success(e.inode))
  {
    EventAdded(log, e, log + [e]);
    assert poll == [poll[0]] + poll[1..];
    if poll[0].content.Success? {
      var rest := poll[1..];
      assert rest != [] ==> rest == [rest[0]] + rest[1..];
    }
  }

  /** While files only grow, the contents that polls reported are fronts of the files still. */
  lemma ReportedStill(law: Law, inodes: Inodes, earlier: seq<Answer>, log: Log, parts: seq<Part>, rest: seq<Answer>,
                      k: nat)
    requires law.grows && Honest(law, inodes, earlier + (Told(parts) + rest))
    requires Tale(law, log, parts) && k < |log| && IsComparison(log[k])
    ensures var inode := Inode(log[..k]); inode in inodes && Compared(log[k]) <= inodes[inode]
  {
    hide Tale, Inode, Reading, Undelivered;
    SceneAt(law, log, parts, k);
    ComparisonSeen(log[..k], log[k], parts[k].poll);
    var a := parts[k].poll[0];
    ToldHas(parts, k, a);
    var all := earlier + (Told(parts) + rest);
    assert a in Told(parts) + rest && a in all;
    assert StillThere(inodes, a);
  }

  lemma LastReported(law: Law, inodes: Inodes, earlier: seq<Answer>, run: Record, answers: seq<Answer>, why: Stop,
                     done: bool)
    requires law.grows && Honest(law, inodes, earlier + answers) && IsRun(law, run, answers, why, done)
    requires run.log != [] && run.log[|run.log| - 1].Idle?
    ensures Inode(run.log) in inodes && run.log[|run.log| - 1].content <= inodes[Inode(run.log)]
  {
    hide Tale, Told, Ending, Honest;
    ReportedStill(law, inodes, earlier, run.log, run.parts, run.got + run.poll, |run.log| - 1);
  }

  lemma {:induction false} ToldHas(parts: seq<Part>, k: nat, a: Answer)
    requires k < |parts| && a in parts[k].poll
    ensures a in Told(parts)
    decreases |parts|
  {
    if k < |parts| - 1 {
      ToldHas(parts[..|parts| - 1], k, a);
    }
  }

  // ---------- a read that fails within a line ----------

  /** No read failed among those before these deliveries. */
  predicate NoneFailed(log: Log, parts: seq<Part>, j: nat, k: nat)
    requires j <= k <= |log| == |parts|
  {
    forall i :: j <= i < k && log[i].Delivered? ==> ReadFailure !in parts[i].got
  }

  /** On files that only grow by whole lines, failed reads split lines and nothing else does:
      what was sent between a restart and a later comparison are the lines of the content
      exactly if no read failed within one. */
  lemma OnlyFailuresSplitLines(law: Law, log: Log, parts: seq<Part>, j: nat, k: nat) returns (content: seq<byte>)
    requires Legal(law, log) && Tale(law, log, parts) && j < k < |log| && law.grows && law.whole
    requires Restarts(log[j]) && NoRestarts(log[j + 1..k]) && IsComparison(log[k])
    ensures |log| == |parts| && |parts[k].poll| >= 2 && parts[k].poll[0] == OpenFile(Inode(log[..k]), Success(content))
    ensures var from := RestartAt(log[..j + 1]);
            && from <= |content|
            && (Texts(log[j + 1..k]) == LinesOf(content[from..]) <==> NoneFailed(log, parts, j + 1, k))
  {
    hide Legal, Tale, Flatten, Raws, Texts, LinesOf, RestartAt, Inode, Undelivered, Reading, BytesOf, Terminated;
    hide NoneFailed;
    content := RotationDrains(law, log, parts, j, k);
    SceneAt(law, log, parts, k);
    var sent := log[j + 1..k];
    LegalSegments(law, log, j + 1, k);
    TextsAreLinesExactly(sent);
    FailedIsUnterminated(law, log, parts, j + 1, k);
  }

  lemma FailedIsUnterminated(law: Law, log: Log, parts: seq<Part>, j: nat, k: nat)
    requires Tale(law, log, parts) && j <= k <= |log| == |parts| && law.grows && law.whole
    ensures Terminated(log[j..k]) <==> NoneFailed(log, parts, j, k)
  {
    hide Tale, IsRawLine;
    forall i | j <= i < k && log[i].Delivered?
      ensures IsRawLine(log[i].raw) <==> ReadFailure !in parts[i].got
    {
      WhereItFailed(law, log, parts, i);
    }
    assert forall i :: j <= i < k ==> log[i] == log[j..k][i - j];
  }

  lemma WhereItFailed(law: Law, log: Log, parts: seq<Part>, i: nat)
    requires Tale(law, log, parts) && i < |log| && log[i].Delivered? && law.grows && law.whole
    ensures |log| == |parts| && (IsRawLine(log[i].raw) <==> ReadFailure !in parts[i].got)
  {
    hide Tale, Undelivered, Position, Inode, Reading, IsRawLine, BytesOf;
    SceneAt(law, log, parts, i);
    var inode, at := Inode(log[..i]), Position(log[..i]) + |Undelivered(log[..i], parts[..i])|;
    FailureIsLast(inode, at, parts[i].got, if IsRawLine(log[i].raw) then None else Some(Failed));
  }

  /** Everything served was delivered: these bytes of the file, from its start. */
  predicate Sending(law: Law, log: Log, parts: seq<Part>, inode: nat, content: seq<byte>, sent: seq<byte>) {
    && Legal(law, log) && Tale(law, log, parts) && |log| == |parts| > 0 && Undelivered(log, parts) == []
    && Inode(log) == inode && Opening(log) == content && RestartAt(log) == 0 && SinceRestart(log) == sent
  }

  function FirstPart(inode: nat): Part {
    Part([], [Opened(Success(inode))])
  }

  lemma JustStarted(law: Law, inode: nat, content: seq<byte>)
    requires WholeLines(content)
    ensures var log := [Started(inode, content, 0, 0)];
            Sending(law, log, [FirstPart(inode)], inode, content, []) && Texts(log) == []
  {
    var e := Started(inode, content, 0, 0);
    assert [e][..0] == [] && LegalStep(law, [], e) && Legal(law, []) && Tale(law, [], []);
    NoReads(inode, 0);
    OneMore(law, [], [], e, FirstPart(inode));
    assert [] + [e] == [e] && [] + [FirstPart(inode)] == [FirstPart(inode)];
  }

  lemma ServedThenFailed(inode: nat, at: nat, bytes: seq<byte>)
    ensures var a := Served(inode, at, bytes);
            && Reading(inode, at, [a], None) && BytesOf([a]) == bytes
            && Reading(inode, at, [a] + [ReadFailure], Some(Failed)) && BytesOf([a] + [ReadFailure]) == bytes
  {
    var a := Served(inode, at, bytes);
    OneRead(inode, at, a);
    OneRead(inode, at + |bytes|, ReadFailure);
    ReadOnward(inode, at, [a], [ReadFailure], Some(Failed));
  }

  /** A read of this piece, followed by one that fails if no newline ended it. */
  function PieceRead(inode: nat, at: nat, raw: seq<byte>): seq<Answer> {
    if IsRawLine(raw) then [Served(inode, at, raw)] else [Served(inode, at, raw)] + [ReadFailure]
  }

  lemma PieceScene(law: Law, log: Log, parts: seq<Part>, inode: nat, content: seq<byte>, sent: seq<byte>,
                   raw: seq<byte>, text: seq<byte>)
    requires Sending(law, log, parts, inode, content, sent) && !law.reliable
    ensures |log| == |parts| && BytesOf(PieceRead(inode, |sent|, raw)) == raw
    ensures Scene(law, log, parts, Delivered(raw, text), Part(PieceRead(inode, |sent|, raw), []))
  {
    hide Legal, Tale, SinceRestart, Opening, RestartAt, Inode, Undelivered, BytesOf, Reading, IsRawLine;
    ServedThenFailed(inode, |sent|, raw);
    assert [] + raw == raw;
  }

  lemma PieceSent(law: Law, log: Log, parts: seq<Part>, inode: nat, content: seq<byte>, sent: seq<byte>,
                  raw: seq<byte>, text: seq<byte>) returns (log': Log, parts': seq<Part>)
    requires Sending(law, log, parts, inode, content, sent) && IsSegment(raw, text) && !law.reliable
    ensures log' == log + [Delivered(raw, text)] && parts' == parts + [Part(PieceRead(inode, |sent|, raw), [])]
    ensures Sending(law, log', parts', inode, content, sent + raw) && Texts(log') == Texts(log) + [text]
  {
    hide Legal, Tale, Scene, SinceRestart, Opening, RestartAt, Inode, Texts, Raws, Volume, Undelivered, BytesOf;
    hide Reading;
    hide IsSegment, IsRawLine, PieceRead;
    var e, part := Delivered(raw, text), Part(PieceRead(inode, |sent|, raw), []);
    PieceScene(law, log, parts, inode, content, sent, raw, text);
    log', parts' := log + [e], parts + [part];
    Appended(law, log, e);
    OneMore(law, log, parts, e, part);
    assert [] + raw == raw;
  }

  /** A poll finds nothing new. */
  lemma NothingNew(law: Law, log: Log, parts: seq<Part>, inode: nat, content: seq<byte>)
    returns (log': Log, parts': seq<Part>)
    requires Sending(law, log, parts, inode, content, content)
    ensures Legal(law, log') && Tale(law, log', parts') && Texts(log') == Texts(log)
    ensures log' == log + [Idle(content)] && |parts'| == |parts| + 1 && parts <= parts'
  {
    hide Legal, Tale, SinceRestart, Opening, RestartAt, Inode, Texts, Raws, Volume, Undelivered, BytesOf, Reading;
    var poll := [OpenFile(inode, Success(content)), AtPath(Success(inode))];
    var e, part := Idle(content), Part([EndOfFile(inode, |content|)], poll);
    OneRead(inode, |content|, EndOfFile(inode, |content|));
    assert poll[1..] == [AtPath(Success(inode))];
    log', parts' := log + [e], parts + [part];
    Appended(law, log, e);
    OneMore(law, log, parts, e, part);
  }

  /** And they do: for every line and every place in it, a run of a tailer on a file that holds
      just this line and does not change. The line arrives in two reads with a failed one
      between them, and is sent as two lines. */
  lemma FailedReadSplitsALine(inode: nat, p: seq<byte>, q: seq<byte>) returns (log: Log, parts: seq<Part>)
    requires p != [] && NL !in p && IsRawLine(q)
    ensures Legal(Law(true, true, true, false), log) && Tale(Law(true, true, true, false), log, parts)
    ensures |log| == |parts| == 4 && log[0] == Started(inode, p + q, 0, 0) && log[3] == Idle(p + q)
    ensures parts[1].got == [Served(inode, 0, p), ReadFailure]
    ensures Texts(log) == [p] + [Text(q)] && |LinesOf(p + q)| == 1
  {
    var law, content := Law(true, true, true, false), p + q;
    FrontOfLine(p, q);
    TextIs(Text(q), q);
    assert IsSegment(p, p) && IsSegment(q, Text(q)) && !IsRawLine(p);
    assert PieceRead(inode, 0, p) == [Served(inode, 0, p), ReadFailure] && [] + p == p;
    hide LinesOf, Legal, Tale, Sending, Texts, IsRawLine, Text, WholeLines, PieceRead, IsSegment;
    JustStarted(law, inode, content);
    log, parts := PieceSent(law, [Started(inode, content, 0, 0)], [FirstPart(inode)], inode, content, [], p, p);
    log, parts := PieceSent(law, log, parts, inode, content, p, q, Text(q));
    log, parts := NothingNew(law, log, parts, inode, content);
    assert [] + [p] == [p];
  }

  lemma FrontOfLine(p: seq<byte>, q: seq<byte>)
    requires p != [] && NL !in p && IsRawLine(q)
    ensures |LinesOf(p + q)| == 1 && WholeLines(p + q)
  {
    assert IsRawLine(p + q);
    LinesOfOne(p + q);
  }
}
