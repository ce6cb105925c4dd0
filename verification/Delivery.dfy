/** Reader, consumer and saver of one file over any number of process lifetimes: which
    lines reach `ProcessLine`, in every interleaving and after every crash. */
module Delivery {
  import opened Lines
  import opened Wrappers
  import opened FileStates

  /** One line given to `ProcessLine`: its position in the file and its text. */
  datatype Handed = Handed(index: nat, text: seq<byte>)

  datatype State = State(
    inode: nat, content: seq<byte>, modified: int,  // the file
    saved: Option<Saved>,                           // the state file
    up: bool,
    mem: Saved,                                     // this process's FileState
    stamped: bool,                                  // metadata taken by this process
    skipped: nat,                                   // lines the current tailer skipped
    sent: nat,                                      // lines the current tailer handed over
    processing: bool,                               // the last of them is not yet counted
    handed: seq<Handed>)                            // over all lifetimes
  {
    function Info(): Stat {
      Stat(Some(inode), |content|, modified)
    }
  }

  datatype Step =
    | Append(extra: seq<byte>, at: int)  // another process appends
    | Touch(at: int)                     // or only changes the modification time
    | Replace(inode: nat, content: seq<byte>, at: int)  // or replaces or truncates it, while no process runs
    | Start(stat: Option<Stat>)          // a process starts and a tailer decides by this stat
    | Retail(stat: Option<Stat>)         // the tailer exits and the same process starts another
    | Hand                               // the consumer receives a line and calls ProcessLine
    | Count                              // ProcessLine returned, LineNumber is incremented
    | Stamp(stat: Option<Stat>)          // UpdateAllFileMetadata
    | Save                               // snapshotState and write
    | Die                                // the process ends, anywhere

  predicate Init(s: State) {
    && s.inode > 0 && WholeLines(s.content)
    && s.saved == None && !s.up && !s.processing && s.handed == []
  }

  /** What a stat of the path may report: nothing, or the truth, without the inode where the
      platform has none. */
  predicate Truthful(s: State, stat: Option<Stat>) {
    stat.Some? ==>
      stat.value.size == |s.content| && stat.value.modified == s.modified &&
      (stat.value.inode.Some? ==> stat.value.inode.value == s.inode)
  }

  predicate Enabled(s: State, step: Step) {
    match step
    case Append(extra, _) => extra != [] && WholeLines(extra)
    case Touch(_) => true
    case Replace(inode, content, _) => !s.up && inode > 0 && WholeLines(content)
    case Start(stat) => !s.up && Truthful(s, stat)
    case Retail(stat) => s.up && !s.processing && Truthful(s, stat)
    case Hand => s.up && !s.processing && s.skipped + s.sent < |LinesOf(s.content)|
    case Count => s.up && s.processing
    case Stamp(stat) => s.up && Truthful(s, stat)
    case Save => s.up && s.stamped
    case Die => s.up
  }

  function Loaded(s: State): Saved {
    if s.saved.Some? then s.saved.value else FRESH
  }

  /** The counter a starting tailer decides on. */
  function Deciding(s: State, step: Step): Saved {
    if step.Start? then Loaded(s) else s.mem
  }

  function Apply(s: State, step: Step): State
    requires Enabled(s, step)
  {
    match step
    case Append(extra, at) => s.(content := s.content + extra, modified := at)
    case Touch(at) => s.(modified := at)
    case Replace(inode, content, at) => s.(inode := inode, content := content, modified := at)
    case Start(stat) =>
      s.(up := true, mem := Loaded(s), stamped := false,
         skipped := Skip(Loaded(s), stat), sent := 0, processing := false)
    case Retail(stat) => s.(skipped := Skip(s.mem, stat), sent := 0)
    case Hand =>
      var i := s.skipped + s.sent;
      s.(sent := s.sent + 1, processing := true, handed := s.handed + [Handed(i, LinesOf(s.content)[i])])
    case Count => s.(mem := s.mem.(lineNumber := s.mem.lineNumber + 1), processing := false)
    case Stamp(stat) => s.(mem := Stamped(s.mem, stat), stamped := true)
    case Save => s.(saved := Some(s.mem))
    case Die => s.(up := false, processing := false)
  }

  predicate Runs(s: State, steps: seq<Step>)
    decreases |steps|
  {
    steps == [] || (Enabled(s, steps[0]) && Runs(Apply(s, steps[0]), steps[1..]))
  }

  function After(s: State, steps: seq<Step>): State
    requires Runs(s, steps)
    decreases |steps|
  {
    if steps == [] then s else After(Apply(s, steps[0]), steps[1..])
  }

  // ---------- counter and consumer ----------

  /** How far LineNumber is ahead of the lines of the file the current tailer is past. */
  function Drift(s: State): int {
    s.mem.lineNumber + (if s.processing then 1 else 0) - (s.skipped + s.sent)
  }

  /** Only a starting tailer's decision changes the drift, and it leaves none exactly when
      the count is zero or the file is recognised; otherwise the whole count becomes drift. */
  lemma DriftStep(s: State, step: Step)
    requires Enabled(s, step) && (step.Start? || s.up)
    ensures var s' := Apply(s, step);
            if step.Start? || step.Retail? then
              Drift(s') == (if Resumable(Deciding(s, step), step.stat) then 0 else Deciding(s, step).lineNumber)
            else !step.Die? ==> Drift(s') == Drift(s)
  {
  }

  /** The current tailer keeps running. */
  predicate SameTailer(steps: seq<Step>) {
    forall step <- steps :: !step.Start? && !step.Retail? && !step.Die?
  }

  lemma {:induction false} DriftKept(s: State, steps: seq<Step>)
    requires s.up && Runs(s, steps) && SameTailer(steps)
    ensures After(s, steps).up && Drift(After(s, steps)) == Drift(s)
    decreases |steps|
  {
    if steps != [] {
      assert steps[0] in steps;
      DriftStep(s, steps[0]);
      DriftKept(Apply(s, steps[0]), steps[1..]);
    }
  }

  /** The exact condition under which LineNumber counts lines of the file: at any later time
      with nothing in flight it equals the lines the tailer is past if and only if the
      tailer's start could take its count over; otherwise it is too high by that count. */
  lemma CountIsPosition(s: State, start: Step, steps: seq<Step>)
    requires (start.Start? || start.Retail?) && Enabled(s, start)
    requires Runs(Apply(s, start), steps) && SameTailer(steps)
    ensures var e := After(Apply(s, start), steps);
            !e.processing ==>
              (e.mem.lineNumber == e.skipped + e.sent <==> Resumable(Deciding(s, start), start.stat)) &&
              e.mem.lineNumber ==
                e.skipped + e.sent
                + if Resumable(Deciding(s, start), start.stat) then 0 else Deciding(s, start).lineNumber
  {
    DriftStep(s, start);
    DriftKept(Apply(s, start), steps);
  }

  /** Every starting tailer takes its count over or has none. */
  predicate Faithful(s: State, steps: seq<Step>)
    requires Runs(s, steps)
    decreases |steps|
  {
    steps == [] ||
    ((steps[0].Start? || steps[0].Retail? ==> Resumable(Deciding(s, steps[0]), steps[0].stat)) &&
     Faithful(Apply(s, steps[0]), steps[1..]))
  }

  // ---------- at least once ----------

  predicate Covers(s: State, n: nat) {
    forall i: nat :: i < n ==> Handled(s, i)
  }

  /** Line i of the file was given to ProcessLine, with its text. */
  predicate Handled(s: State, i: nat) {
    i < |LinesOf(s.content)| && exists j :: 0 <= j < |s.handed| && s.handed[j] == Handed(i, LinesOf(s.content)[i])
  }

  ghost predicate Inv(s: State) {
    && WholeLines(s.content)
    && (s.saved.Some? ==> Covers(s, s.saved.value.lineNumber))
    && (s.up ==> Drift(s) == 0 && Covers(s, s.skipped + s.sent))
  }

  lemma CoversGrows(s: State, s': State, n: nat)
    requires Covers(s, n) && LinesOf(s.content) <= LinesOf(s'.content) && s.handed <= s'.handed
    ensures Covers(s', n)
  {
    forall i: nat | i < n ensures Handled(s', i) {
      assert Handled(s, i);
      var j :| 0 <= j < |s.handed| && s.handed[j] == Handed(i, LinesOf(s.content)[i]);
      assert s'.handed[j] == Handed(i, LinesOf(s'.content)[i]);
    }
  }

  lemma MoreLines(content: seq<byte>, extra: seq<byte>)
    requires WholeLines(content) && WholeLines(extra)
    ensures WholeLines(content + extra) && LinesOf(content) <= LinesOf(content + extra)
  {
    hide LinesOf;
    LinesAppend(content, extra);
    assert extra != [] ==> (content + extra)[|content + extra| - 1] == extra[|extra| - 1];
  }

  lemma InvStep(s: State, step: Step)
    requires Inv(s) && Enabled(s, step) && !step.Replace?
    requires step.Start? || step.Retail? ==> Resumable(Deciding(s, step), step.stat)
    ensures Inv(Apply(s, step))
  {
    hide LinesOf, WholeLines, SameFile;
    var s' := Apply(s, step);
    if step.Append? {
      MoreLines(s.content, step.extra);
    }
    if s.saved.Some? {
      CoversGrows(s, s', s.saved.value.lineNumber);
    }
    if s.up {
      CoversGrows(s, s', s.skipped + s.sent);
    }
    if step.Hand? {
      var n := s.skipped + s.sent;
      assert s'.handed[|s.handed|] == Handed(n, LinesOf(s'.content)[n]);
      assert Handled(s', n);
    }
  }

  /** The path keeps its file. */
  predicate OneFile(steps: seq<Step>) {
    forall step <- steps :: !step.Replace?
  }

  /** At least once: in every interleaving with crashes anywhere, LineNumber brackets what
      was handed over, and neither it nor any saved count is past a line that was not. */
  lemma {:induction false} AtLeastOnce(s: State, steps: seq<Step>)
    requires Inv(s) && Runs(s, steps) && Faithful(s, steps) && OneFile(steps)
    ensures var e := After(s, steps);
            && (e.up ==> e.mem.lineNumber <= e.skipped + e.sent <= e.mem.lineNumber + 1)
            && (e.up ==> forall i: nat :: i < e.mem.lineNumber ==> Handled(e, i))
            && (e.saved.Some? ==> forall i: nat :: i < e.saved.value.lineNumber ==> Handled(e, i))
    decreases |steps|
  {
    if steps != [] {
      assert steps[0] in steps;
      InvStep(s, steps[0]);
      AtLeastOnce(Apply(s, steps[0]), steps[1..]);
    }
  }

  // ---------- append-only runs ----------

  /** Nothing but whole-line appends happens to the file, and a process keeps its tailer. */
  predicate AppendOnly(steps: seq<Step>) {
    forall step <- steps :: !step.Touch? && !step.Retail? && !step.Replace?
  }

  /** Every stat succeeds and reports an inode. */
  predicate StatsWork(steps: seq<Step>) {
    forall step <- steps :: step.Start? || step.Stamp? ==> Works(step.stat)
  }

  predicate Works(stat: Option<Stat>) {
    stat.Some? && stat.value.inode.Some?
  }

  /** Metadata once taken of the file still vouches for it. */
  predicate Vouches(s: State, m: Saved) {
    && m.inode == s.inode && m.fileSize <= |s.content|
    && (m.fileSize == |s.content| ==> m.lastModified == s.modified)
  }

  /** The exact condition under which a stamp taken of one state of the disk makes a process
      take its count over in another, whatever happened to the path in between. Both stats
      succeeded; where both sides know an inode, it is the same file, no shorter, and modified at
      the same time if it has the same size and neither is nothing; otherwise size and time are
      the same, and neither is nothing. `m` is the state stamped. */
  lemma RecognisedBetween(m: Saved, s: State, stamp: Option<Stat>, s': State, stat: Option<Stat>)
    requires Truthful(s, stamp) && Truthful(s', stat) && m.lineNumber > 0 && s.inode > 0
    ensures Resumable(Stamped(m, stamp), stat) <==>
            && stamp.Some? && stat.Some?
            && var known := if stamp.value.inode.Some? then s.inode else m.inode;
               if stat.value.inode.Some? && known > 0 then
                 && s'.inode == known && |s.content| <= |s'.content|
                 && (|s.content| == |s'.content| > 0 && s.modified > 0 ==> s.modified == s'.modified)
               else
                 |s.content| == |s'.content| > 0 && s.modified == s'.modified != 0
  {
    RefusedExactly(Stamped(m, stamp), stat);
    SkipIsCount(Stamped(m, stamp), stat);
    hide Skip, Resumable;
  }

  /** The same for a file that may have grown: both stats succeeded, and either both sides know
      the inode, or the file did not change and was neither empty nor modified at time zero. */
  lemma RecognisedExactly(m: Saved, s: State, stamp: Option<Stat>, s': State, stat: Option<Stat>)
    requires Truthful(s, stamp) && Truthful(s', stat) && m.lineNumber > 0
    requires s.inode == s'.inode > 0 && (m.inode == 0 || m.inode == s.inode)
    requires s.content <= s'.content && (s.content == s'.content ==> s.modified == s'.modified)
    ensures Resumable(Stamped(m, stamp), stat) <==>
              && stamp.Some? && stat.Some?
              && if stat.value.inode.Some? && (stamp.value.inode.Some? || m.inode != 0) then true
                 else s.content == s'.content && s.content != [] && s.modified != 0
  {
    RecognisedBetween(m, s, stamp, s', stat);
    assert |s.content| == |s'.content| ==> s.content == s'.content;
    hide Resumable;
  }

  predicate Recognised(s: State) {
    && s.inode > 0
    && (s.saved.Some? ==> Vouches(s, s.saved.value))
    && (s.up && s.stamped ==> Vouches(s, s.mem))
  }

  lemma RecognisedStep(s: State, step: Step)
    requires Recognised(s) && Enabled(s, step) && !step.Touch? && !step.Retail? && !step.Replace?
    requires step.Start? || step.Stamp? ==> Works(step.stat)
    ensures Recognised(Apply(s, step))
    ensures step.Start? ==> Resumable(Loaded(s), step.stat)
  {
  }

  lemma {:induction false} AppendOnlyIsFaithful(s: State, steps: seq<Step>)
    requires Recognised(s) && Runs(s, steps) && AppendOnly(steps) && StatsWork(steps)
    ensures Faithful(s, steps)
    decreases |steps|
  {
    if steps != [] {
      assert steps[0] in steps;
      RecognisedStep(s, steps[0]);
      AppendOnlyIsFaithful(Apply(s, steps[0]), steps[1..]);
    }
  }

  lemma InitInv(s: State)
    requires Init(s)
    ensures Inv(s) && Recognised(s)
  {
  }

  // ---------- exactly once ----------

  /** A shutdown with nothing in flight, just after the count was saved. */
  predicate Quiescent(s: State) {
    !s.processing && s.saved.Some? && s.saved.value.lineNumber == s.mem.lineNumber
  }

  predicate DiesQuiescent(s: State, steps: seq<Step>)
    requires Runs(s, steps)
    decreases |steps|
  {
    steps == [] ||
    ((steps[0].Die? ==> Quiescent(s)) && DiesQuiescent(Apply(s, steps[0]), steps[1..]))
  }

  /** What was handed over is exactly the first n lines of the file, in order. */
  predicate FirstLines(s: State, n: nat) {
    && n == |s.handed| && n <= |LinesOf(s.content)|
    && forall i :: 0 <= i < n ==> s.handed[i] == Handed(i, LinesOf(s.content)[i])
  }

  ghost predicate ExactInv(s: State) {
    && WholeLines(s.content)
    && (s.up ==> Drift(s) == 0 && FirstLines(s, s.skipped + s.sent))
    && (!s.up ==> FirstLines(s, Loaded(s).lineNumber))
  }

  lemma ExactStep(s: State, step: Step)
    requires ExactInv(s) && Enabled(s, step) && !step.Touch? && !step.Replace?
    requires step.Start? || step.Retail? ==> Resumable(Deciding(s, step), step.stat)
    requires step.Die? ==> Quiescent(s)
    ensures ExactInv(Apply(s, step))
  {
    hide LinesOf, WholeLines, SameFile;
    if step.Append? {
      MoreLines(s.content, step.extra);
    }
  }

  /** Exactly once: over any number of lifetimes that end quiescent, the lines processed in
      all of them, concatenated, are a prefix of the file's lines. */
  lemma {:induction false} ExactlyOnceFrom(s: State, steps: seq<Step>)
    requires ExactInv(s) && Recognised(s) && Runs(s, steps) && DiesQuiescent(s, steps)
    requires AppendOnly(steps) && StatsWork(steps)
    ensures var e := After(s, steps);
            |e.handed| <= |LinesOf(e.content)| &&
            forall i :: 0 <= i < |e.handed| ==> e.handed[i] == Handed(i, LinesOf(e.content)[i])
    decreases |steps|
  {
    if steps != [] {
      assert steps[0] in steps;
      RecognisedStep(s, steps[0]);
      ExactStep(s, steps[0]);
      ExactlyOnceFrom(Apply(s, steps[0]), steps[1..]);
    }
  }

  /** Both guarantees for every append-only run from an empty state file in which stats work. */
  lemma Guarantees(s: State, steps: seq<Step>)
    requires Init(s) && Runs(s, steps) && AppendOnly(steps) && StatsWork(steps)
    ensures var e := After(s, steps);
            && (e.up ==> e.mem.lineNumber <= e.skipped + e.sent <= e.mem.lineNumber + 1)
            && (e.saved.Some? ==> forall i: nat :: i < e.saved.value.lineNumber ==> Handled(e, i))
    ensures DiesQuiescent(s, steps) ==>
              var e := After(s, steps);
              |e.handed| <= |LinesOf(e.content)| &&
              forall i :: 0 <= i < |e.handed| ==> e.handed[i] == Handed(i, LinesOf(e.content)[i])
  {
    InitInv(s);
    AppendOnlyIsFaithful(s, steps);
    assert OneFile(steps);
    AtLeastOnce(s, steps);
    if DiesQuiescent(s, steps) {
      ExactlyOnceFrom(s, steps);
    }
  }

  // ---------- a file that was replaced between two processes ----------

  /** n lines handed over in a row. */
  function HandedFrom(lines: seq<seq<byte>>, from: nat, n: nat): seq<Handed>
    requires n > 0 ==> from + n <= |lines|
  {
    seq(n, i requires 0 <= i < n => Handed(from + i, lines[from + i]))
  }

  lemma HandedNone(lines: seq<seq<byte>>, from: nat)
    ensures HandedFrom(lines, from, 0) == []
  {
  }

  lemma HandedCons(lines: seq<seq<byte>>, from: nat, n: nat)
    requires from + n < |lines|
    ensures [Handed(from, lines[from])] + HandedFrom(lines, from + 1, n) == HandedFrom(lines, from, n + 1)
  {
  }

  /** A tailer hands over the lines behind the skipped ones, one after another. */
  lemma {:induction false} HandsOn(s: State, steps: seq<Step>)
    requires s.up && Runs(s, steps) && SameTailer(steps) && WholeLines(s.content)
    ensures var e, from := After(s, steps), s.skipped + s.sent;
            && LinesOf(s.content) <= LinesOf(e.content) && s.sent <= e.sent && e.skipped == s.skipped
            && (s.sent < e.sent ==> e.skipped + e.sent <= |LinesOf(e.content)|)
            && e.handed == s.handed + HandedFrom(LinesOf(e.content), from, e.sent - s.sent)
    decreases |steps|
  {
    hide LinesOf, WholeLines, Skip, Stamped, Truthful, HandedFrom;
    if steps == [] {
      HandedNone(LinesOf(s.content), s.skipped + s.sent);
    } else {
      var step, s1, e := steps[0], Apply(s, steps[0]), After(s, steps);
      assert step in steps;
      if step.Append? {
        MoreLines(s.content, step.extra);
      }
      HandsOn(s1, steps[1..]);
      if step.Hand? {
        HandedCons(LinesOf(e.content), s.skipped + s.sent, e.sent - s1.sent);
      }
    }
  }

  /** What the saved count was taken on is not what the path names now, and the stat shows it. */
  predicate ShowsReplaced(m: Saved, inode: nat, content: seq<byte>, modified: int) {
    || inode != m.inode
    || |content| < m.fileSize
    || (|content| == m.fileSize > 0 && m.lastModified > 0 && modified != m.lastModified)
  }

  /** A process that finds the path replaced since its count was saved, the stat and the stamp
      knowing inodes, reads the new file from its start exactly if the stat shows it. Then what
      it hands over are the first lines of the new file. */
  lemma ReplacedIsReadFromItsStart(s: State, replace: Step, start: Step, steps: seq<Step>)
    requires replace.Replace? && start.Start? && Works(start.stat)
    requires s.saved.Some? && s.saved.value.inode > 0 && s.saved.value.lineNumber > 0
    requires Enabled(s, replace) && Enabled(Apply(s, replace), start) && SameTailer(steps)
    requires Runs(Apply(Apply(s, replace), start), steps)
    ensures var e := After(Apply(Apply(s, replace), start), steps);
            var shows := ShowsReplaced(s.saved.value, replace.inode, replace.content, replace.at);
            && (e.skipped == 0 <==> shows)
            && LinesOf(replace.content) <= LinesOf(e.content)
            && (shows ==>
                  && (e.sent > 0 ==> e.sent <= |LinesOf(e.content)|)
                  && e.handed == s.handed + HandedFrom(LinesOf(e.content), 0, e.sent))
  {
    hide LinesOf, SameFile, Skip;
    RefusedExactly(s.saved.value, start.stat);
    HandsOn(Apply(Apply(s, replace), start), steps);
  }

  // ---------- why the conditions are needed ----------

  lemma {:induction false} Extend(s: State, steps: seq<Step>, step: Step)
    requires Runs(s, steps) && Enabled(After(s, steps), step)
    ensures Runs(s, steps + [step]) && After(s, steps + [step]) == Apply(After(s, steps), step)
    decreases |steps|
  {
    if steps == [] {
      assert Runs(Apply(s, step), []);
      assert (steps + [step])[1..] == [];
    } else {
      Extend(Apply(s, steps[0]), steps[1..], step);
      assert (steps + [step])[1..] == steps[1..] + [step];
    }
  }

  lemma {:induction false} Chain(s: State, steps: seq<Step>, more: seq<Step>)
    requires Runs(s, steps) && Runs(After(s, steps), more)
    ensures Runs(s, steps + more) && After(s, steps + more) == After(After(s, steps), more)
    decreases |more|
  {
    if more == [] {
      assert steps + more == steps;
    } else {
      Extend(s, steps, more[0]);
      Chain(s, steps + [more[0]], more[1..]);
      assert steps + [more[0]] + more[1..] == steps + more;
    }
  }

  /** One lifetime that processes one line and shuts down quiescent. */
  lemma OneLineLifetime(s: State, stat: Option<Stat>, stamp: Option<Stat>) returns (steps: seq<Step>)
    requires !s.up && Truthful(s, stat) && Truthful(s, stamp)
    requires Skip(Loaded(s), stat) < |LinesOf(s.content)|
    ensures steps == [Start(stat), Hand, Count, Stamp(stamp), Save, Die]
    ensures Runs(s, steps) && DiesQuiescent(s, steps)
    ensures var e, k := After(s, steps), Skip(Loaded(s), stat);
            && !e.up && e.inode == s.inode && e.content == s.content && e.modified == s.modified
            && e.saved == Some(Stamped(Loaded(s).(lineNumber := Loaded(s).lineNumber + 1), stamp))
            && e.handed == s.handed + [Handed(k, LinesOf(s.content)[k])]
  {
    hide LinesOf, Runs, After, DiesQuiescent, Skip, Resumable;
    var s1 := Apply(s, Start(stat));
    var s2 := Apply(s1, Hand);
    var s3 := Apply(s2, Count);
    var s4 := Apply(s3, Stamp(stamp));
    var s5 := Apply(s4, Save);
    var s6 := Apply(s5, Die);
    steps := [];
    Nothing(s6);
    Before(s5, Die, steps);
    steps := [Die] + steps;
    Before(s4, Save, steps);
    steps := [Save] + steps;
    Before(s3, Stamp(stamp), steps);
    steps := [Stamp(stamp)] + steps;
    Before(s2, Count, steps);
    steps := [Count] + steps;
    Before(s1, Hand, steps);
    steps := [Hand] + steps;
    Before(s, Start(stat), steps);
    steps := [Start(stat)] + steps;
  }

  lemma Nothing(s: State)
    ensures Runs(s, []) && DiesQuiescent(s, []) && After(s, []) == s
  {
  }

  lemma Before(s: State, step: Step, rest: seq<Step>)
    requires Enabled(s, step) && Runs(Apply(s, step), rest)
    ensures Runs(s, [step] + rest) && After(s, [step] + rest) == After(Apply(s, step), rest)
    ensures (step.Die? ==> Quiescent(s)) && DiesQuiescent(Apply(s, step), rest) ==> DiesQuiescent(s, [step] + rest)
  {
    assert ([step] + rest)[1..] == rest;
  }

  // ---------- what starting over does ----------

  function Newlines(n: nat): seq<byte> {
    if n == 0 then [] else [NL] + Newlines(n - 1)
  }

  lemma {:induction false} NewlinesAreLines(n: nat)
    ensures WholeLines(Newlines(n)) && |LinesOf(Newlines(n))| == n && |Newlines(n)| == n
  {
    if n > 0 {
      NewlinesAreLines(n - 1);
      LinesCons([NL], Newlines(n - 1));
    }
  }

  /** More than every index handed over so far. */
  function Beyond(handed: seq<Handed>): (n: nat)
    ensures forall h <- handed :: h.index < n
  {
    if handed == [] then 0
    else
      var last := handed[|handed| - 1];
      var n := Beyond(handed[..|handed| - 1]);
      assert handed == handed[..|handed| - 1] + [last];
      if last.index < n then n else last.index + 1
  }

  /** The tailer hands over and counts k more lines. */
  lemma {:induction false} HandMany(s: State, k: nat) returns (steps: seq<Step>)
    requires s.up && !s.processing && s.skipped + s.sent + k <= |LinesOf(s.content)|
    ensures Runs(s, steps) && AppendOnly(steps) && StatsWork(steps) && SameTailer(steps)
    ensures var e := After(s, steps);
            && e == s.(sent := s.sent + k, mem := s.mem.(lineNumber := s.mem.lineNumber + k), handed := e.handed)
            && forall h <- e.handed :: h in s.handed || h.index < s.skipped + s.sent + k
    decreases k
  {
    hide LinesOf;
    steps := [];
    if k > 0 {
      var s1 := Apply(s, Hand);
      var s2 := Apply(s1, Count);
      steps := HandMany(s2, k - 1);
      hide Runs, After;
      Before(s1, Count, steps);
      steps := [Count] + steps;
      Before(s, Hand, steps);
      steps := [Hand] + steps;
    }
  }

  /** The saved count is past a line of the file that was never handed over. */
  ghost predicate LostALine(s: State) {
    s.saved.Some? && exists i: nat :: i < s.saved.value.lineNumber && i < |LinesOf(s.content)| && !Handled(s, i)
  }

  /** Whenever a starting tailer cannot take its count over, some continuation, in which the
      file only grows and stats work, saves a count past a line nobody processed. */
  lemma StartingOverLosesALine(s: State, start: Step) returns (steps: seq<Step>)
    requires (start.Start? || start.Retail?) && Enabled(s, start) && WholeLines(s.content)
    requires !Resumable(Deciding(s, start), start.stat)
    ensures Runs(Apply(s, start), steps) && AppendOnly(steps) && StatsWork(steps) && SameTailer(steps)
    ensures LostALine(After(Apply(s, start), steps))
  {
    hide LinesOf, Runs, After, Handled, Skip, SameFile, WholeLines, Beyond, Newlines;
    var s1, k := Apply(s, start), Beyond(s.handed);
    SkipIsCount(Deciding(s, start), start.stat);
    NewlinesAreLines(k + 1);
    MoreLines(s1.content, Newlines(k + 1));
    LinesAppend(s1.content, Newlines(k + 1));
    var append := Append(Newlines(k + 1), s1.modified);
    var s2 := Apply(s1, append);
    steps := HandMany(s2, k);
    var s3 := After(s2, steps);
    var stamp := Stamp(Some(s3.Info()));
    var s4 := Apply(s3, stamp);
    Extend(s2, steps, stamp);
    steps := steps + [stamp];
    Extend(s2, steps, Save);
    steps := steps + [Save];
    var e := Apply(s4, Save);
    assert !Handled(e, k) by {
      NeverHanded(e, k);
    }
    Before(s1, append, steps);
    steps := [append] + steps;
  }

  lemma NeverHanded(s: State, k: nat)
    requires forall h <- s.handed :: h.index != k
    ensures !Handled(s, k)
  {
  }

  /** After these steps the next tailer cannot take the count over. */
  lemma LostAfterwards(s: State, first: seq<Step>, start: Step) returns (later: seq<Step>)
    requires Runs(s, first) && AppendOnly(first) && start.Start? && WholeLines(After(s, first).content)
    requires Enabled(After(s, first), start) && !Resumable(Loaded(After(s, first)), start.stat)
    ensures later != [] && later[0] == start && AppendOnly(later) && StatsWork(later[1..])
    ensures Runs(s, first + later) && LostALine(After(s, first + later))
  {
    var s1 := After(s, first);
    hide Runs, After, LostALine;
    var rest := StartingOverLosesALine(s1, start);
    later := [start] + rest;
    Before(s1, start, rest);
    Chain(s, first, later);
  }

  /** The file only grows and every stat works but the one for a stamp, which fails: the count
      is kept without metadata, the next tailer starts over, and a line is lost. */
  lemma FailedStampLosesALine(s: State) returns (first: seq<Step>, later: seq<Step>)
    requires Init(s)
    ensures |first| == 7 && first[4] == Stamp(None) && StatsWork(first[..4]) && StatsWork(first[5..]) && StatsWork(later)
    ensures AppendOnly(first) && AppendOnly(later) && Runs(s, first + later) && LostALine(After(s, first + later))
  {
    hide LinesOf, Runs, After, LostALine, WholeLines;
    OneMore(s.content);
    var append := Append([NL], s.modified);
    var s1 := Apply(s, append);
    first := OneLineLifetime(s1, Some(s1.Info()), None);
    Before(s, append, first);
    first := [append] + first;
    var start := Start(Some(s1.Info()));
    later := LostAfterwards(s, first, start);
    assert later == [later[0]] + later[1..];
  }

  function WithoutInode(s: State): Stat {
    Stat(None, |s.content|, s.modified)
  }

  /** Where there are no inodes, growth between two processes is enough: every stat succeeds. */
  lemma GrowthWithoutInodeLosesALine(s: State) returns (first: seq<Step>, later: seq<Step>)
    requires Init(s)
    ensures later != [] && StatsWork(later[1..])
    ensures forall step <- first + [later[0]] ::
              step.Start? || step.Stamp? ==> step.stat.Some? && step.stat.value.inode.None?
    ensures AppendOnly(first) && AppendOnly(later) && Runs(s, first + later) && LostALine(After(s, first + later))
  {
    hide LinesOf, Runs, After, LostALine, WholeLines, Handled, DiesQuiescent, Beyond, Newlines;
    OneMore(s.content);
    var append := Append([NL], s.modified);
    var s1 := Apply(s, append);
    OneMore(s1.content);
    first := OneLineLifetime(s1, Some(WithoutInode(s1)), Some(WithoutInode(s1)));
    Before(s, append, first);
    first := [append] + first;
    Extend(s, first, append);
    first := first + [append];
    var start := Start(Some(WithoutInode(After(s, first))));
    later := LostAfterwards(s, first, start);
  }

  lemma OneMore(content: seq<byte>)
    requires WholeLines(content)
    ensures WholeLines(content + [NL]) && |LinesOf(content + [NL])| > 0 && WholeLines([NL])
  {
    hide LinesOf;
    NewlinesAreLines(1);
    assert Newlines(1) == [NL] by {
      assert Newlines(0) == [];
    }
    LinesAppend(content, [NL]);
  }

  // ---------- a snapshot taken while lines are counted ----------

  /** A count between those before and after some steps of a running tailer is the count a
      `Save` at some moment in between writes, with the same metadata. */
  lemma {:induction false} SnapshotIsASave(s: State, steps: seq<Step>, n: nat) returns (k: nat)
    requires s.up && Runs(s, steps) && SameTailer(steps) && forall step <- steps :: !step.Stamp?
    requires s.mem.lineNumber <= n <= After(s, steps).mem.lineNumber
    ensures k <= |steps| && Runs(s, steps[..k]) && After(s, steps[..k]).mem == s.mem.(lineNumber := n)
    decreases |steps|
  {
    if n == s.mem.lineNumber {
      k := 0;
      assert steps[..0] == [];
    } else {
      var s1, rest := Apply(s, steps[0]), steps[1..];
      assert steps[0] in steps && forall step <- rest :: step in steps;
      var j := SnapshotIsASave(s1, rest, n);
      k := j + 1;
      Before(s, steps[0], rest[..j]);
      assert steps[..k] == [steps[0]] + rest[..j];
    }
  }
}
