/** What a tailer did, as a log of events; and what every log of a legal run satisfies. */
module TailLog {
  import opened Lines
  import opened FileSystem

  /** Why a tailer moved to another inode, with what it saw: the content of the open file at
      its last stat, and the inode the path was found to name. */
  datatype Reason =
    | OpenFileMissing
    | PathMissing(content: seq<byte>)
    | NotSameFile(content: seq<byte>, onDisk: nat)

  datatype Event =
    | Started(inode: nat, start: seq<byte>, skip: nat, at: nat)  // content then, lines to skip, offset
    | Delivered(raw: seq<byte>, text: seq<byte>)                 // bytes consumed, bytes sent
    | Idle(content: seq<byte>)                                   // nothing more to read, same file
    | Grew(content: seq<byte>)                                   // longer by the time of the poll
    | Truncated(content: seq<byte>)                              // shorter than what was consumed
    | Switched(reason: Reason, inode: nat)

  type Log = seq<Event>

  /** Reading begins anew, with nothing buffered. */
  predicate Restarts(e: Event) {
    e.Started? || e.Truncated? || e.Switched?
  }

  /** The inode being read after these events. */
  function Inode(log: Log): nat {
    if log == [] then 0
    else
      var e := log[|log| - 1];
      if e.Started? || e.Switched? then e.inode else Inode(log[..|log| - 1])
  }

  /** The offset reading last (re)started from. */
  function RestartAt(log: Log): nat {
    if log == [] then 0
    else
      var e := log[|log| - 1];
      if e.Started? then e.at else if Restarts(e) then 0 else RestartAt(log[..|log| - 1])
  }

  /** The bytes of the deliveries since then, concatenated. */
  function SinceRestart(log: Log): seq<byte> {
    if log == [] then []
    else
      var e := log[|log| - 1];
      if Restarts(e) then []
      else if e.Delivered? then SinceRestart(log[..|log| - 1]) + e.raw
      else SinceRestart(log[..|log| - 1])
  }

  /** What the current file is known to have held when reading it began. */
  function Opening(log: Log): seq<byte> {
    if log == [] then []
    else
      var e := log[|log| - 1];
      if e.Started? then e.start else if Restarts(e) then [] else Opening(log[..|log| - 1])
  }

  /** The offset up to which the current inode was delivered. */
  function Position(log: Log): nat {
    RestartAt(log) + |SinceRestart(log)|
  }

  function Texts(log: Log): seq<seq<byte>> {
    if log == [] then []
    else
      var e := log[|log| - 1];
      if e.Delivered? then Texts(log[..|log| - 1]) + [e.text] else Texts(log[..|log| - 1])
  }

  function Raws(log: Log): seq<seq<byte>> {
    if log == [] then []
    else
      var e := log[|log| - 1];
      if e.Delivered? then Raws(log[..|log| - 1]) + [e.raw] else Raws(log[..|log| - 1])
  }

  /** The number of bytes delivered. */
  function Volume(log: Log): nat {
    if log == [] then 0
    else
      var e := log[|log| - 1];
      Volume(log[..|log| - 1]) + if e.Delivered? then |e.raw| else 0
  }

  /** One delivery: a terminated line without its terminator, or an unterminated piece. */
  predicate IsSegment(raw: seq<byte>, text: seq<byte>) {
    if IsRawLine(raw) then IsTextOf(text, raw) else raw != [] && NL !in raw && text == raw
  }

  /** The content of the open file, where it was compared with the path. */
  function Compared(e: Event): seq<byte>
    requires IsComparison(e)
  {
    if e.Idle? then e.content else e.reason.content
  }

  predicate IsComparison(e: Event) {
    e.Idle? || (e.Switched? && !e.reason.OpenFileMissing?)
  }

  /** Everything up to the end of this content was delivered; if files only grow, what was
      delivered since the restart is the content from the restart offset on. */
  predicate Exhausts(law: Law, log: Log, content: seq<byte>) {
    && Position(log) == |content|
    && (law.grows ==> SinceRestart(log) == content[RestartAt(log)..] && Opening(log) <= content)
  }

  /** The steps of the rotation protocol. */
  predicate LegalStep(law: Law, log: Log, e: Event) {
    && (e.Started? <==> log == [])
    && (IsComparison(e) ==> Exhausts(law, log, Compared(e)))
    && match e
       case Started(_, start, skip, at) =>
         (law.grows ==> at == LineEnd(start, skip)) && (law.whole ==> WholeLines(start))
       case Delivered(raw, text) => IsSegment(raw, text) && (law.CutsAtLines() ==> IsRawLine(raw))
       case Idle(_) => true
       case Grew(content) => |content| > Position(log)
       case Truncated(content) => !law.grows && |content| < Position(log)
       case Switched(reason, _) => !law.stays && (reason.NotSameFile? ==> reason.onDisk != Inode(log))
  }

  predicate Legal(law: Law, log: Log) {
    log == [] || (Legal(law, log[..|log| - 1]) && LegalStep(law, log[..|log| - 1], log[|log| - 1]))
  }

  lemma Appended(law: Law, log: Log, e: Event)
    ensures (log + [e])[..|log + [e]| - 1] == log
    ensures Legal(law, log + [e]) <==> Legal(law, log) && LegalStep(law, log, e)
    ensures !Restarts(e) ==>
              RestartAt(log + [e]) == RestartAt(log) && Inode(log + [e]) == Inode(log) && Opening(log + [e]) == Opening(log)
    ensures Restarts(e) ==> SinceRestart(log + [e]) == []
    ensures e.Delivered? ==> SinceRestart(log + [e]) == SinceRestart(log) + e.raw
    ensures e.Idle? || e.Grew? ==> SinceRestart(log + [e]) == SinceRestart(log)
    ensures Texts(log + [e]) == if e.Delivered? then Texts(log) + [e.text] else Texts(log)
    ensures Raws(log + [e]) == if e.Delivered? then Raws(log) + [e.raw] else Raws(log)
    ensures Volume(log + [e]) == Volume(log) + if e.Delivered? then |e.raw| else 0
  {
  }

  // ---------- whole runs ----------

  lemma {:induction false} LegalPrefix(law: Law, log: Log, k: nat)
    requires Legal(law, log) && k <= |log|
    ensures Legal(law, log[..k])
    decreases |log|
  {
    if k == |log| {
      assert log[..k] == log;
    } else {
      LegalPrefix(law, log[..|log| - 1], k);
      assert log[..|log| - 1][..k] == log[..k];
    }
  }

  lemma LegalAt(law: Law, log: Log, k: nat)
    requires Legal(law, log) && k < |log|
    ensures LegalStep(law, log[..k], log[k])
  {
    LegalPrefix(law, log, k + 1);
    assert log[..k + 1][..k] == log[..k];
  }

  lemma FlatNone()
    ensures Flatten(Raws([])) == []
  {
  }

  lemma FlatStep(law: Law, log: Log, e: Event)
    ensures Flatten(Raws(log + [e])) == Flatten(Raws(log)) + if e.Delivered? then e.raw else []
  {
    Appended(law, log, e);
    if e.Delivered? {
      FlattenAppend(Raws(log), [e.raw]);
      assert Flatten([e.raw]) == e.raw;
    }
  }

  lemma LastApart(log: Log, k: nat)
    requires k < |log|
    ensures var front, e := log[..|log| - 1], log[|log| - 1];
            log == front + [e] && log[k..] == front[k..] + [e] && front[..k] == log[..k]
  {
  }

  /** Nothing begins anew among these events. */
  predicate NoRestarts(log: Log) {
    forall e <- log :: !Restarts(e)
  }

  /** The deliveries after a restart, up to the next one, are together `SinceRestart`. */
  lemma {:induction false} SinceRestartIsFlat(law: Law, log: Log, j: nat)
    requires j < |log| && Restarts(log[j]) && NoRestarts(log[j + 1..])
    ensures SinceRestart(log) == Flatten(Raws(log[j + 1..]))
    ensures RestartAt(log) == RestartAt(log[..j + 1])
    ensures Inode(log) == Inode(log[..j + 1])
    ensures Opening(log) == Opening(log[..j + 1])
    decreases |log|
  {
    hide Flatten, Raws;
    if j + 1 == |log| {
      FlatNone();
      assert log[j + 1..] == [] && log[..j + 1] == log;
    } else {
      var front, e := log[..|log| - 1], log[|log| - 1];
      LastApart(log, j + 1);
      var before, all := front[j + 1..], log[j + 1..];
      assert e in all && forall x <- before :: x in all;
      SinceRestartIsFlat(law, front, j);
      FlatStep(law, front[j + 1..], e);
    }
  }

  // ---------- what the consumer sees ----------

  predicate Segments(log: Log) {
    forall e <- log :: e.Delivered? ==> IsSegment(e.raw, e.text)
  }

  predicate Terminated(log: Log) {
    forall e <- log :: e.Delivered? ==> IsRawLine(e.raw)
  }

  lemma LegalSegments(law: Law, log: Log, j: nat, k: nat)
    requires Legal(law, log) && j <= k <= |log|
    ensures Segments(log[j..k]) && (law.CutsAtLines() ==> Terminated(log[j..k]))
  {
    hide Legal, IsSegment, IsRawLine;
    forall e <- log[j..k]
      ensures e.Delivered? ==> IsSegment(e.raw, e.text) && (law.CutsAtLines() ==> IsRawLine(e.raw))
    {
      var i :| j <= i < k && log[i] == e;
      LegalAt(law, log, i);
    }
  }

  /** What is sent of each piece: a line without its terminator, or an unterminated piece. */
  predicate ArePieces(raws: seq<seq<byte>>, texts: seq<seq<byte>>) {
    |texts| == |raws| && forall i :: 0 <= i < |raws| ==> IsSegment(raws[i], texts[i])
  }

  lemma {:induction false} TextsArePieces(log: Log)
    requires Segments(log)
    ensures ArePieces(Raws(log), Texts(log))
    decreases |log|
  {
    if log != [] {
      hide IsSegment;
      var front, e := log[..|log| - 1], log[|log| - 1];
      assert log == front + [e] && e in log && forall x <- front :: x in log;
      TextsArePieces(front);
    }
  }

  lemma LinesOfOne(raw: seq<byte>)
    requires IsRawLine(raw)
    ensures LinesOf(raw) == [Text(raw)]
  {
    assert raw == raw + [];
    LinesCons(raw, []);
  }

  /** When every piece was terminated, the sent texts are exactly the lines of the bytes. */
  lemma {:induction false} TextsAreLines(log: Log)
    requires Segments(log) && Terminated(log)
    ensures Texts(log) == LinesOf(Flatten(Raws(log))) && WholeLines(Flatten(Raws(log)))
    decreases |log|
  {
    if log != [] {
      hide LinesOf, IsRawLine, IsTextOf;
      var front, e := log[..|log| - 1], log[|log| - 1];
      assert log == front + [e] && e in log;
      TextsAreLines(front);
      if e.Delivered? {
        FlatStep(Law(false, false, false, false), front, e);
        LinesAppend(Flatten(Raws(front)), e.raw);
        LinesOfOne(e.raw);
        TextIs(e.text, e.raw);
      }
    }
  }

  /** The deliveries that no newline ended. */
  function Tails(log: Log): nat {
    if log == [] then 0
    else
      var e := log[|log| - 1];
      Tails(log[..|log| - 1]) + if e.Delivered? && !IsRawLine(e.raw) then 1 else 0
  }

  /** The consumer counts deliveries, resume counts newlines: they differ by exactly the
      unterminated pieces sent. */
  lemma {:induction false} DeliveriesVersusNewlines(log: Log)
    requires Segments(log)
    ensures |Texts(log)| == |LinesOf(Flatten(Raws(log)))| + Tails(log)
    ensures Tails(log) == 0 <==> Terminated(log)
    decreases |log|
  {
    hide Flatten, LinesOf;
    if log == [] {
      FlatNone();
      LinesNone([]);
    } else {
      var front, e := log[..|log| - 1], log[|log| - 1];
      assert log == front + [e] && e in log && forall x <- front :: x in log;
      DeliveriesVersusNewlines(front);
      if e.Delivered? {
        FlatStep(Law(false, false, false, false), front, e);
        var bytes := Flatten(Raws(front));
        CountNewlines(bytes);
        CountNewlines(bytes + e.raw);
        if IsRawLine(e.raw) {
          OneNewline(e.raw);
        }
      }
    }
  }

  /** The exact condition under which the consumer sees the lines of the consumed bytes. */
  lemma TextsAreLinesExactly(log: Log)
    requires Segments(log)
    ensures Texts(log) == LinesOf(Flatten(Raws(log))) <==> Terminated(log)
  {
    DeliveriesVersusNewlines(log);
    if Terminated(log) {
      TextsAreLines(log);
    }
  }

  /** Wherever end of file was hit: without carriage returns, the texts concatenate to the
      consumed bytes with the newlines, and nothing else, removed. */
  lemma {:induction false} TextsKeepBytes(log: Log)
    requires Segments(log) && CR !in Flatten(Raws(log))
    ensures Flatten(Texts(log)) == WithoutNewlines(Flatten(Raws(log)))
    decreases |log|
  {
    if log != [] {
      var front, e := log[..|log| - 1], log[|log| - 1];
      assert log == front + [e] && e in log;
      if e.Delivered? {
        FlatStep(Law(false, false, false, false), front, e);
        FlattenAppend(Texts(front), [e.text]);
        assert Flatten([e.text]) == e.text;
        TextsKeepBytes(front);
        WithoutNewlinesAppend(Flatten(Raws(front)), e.raw);
        if IsRawLine(e.raw) {
          TextIs(e.text, e.raw);
          TextWithoutCR(e.raw);
        } else {
          WithoutNewlinesNone(e.raw);
        }
      } else {
        TextsKeepBytes(front);
      }
    }
  }

  // ---------- drained before every comparison ----------

  /** Rotation drains before switching, and an idle tailer has delivered everything. Take any
      restart, and any later comparison with the path before the next restart. The deliveries
      in between cover the open file from the restart offset to its end. If files only grow
      they are its bytes there; if pieces are cut at newlines the texts are the lines of
      those bytes; and without carriage returns the texts are those bytes less newlines. */
  lemma Drains(law: Law, log: Log, j: nat, k: nat)
    requires Legal(law, log) && j < k < |log|
    requires Restarts(log[j]) && NoRestarts(log[j + 1..k]) && IsComparison(log[k])
    ensures var from, content, sent := RestartAt(log[..j + 1]), Compared(log[k]), log[j + 1..k];
            && from <= |content| && from + |Flatten(Raws(sent))| == |content|
            && (law.grows ==> Flatten(Raws(sent)) == content[from..])
            && (law.CutsAtLines() ==> Texts(sent) == LinesOf(content[from..]))
            && (law.grows && CR !in content[from..] ==> Flatten(Texts(sent)) == WithoutNewlines(content[from..]))
            && (!log[j].Started? ==> from == 0)
  {
    hide Legal, Flatten, Raws, Texts, LinesOf, RestartAt, SinceRestart, Opening, Inode;
    LegalAt(law, log, k);
    var sent := log[j + 1..k];
    assert log[..k][j + 1..] == sent && log[..k][..j + 1] == log[..j + 1];
    SinceRestartIsFlat(law, log[..k], j);
    LegalSegments(law, log, j + 1, k);
    if law.CutsAtLines() {
      TextsAreLines(sent);
    }
    if law.grows && CR !in Compared(log[k])[RestartAt(log[..k])..] {
      TextsKeepBytes(sent);
    }
    assert RestartAt(log[..j + 1]) == 0 || log[j].Started? by {
      RestartsAt(log, j);
    }
  }

  lemma RestartsAt(log: Log, j: nat)
    requires j < |log| && Restarts(log[j])
    ensures RestartAt(log[..j + 1]) == (if log[j].Started? then log[j].at else 0)
    ensures SinceRestart(log[..j + 1]) == [] && Opening(log[..j + 1]) == (if log[j].Started? then log[j].start else [])
    ensures log[j].Switched? ==> Inode(log[..j + 1]) == log[j].inode
  {
    assert log[..j + 1][..j] == log[..j] && log[..j + 1][j] == log[j];
  }

  /** After a switch the new inode is read from its first byte. */
  lemma SwitchedToStart(log: Log, k: nat)
    requires k < |log| && log[k].Switched?
    ensures Position(log[..k + 1]) == 0 && Inode(log[..k + 1]) == log[k].inode
  {
    RestartsAt(log, k);
  }

  function Min(a: nat, b: nat): nat {
    if a < b then a else b
  }

  /** Behind the lines to skip of a content that has grown since are its later lines. */
  lemma SkippedLines(start: seq<byte>, content: seq<byte>, skip: nat)
    requires start <= content && WholeLines(start)
    ensures var at, n := LineEnd(start, skip), Min(skip, |LinesOf(start)|);
            n <= |LinesOf(content)| && at <= |content| && LinesOf(content[at..]) == LinesOf(content)[n..]
  {
    hide LinesOf, LineEnd;
    var n := Min(skip, |LinesOf(start)|);
    if skip > |LinesOf(start)| {
      LineEndBeyond(start, skip);
      assert start + [] == start;
      LineEndUnique(start, []);
    }
    LinesGrow(start, content);
    LineEndStable(start, content, n);
    LineEndMeaning(content, n);
  }

  /** Reading has not begun anew since the start. */
  predicate OneFile(log: Log) {
    log != [] && log[0].Started? && NoRestarts(log[1..])
  }

  /** On a path that stays on a file that only grows, nothing begins anew. */
  lemma {:induction false} LegalOneFile(law: Law, log: Log)
    requires Legal(law, log) && log != [] && law.grows && law.stays
    ensures OneFile(log)
    decreases |log|
  {
    var front, e := log[..|log| - 1], log[|log| - 1];
    if front != [] {
      LegalOneFile(law, front);
      assert log[1..] == front[1..] + [e];
    }
  }

  /** A run that skipped lines of a file, polled it and found nothing more: the texts sent by
      then are exactly the file's lines behind the skipped ones. */
  lemma IdleIsExact(law: Law, log: Log, k: nat)
    requires Legal(law, log) && OneFile(log) && law.CutsAtLines() && k < |log| && log[k].Idle?
    ensures var first, content := log[0], log[k].content;
            var n := Min(first.skip, |LinesOf(first.start)|);
            first.start <= content && n <= |LinesOf(content)| && Texts(log[..k]) == LinesOf(content)[n..]
  {
    hide Legal, LinesOf, LineEnd, RestartAt, SinceRestart, Opening, Texts, Raws, Flatten, WithoutNewlines, Inode;
    assert log[..1] == [log[0]] && log[..k][..1] == log[..1];
    assert forall e <- log[1..k] :: e in log[1..];
    Drains(law, log, 0, k);
    LegalAt(law, log, 0);
    LegalAt(law, log, k);
    RestartsAt(log, 0);
    assert forall e <- log[..k][1..] :: e in log[1..];
    SinceRestartIsFlat(law, log[..k], 0);
    SkippedLines(log[0].start, log[k].content, log[0].skip);
    TextsBehind(log[..k]);
    assert log[..k][1..] == log[1..k];
  }

  /** The start itself sends nothing. */
  lemma {:induction false} TextsBehind(log: Log)
    requires log != [] && log[0].Started?
    ensures Texts(log) == Texts(log[1..]) && Raws(log) == Raws(log[1..])
    decreases |log|
  {
    if |log| > 1 {
      var front, e := log[..|log| - 1], log[|log| - 1];
      TextsBehind(front);
      assert log[1..][..|log[1..]| - 1] == front[1..] && log[1..][|log[1..]| - 1] == e;
    }
  }
}
