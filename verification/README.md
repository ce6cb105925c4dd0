# Verification of the log enricher

A Dafny model of the log enricher, with proofs of what its parts promise. It covers the file
tailer with its line-counting resume protocol, the registry of running tailers, active host
discovery, the text and field transformations of the pipeline, the push receiver's path and
batch normalisation, and the shared writers, caches and entries around the pipeline.

Run `dafny verify dfyconfig.toml` to check everything.

## How the model is built

- Code that updates state step by step is a class or method here: the buffered reader, the
  tailer, file states, the parser, the stages and their caches, the entry pool. Each method's
  contract ties the new state to a function of the old one, and lemmas say what that function
  means over whole runs.
- Code whose point is concurrency is a state machine with one step per atomic section
  (`Delivery`, `Registry`, `Discovery`, `FileBackend`, `EntryPool`). Its theorems hold for every
  list of steps. The atomic sections also exist as methods that are proved to be those steps.
- The disk is a set of inodes with byte contents and one watched path. Between any two system
  calls other processes change it as a law allows. A law says whether files only grow, whether
  the path stays on its inode, whether files are whole lines at all times, and whether reads are
  reliable. Results name the parts they need, and hold for every other choice.
- The disk keeps a ghost transcript of its answers to all system calls: what was opened, what a
  stat reported, which bytes a read served at which offset of which file, and where reads ended.
  The tailer keeps a ghost log of events. `RunRecord.IsRun` says that the transcript explains the
  log and the log the transcript, with nothing left over: every delivery is the next bytes that
  reads of the current file served, and every other event is the outcome of a poll that the
  answers call for. `Tailer.Tailer.Run` and `TailFile.Session` export it on every disk.
- Reads may be short in any pattern, and buffers may have any capacity. No result depends on
  either.
- `TailFile.Sessions` proves that real sessions in a row hand over the file's lines in order,
  each from its count on, and `TailFile.Restarts` that with stats that work every one of them
  resumes. That is the `Hand` step of `Delivery`, which adds crashes between processing and
  counting, saves at any moment, and every kind of stat: failed, without an inode, or complete.
- Clocks, lookups, decoders, regular expressions other than the two default ones, and the order
  of map iteration are parameters or nondeterministic choices.

## What was found

- When a restarted tailer starts over, `LineNumber` is kept (`internal/tailer/manager.go:299-302`).
  `Delivery.CountIsPosition` gives the exact condition under which the count still means a
  position. `Delivery.StartingOverLosesALine` shows that otherwise an unprocessed line can be
  skipped, from every state. Growth alone leads there when the stat at a save fails
  (`Delivery.FailedStampLosesALine`) or where there are no inodes
  (`Delivery.GrowthWithoutInodeLosesALine`). `Delivery.RecognisedExactly` is the condition on
  the two stats.
- A read that fails in the middle of a line makes `ReadLine` return what it has as if it were a
  line, and the error is dropped (`Bufio.Reader.ReadLine`). `RunRecord.FailedReadSplitsALine` is a
  run that this happens to, for every line and every place in it. On files that only grow by whole
  lines nothing else splits lines (`RunRecord.OnlyFailuresSplitLines`, an if and only if).
- An unterminated tail is sent as a line but has no newline to be skipped on resume.
  `TailLog.DeliveriesVersusNewlines` gives the exact difference.
- The deferred stop of a finished tailer takes out whatever is registered for its path, also a
  successor (`Registry.ExitStopsWhoeverIsRegistered`, `Registry.SuccessorIsStopped`).
- A cancelled parent context can drop all hosts that were found (`Discovery.CancelledParentDropsHosts`).
- Field rewrites depend on map order exactly when one non-trivial rewrite's target is the first
  segment of another's path (`FieldRewrite.OrderMatters`). A rewrite of a field onto itself is
  harmless even then.
- Placeholder conversion is faithful exactly for texts without `{{`; single braces are fine
  (`TemplateText.ConversionIsExact`).
- A layout remembered by the template resolver loses a variable with the empty name and one that
  the remembering entry lacked. `TemplateResolver.ShownExactly` is the exact condition under which
  a template cannot tell.
- After an entry without an address, the next one of its source with as many fields keeps its
  fields even if it has one (`ClientIpExtraction.FailureIsRemembered`).
- A remembered failure of timestamp extraction leaves the zero time, where a scan sets the
  current time (`TimestampExtraction.ZeroTimeShows`). The age filter that may follow reads it
  (`internal/pipeline/filter.go:55-58`).
- After a canonical address, the next text in the same field is taken without parsing it
  (`ClientIpExtraction.UncheckedText`).
- A NUL in an application name can make two pushed streams share a processor (`PushBatch.NulMixes`).
- CloseWriter can close a handle under a sender that has just looked it up
  (`FileBackend.WriteAfterClose`).

## Model

| member | source | states |
|---|---|---|
| Lines.LinesAppend | internal/tailer/tailer.go:103-112 | The lines of whole-line content followed by more are the lines of both, in order: counting newlines composes over appends |
| Lines.LinesGrow | internal/tailer/tailer.go:103-112 | The lines of a prefix are a prefix of the lines of the grown file |
| Lines.LineEndMeaning | internal/tailer/tailer.go:99-123 | Skipping k lines of a file leaves exactly its lines with the first k dropped |
| Lines.LineEndUnique | internal/tailer/tailer.go:99-123 | The offset after k newlines is the only split of the file into k whole lines and the rest |
| Lines.LineEndBeyond | internal/tailer/tailer.go:105-107 | With fewer newlines than lines to skip, the seek ends at end of file |
| Lines.LineEndStable | internal/tailer/tailer.go:119-121 | The seek position does not move when the file grows after it |
| Lines.TextIs | internal/tailer/tailer.go:155 | The text of a line is the only one that the line is with `\r\n` behind it, or with `\n` behind it and no carriage return before that |
| Lines.LinesMeaning | internal/tailer/tailer.go:103-112 | Every string is a sequence of newline-terminated pieces and an unterminated rest, and its lines are their texts |
| Lines.LinesUnique | internal/tailer/tailer.go:103-112 | In no other way: the lines are the texts of the pieces of any such sequence |
| FileSystem.Disk.Interfere | internal/tailer/tailer.go:202-264 | What other processes may do between two system calls: anything the law allows and nothing else, be it growth only, a path that stays, or files of whole lines |
| FileSystem.Disk.Open | internal/tailer/tailer.go:75-78 | Opening gives a handle at offset 0 on the inode the path names at that moment, or a missing-file or other error |
| FileSystem.Disk.StatFile | internal/tailer/tailer.go:210-219 | Statting an open file reports the size of its own inode, whatever the path names now; the answer and the content at that moment are recorded |
| FileSystem.Disk.StatPath | internal/tailer/tailer.go:245-253 | Statting the path reports the inode it names at that moment, and the answer is recorded |
| FileSystem.Disk.Read | internal/tailer/tailer.go:151-155 | One read system call: any shorter count than asked for, at least one byte unless the file has no more at that offset or the read fails, which on any disk it may unless reads are assumed reliable; the bytes are those of the file at that moment, and they, the end of file or the failure are recorded with the file and the offset |
| Contexts.Context.IsDone | internal/tailer/tailer.go:140-145 | Once cancelled, always cancelled |
| Bufio.Reader.Reset | internal/tailer/tailer.go:228 | Discards everything buffered and continues from the file handle's offset |
| Bufio.Reader.Fill | internal/tailer/tailer.go:151-155 | On every disk, one more read adds to the buffer exactly the bytes recorded as served, which the file then holds at the offset read from, and the bytes taken since the reset remain those the file served, in order; end of file is reported only where the file ended |
| Bufio.Reader.ReadMore | internal/tailer/tailer.go:151-155 | The same for the read alone, which is the one answer added to the transcript |
| Bufio.Reader.FillAndSearch | internal/tailer/tailer.go:151-155 | Searching only the new bytes finds the first newline if there is one now |
| Bufio.Reader.FillToNewline | internal/tailer/tailer.go:151-155 | For every capacity and every short-read pattern, reading on loses and reorders no byte the file served, and stops at the first newline, a full buffer, or a read error |
| Bufio.Reader.ReadSlice | internal/tailer/tailer.go:104 | A slice is a raw line, or all that is buffered together with why no newline was found |
| Bufio.Reader.ReadLine | internal/tailer/tailer.go:151-158 | A call gives a line, which the bytes consumed are with `\r\n`, or with `\n` and no carriage return before it, behind them; a prefix of a line that fills the buffer (keeping back a carriage return); or an unterminated rest, which it does exactly if reads came to an end with bytes buffered: a read that fails then is a rest and no error, and one that fails with nothing buffered is the error; what the call consumed and what is still unread are what was unread and the bytes served meanwhile |
| Bufio.Reader.ReadBytes | internal/tailer/tailer.go:103-112 | Bytes up to and including the next newline, however many buffers that takes, or all the rest with the error; they and what is still unread are what was unread and the bytes served meanwhile |
| TailLog.Drains | internal/tailer/tailer.go:204-284 | In every legal log, between a restart and a later comparison with the path (an idle poll, or the switch a missing path or another inode caused) the deliveries are as many bytes as the content compared has from the restart offset to its end; if files only grow they are exactly those bytes of it, for pieces cut at newlines the texts are exactly its lines there, and without carriage returns the texts are those bytes less newlines; RunRecord.RotationDrains ties that content and those bytes to the disk |
| RunRecord.PollIsDetermined | internal/tailer/tailer.go:204-301 | The disk's answers alone decide what a poll does: what it logs, and whether and why the run ends |
| RunRecord.PollDecides | internal/tailer/tailer.go:210-264 | A file shorter than what was read of it is read from its start, a longer one is read on, and at one of that size that the path still names the tailer waits; any other error of a stat ends the run |
| RunRecord.PollReopens | internal/tailer/tailer.go:214-263 | The path is opened again exactly if the open file is gone, or has no more and the path is missing or names another inode |
| RunRecord.ReopeningDecides | internal/tailer/tailer.go:266-301 | The first open that finds a file switches to it if at most ten found none before; the eleventh that finds none ends the run, and so does any other error |
| RunRecord.RotationDrains | internal/tailer/tailer.go:204-284 | Rotation drains before switching, in the record of every run: when the path was compared with the open file, the disk had just reported the content of the open file and a path that was missing, named another inode, or named the same one, as the event says; the bytes delivered since the restart are exactly the bytes that reads served since, on every disk, and reach the end of that content; if files only grow they are its bytes, and its lines if pieces are cut at newlines |
| RunRecord.DeliveredIsServed | internal/tailer/tailer.go:138-199 | On every disk, after any event of a run, what was delivered since the last restart followed by what was served and is not delivered yet are the bytes served since that restart |
| RunRecord.ReadsInOrder | internal/tailer/tailer.go:276-283 | Those reads are of the inode of that restart and follow each other without gap or overlap from the restart offset |
| RunRecord.FirstSeen | internal/tailer/tailer.go:73-123 | A run begins with opening the path, and on every disk at the end of the lines to skip of the bytes then read, or of all of them |
| RunRecord.OtherRestartsSeen | internal/tailer/tailer.go:210-230 | A restart from 0 means that the disk reported the open file shorter than what was delivered of it, a switch from a file that is gone that its stat said so and that the inode switched to was opened |
| RunRecord.ComparisonSeen | internal/tailer/tailer.go:241-284 | The poll behind a comparison saw the open file with that content and then the path as the event says, and a switch is to the inode opened last |
| RunRecord.ReportedStill | internal/tailer/tailer.go:204-264 | While files only grow, the contents a run compared the path with are prefixes of those files for good |
| RunRecord.OnlyFailuresSplitLines | internal/tailer/tailer.go:155-182 | On files that only grow by whole lines, the texts sent between a restart and a later comparison are the lines of the reported content if and only if no read failed among those of a delivery |
| RunRecord.FailedReadSplitsALine | internal/tailer/tailer.go:155-182 | For every line and every cut of it, on a file that holds just this line and does not change, the transcript of a run in which the read after the cut fails, and its log: the line is sent as two |
| TailLog.SwitchedToStart | internal/tailer/tailer.go:276-283 | After a switch the new inode is read from byte 0 |
| TailLog.IdleIsExact | internal/tailer/tailer.go:160-171 | When a run that skipped lines finds nothing more to read, the texts sent by then are exactly the lines of the file behind the skipped ones |
| TailLog.SkippedLines | internal/tailer/tailer.go:99-123 | Behind the lines skipped of a file that has grown since are exactly its later lines |
| TailLog.LegalOneFile | internal/tailer/tailer.go:202-264 | On a path that stays on a file that only grows, reading never begins anew |
| TailLog.SinceRestartIsFlat | internal/tailer/tailer.go:138-199 | Between restarts nothing but deliveries happens, and concatenated they are the bytes consumed since |
| TailLog.TextsAreLines | internal/tailer/tailer.go:138-199 | If every piece was newline-terminated, the texts sent are exactly the lines of the consumed bytes |
| TailLog.TextsAreLinesExactly | internal/tailer/tailer.go:138-199 | The texts sent are the lines of the consumed bytes if and only if every piece was newline-terminated |
| TailLog.DeliveriesVersusNewlines | internal/tailer/tailer.go:160-164 | The consumer counts deliveries and resume counts newlines; they differ by exactly the number of unterminated pieces that were sent |
| TailLog.TextsKeepBytes | internal/tailer/tailer.go:151-198 | Wherever end of file was hit, for bytes without carriage returns the texts sent concatenate to the consumed bytes with only the newline bytes removed |
| TailLog.TextsArePieces | internal/tailer/tailer.go:151-198 | What is sent of each delivered piece is the line it is without `\r\n` or `\n`, or the piece itself if no newline ends it |
| Tailer.Backoff | internal/tailer/tailer.go:20-25 | The delay stays between the initial and the maximal one |
| Tailer.BackoffExactly | internal/tailer/tailer.go:20-25 | The delays are 250, 500, 1000, 2000 and 4000 milliseconds, then 5000 |
| Tailer.Tailer.ResetBackoff | internal/tailer/tailer.go:304-307 | Delay and idle count are back at their initial values |
| Tailer.Tailer.ApplyBackoff | internal/tailer/tailer.go:310-315 | One more idle poll; the delay is the capped doubling for that count |
| Tailer.Tailer.SeekToLineOffset | internal/tailer/tailer.go:99-123 | Whatever was read ahead, the file is left exactly after the offset-th newline of the bytes served, or after all of them if they have fewer; if files only grow that is the offset-th newline of the file, or its end |
| Tailer.Tailer.SkipLines | internal/tailer/tailer.go:103-112 | Reads whole lines until the offset is reached or reads come to an end; the bytes consumed and read ahead are the bytes served from the start of the file |
| Tailer.Tailer.OpenAndSeek | internal/tailer/tailer.go:73-97 | A started tailer stands after the lines to skip of the file the path names, and one that did not start met a failed opening or a failed read |
| Tailer.Tailer.Begin | internal/tailer/tailer.go:125-137 | The run's first event is that opening, with the answers behind it, and what it says of the file was true of the disk |
| Tailer.Tailer.ReopenWithReason | internal/tailer/tailer.go:266-301 | Determined by the disk's answers: at most ten attempts that find the path missing may precede a successful open, which switches to the inode opened, empties the reader and reads from 0; an eleventh, any other error or a cancellation ends the run and switches nothing |
| Tailer.Tailer.TakeOver | internal/tailer/tailer.go:277-283 | The opened file is read from its first byte with nothing buffered and the delay reset |
| Tailer.Tailer.RestartFromZero | internal/tailer/tailer.go:222-230 | A shrunken file is read again from byte 0 with nothing buffered |
| Tailer.Tailer.HandleEOF | internal/tailer/tailer.go:204-264 | Called with empty buffers, what it does is determined by the disk's answers: a file shorter than what was read of it is read again from 0, a longer one is read on, one that is gone is opened again, and otherwise the path decides |
| Tailer.Tailer.CheckSize | internal/tailer/tailer.go:221-264 | The same, given the size of the open file |
| Tailer.Tailer.CheckRotation | internal/tailer/tailer.go:243-263 | The tailer leaves its file if and only if the path was found missing or naming another inode; if it names the same one the tailer waits and logs that everything up to the end of the file was delivered |
| Tailer.Tailer.ReadChunk | internal/tailer/tailer.go:155-182 | One more chunk joins the line under assembly: the assembled text is the consumed bytes without terminator, also across `\r` at a buffer end; what is pending and unread stays what was served and is not delivered; end of file is reported only where the file ended, and a call that took no bytes has recorded an end |
| Tailer.Join | internal/tailer/tailer.go:151-183 | Joining a chunk to an accumulated prefix gives a line, a tail or a longer prefix of exactly the consumed bytes |
| Tailer.Tailer.NextLine | internal/tailer/tailer.go:147-183 | However many chunks and polls it takes, what is assembled is one line, or one unterminated piece with which reads came to an end, nothing is delivered meanwhile, and every read took bytes or came to a recorded end; the answers of the disk explain every event |
| Tailer.Tailer.ReadOn | internal/tailer/tailer.go:155-182 | The same for one read |
| Tailer.Tailer.Poll | internal/tailer/tailer.go:160-171 | At an end of file with nothing to deliver, exactly one event follows, the one the disk's answers call for, or the run ends as they call for |
| Tailer.Tailer.Send | internal/tailer/tailer.go:185-198 | The delivery is recorded, is the next bytes that were served, and is sent; nothing is left in the line buffer |
| Tailer.Tailer.Run | internal/tailer/tailer.go:125-200 | For every buffer size, short-read pattern and schedule of other writers: on every disk the run is explained by the disk's answers, so that every delivered byte is one a read served, every restart and every idle poll is what the answers call for, and the run ends only for a reason they give or a cancellation; a tailer still running read as often as it was observed; on a file that only grows by whole lines the lines sent are the file's lines after the skipped ones, in order, none twice and none left out, and after an idle poll they are all of them; with any appends and no carriage returns only newline bytes are lost; what is sent of each piece is the line it is without `\r\n` or `\n`, or the piece itself if no newline ends it |
| Tailer.Tailer.Iterate | internal/tailer/tailer.go:138-199 | One round: exactly one line is handed over, the last event, after polls only; or the run ends with nothing handed over |
| Tailer.LastIdle | internal/tailer/tailer.go:160-171 | A run whose last event is an idle poll sent all lines there were |
| Tailer.SentLines | internal/tailer/tailer.go:99-200 | A run that began after the k-th newline sends a prefix of the lines after the first k |
| Tailer.SoughtInFile | internal/tailer/tailer.go:103-122 | Rewinding by what is buffered lands on the offset-th newline of the file |
| Tailer.SoughtInBytes | internal/tailer/tailer.go:103-122 | The same in terms of the bytes that were read, on every disk |
| FileStates.SkipIsCount | internal/tailer/manager.go:295-305 | The tailer skips its count exactly when nothing was counted or the file is recognised, and skips nothing otherwise |
| FileStates.RefusedExactly | internal/state/state.go:221-267 | For every saved count and every stat: the file is read from its start exactly if the stat failed; or, both sides knowing an inode, it is another one, the file is shorter than at the stamp, or has the same positive size and another positive time; or, without an inode on one side, size or time differ or are nothing |
| FileStates.FileState.FindMatchingPosition | internal/state/state.go:221-267 | Recognises a file exactly when inode, size and modification time vouch for it (or size and time alone where there is no inode), and then gives the stored count |
| FileStates.FileState.ResumeOffset | internal/tailer/manager.go:292-305 | The resume decision of a starting tailer |
| FileStates.FileState.UpdateMetadata | internal/state/state.go:200-215 | Size, time and inode are taken, or all cleared when the stat fails; the count is kept |
| FileStates.FileState.IncrementLineNumber | internal/state/state.go:25-29 | The count grows by one and nothing else changes |
| FileStates.AppState.GetOrCreateFileState | internal/state/state.go:180-190 | The existing state of a path, or a fresh one; no other path is touched |
| FileStates.AppState.UpdateAllFileMetadata | internal/state/state.go:194-217 | Each file is stamped from its own stat, in any order of the map |
| FileStates.AppState.SnapshotState | internal/state/state.go:64-95 | While consumers go on counting, each copy is a value its state had during the snapshot: a count between those at the beginning and the end, with the metadata |
| Delivery.DriftStep | internal/tailer/manager.go:289-339 | For every stat, failed or without inode too, only a starting tailer changes how far the count is ahead of its position; it becomes 0 exactly when the count can be taken over |
| Delivery.DriftKept | internal/tailer/manager.go:314-339 | Over any steps of one tailer the drift stays |
| Delivery.CountIsPosition | internal/tailer/manager.go:295-305 | Exact condition, for every stat: with nothing in flight LineNumber is the position in the file if and only if the tailer could take its count over; else it is too high by the whole old count |
| Delivery.AtLeastOnce | internal/tailer/manager.go:314-339 | While the path keeps its file, in every interleaving of appends, reader, consumer, saver and crashes, the count brackets the lines handed over, and no count, live or saved, is past a line that was not handed to ProcessLine |
| Delivery.AppendOnlyIsFaithful | internal/state/state.go:221-267 | If the file only grows and every stat succeeds and reports an inode, every restart of the process takes the count over |
| Delivery.RecognisedExactly | internal/state/state.go:194-267 | Exact condition under which a stamp vouches for a file that may have grown: both stats succeeded, and both sides know the inode or the file did not change and was neither empty nor of time zero |
| Delivery.RecognisedBetween | internal/state/state.go:194-267 | The exact condition for any two states of the disk, whatever happened to the path in between |
| Delivery.ReplacedIsReadFromItsStart | internal/state/state.go:230-254 | A process that finds the path replaced or truncated since its count was saved reads it from its start exactly if inode, size or time show it, and then hands over the first lines of the new file in order |
| Delivery.HandsOn | internal/tailer/manager.go:314-339 | A tailer hands over the lines behind those it skipped, one after another |
| Delivery.ExactlyOnceFrom | internal/tailer/manager.go:289-340 | Over any number of lifetimes that end quiescent after a save, the lines processed in all of them, concatenated, are a prefix of the file's lines; that sessions hand over those lines is TailFile.Sessions |
| Delivery.Guarantees | internal/tailer/manager.go:289-340 | Both guarantees, for every append-only run from an empty state file in which stats succeed and report inodes, under crashes anywhere and under quiescent ends |
| Delivery.OneLineLifetime | internal/tailer/manager.go:289-340 | A complete lifetime that processes one line and saves, as a schedule of the protocol |
| Delivery.StartingOverLosesALine | internal/tailer/manager.go:299-302 | From every state: after a start that cannot take its count over, some continuation in which the file only grows and stats work saves a count past a line nobody processed |
| Delivery.HandMany | internal/tailer/manager.go:314-339 | A tailer can hand over and count any number of the lines that are there |
| Delivery.FailedStampLosesALine | internal/state/state.go:200-208 | For every initial file, a schedule in which the file only grows, one stat at a save fails, and a line is lost |
| Delivery.GrowthWithoutInodeLosesALine | internal/state/state.go:256-266 | The same where no stat fails but none reports an inode and the file grows between two processes |
| Delivery.SnapshotIsASave | internal/state/state.go:64-95 | A count between those before and after some steps of a running tailer is what a save at some moment in between writes |
| Delivery.InvStep | internal/tailer/manager.go:289-340 | Every step keeps: no live or saved count is past a line that was not handed over, and the count is not ahead of the position |
| Delivery.ExactStep | internal/tailer/manager.go:289-340 | Every step keeps: what was handed over in all lifetimes are the file's first lines, as many as the position says |
| TailFile.Consume | internal/tailer/manager.go:314-339 | The count grows by exactly the lines processed, a prefix of those received, and lines are left over only on cancellation |
| TailFile.Session | internal/tailer/manager.go:289-340 | Resume decision, tailer and consumer together: a tailer runs behind the lines that the decision skips, and the disk's answers explain its run and its end; what is processed is a prefix of what it sent, all of it unless cancelled; on an append-only file it is exactly the file's lines from the old count to the new one, all there were if the last event was an idle poll and nothing was left over; disk, path and metadata are handed back for the next session |
| TailFile.Sessions | internal/tailer/manager.go:289-340 | Any number of sessions, processes, stats, stamps and writers in between, going on as long as the next may take its count over: every session is a run explained by the disk's answers to it that skipped the lines counted before, and all that was processed, concatenated, are the file's lines from the first count to the last |
| TailFile.Resume | internal/tailer/manager.go:289-340 | One more such session adds its lines and its answers to those before |
| TailFile.Restarts | internal/tailer/manager.go:289-340 | On an append-only file, with stats that report inode, size and modification time truthfully, every one of any number of sessions resumes, and all that was processed, concatenated, are the file's lines from the first count to the last |
| TailFile.TrueStatsVouch | internal/state/state.go:221-267 | Metadata that was once true of an append-only file is recognised by every later true stat |
| Registry.Protocol | internal/tailer/manager.go:236-279 | In every schedule what is registered is alive, an uncancelled tailer is registered or about to be cancelled, none is cancelled twice, and deletions, cancels and CloseWriter calls match one to one once no stop is pending |
| Registry.InvStep | internal/tailer/manager.go:236-279 | Every step keeps: what is registered is live, each tailer is registered, about to be cancelled, or cancelled once, and deletions, cancels and closes balance |
| Registry.EmptyInv | internal/tailer/manager.go:236-279 | So does the empty registry, so that the protocol holds of every schedule from it |
| Registry.ExitStopsWhoeverIsRegistered | internal/tailer/manager.go:255-258 | Exactly whom a tailer's own exit stops: itself if still registered, else the live successor that took its path, else nobody |
| Registry.SuccessorIsStopped | internal/tailer/manager.go:255-279 | A schedule in which the old tailer of a path stops its successor |
| Registry.Manager.StartTailingFile | internal/tailer/manager.go:236-259 | The locked section starts a tailer exactly for a path that is not ignored and not registered |
| Registry.Manager.StopTailingFile | internal/tailer/manager.go:265-279 | The locked section takes out whatever the path names |
| Discovery.FirstResultWins | internal/pipeline/hostname_enrichment.go:174-253 | In every schedule at most one host is ever sent, no sender blocks, an answer is the host that was sent and some lookup found, and no answer means all finished and all were empty or the parent was cancelled |
| Discovery.EmptyIffAllEmpty | internal/pipeline/hostname_enrichment.go:231-252 | While the parent context lives the answer is empty exactly when every lookup returned empty |
| Discovery.LaunchedOnce | internal/pipeline/hostname_enrichment.go:206-222 | One lookup of each kind that is enabled is launched, NetBIOS for IPv4 only, and none of any other kind |
| Discovery.AnswersComeFromTheEnabled | internal/pipeline/hostname_enrichment.go:174-253 | In every run for an address there is exactly one lookup of each enabled kind; an answered host was returned by one of them, and while the parent lives no host is answered only if every enabled one returned empty |
| Discovery.FirstHostIsEnough | internal/pipeline/hostname_enrichment.go:192-240 | A host one lookup found can be answered while all the others are still looking |
| Discovery.OthersAreStopped | internal/pipeline/hostname_enrichment.go:192-203 | The others are told to stop once one has sent its host and left, or the caller returned |
| Discovery.CancelledParentDropsHosts | internal/pipeline/hostname_enrichment.go:192-203 | Under every configuration and whatever the launched lookups return, some schedule with a cancelled parent answers with no host |
| Discovery.EveryStepCounts | internal/pipeline/hostname_enrichment.go:185-253 | Every step other than cancelling the parent uses up a finite budget |
| Discovery.NeverStuck | internal/pipeline/hostname_enrichment.go:185-253 | Until the caller has returned, a lookup function is running or some step is possible |
| Discovery.SchedulesAreBounded | internal/pipeline/hostname_enrichment.go:185-253 | A schedule takes at most as many steps other than cancelling the parent as the rank of its start |
| Discovery.EveryScheduleAnswers | internal/pipeline/hostname_enrichment.go:185-253 | A schedule with nothing left to do, its lookup functions having returned, has returned an answer |
| Discovery.StartInv | internal/pipeline/hostname_enrichment.go:206-222 | So do the launched lookups, so that the results hold of every schedule from them |
| Discovery.InvStep | internal/pipeline/hostname_enrichment.go:185-253 | Every step keeps: one runner inside the once, a sent host is in the channel or is the answer, and a lost host lost to a sent one or to a cancelled parent |
| KeyValuePattern.LeftmostFirst | internal/pipeline/structured_parser.go:39-42 | The matcher for the default pattern finds a match exactly when the pattern has one at that place, and then the one leftmost-first matching prefers to all others |
| KeyValuePattern.PreferenceIsStrict | internal/pipeline/structured_parser.go:39-42 | No two matches are preferred to each other, so the one found is the only one preferred to all |
| KeyValue.FindAllIsWellFormed | internal/pipeline/structured_parser.go:166 | The matches of the default pattern are ordered, disjoint and inside the line |
| KeyValue.StructuredParser.AssignPair | internal/pipeline/structured_parser.go:183-193 | One match assigns its unquoted pair |
| KeyValue.StructuredParser.ParseKeyValuePairs | internal/pipeline/structured_parser.go:161-210 | Succeeds if and only if there is a match and every character outside the matches is white space; then the fields are those of all pairs in order |
| KeyValue.StructuredParser.Process | internal/pipeline/structured_parser.go:73-141 | Fields already there are kept; otherwise the fields are the pairs of a line that parses and none for one that does not, unless a remembered failure for the same path and first byte skips the line; the verdict is remembered |
| KeyValue.AssignedKeys | internal/pipeline/structured_parser.go:172-194 | Exactly the keys of the pairs are assigned |
| KeyValue.LastWins | internal/pipeline/structured_parser.go:192 | The last pair of a key wins |
| KeyValue.PrintMatches | internal/pipeline/structured_parser.go:40 | The default pattern finds in a printed list exactly one match per item, and behind it what it finds in the rest |
| KeyValue.RoundTrip | internal/pipeline/structured_parser.go:161-210 | Printing items as `key="value"` or `key=value`, in any mixture, and parsing the line gives them back: it parses, the fields are those of the items, and each has the value of the last item of its name |
| KeyValue.ParsedAround | internal/pipeline/structured_parser.go:161-210 | Text without an equals sign around the items makes the line fail exactly if it is not white space |
| KeyValue.PlainTextDoesNotParse | internal/pipeline/structured_parser.go:168-170 | A line without an equals sign does not parse |
| KeyValue.UnquotedExactly | internal/pipeline/structured_parser.go:187-190 | One pair of quotes around a value is taken off, and any other value is kept as it is |
| KeyValue.VerdictIsShared | internal/pipeline/structured_parser.go:82-85 | Lines share a remembered verdict exactly if they are of one source and begin with the same byte, or are both empty |
| KeyValue.LeadByteExactly | internal/pipeline/structured_parser.go:84 | That byte is the first of the UTF-8 encoding of the first rune |
| Paths.WalkNest | internal/pipeline/template_resolver.go:222-247 | A value nested under a path is what the path names |
| Paths.UnresolvableWalk | internal/pipeline/template_resolver.go:228-231 | A path with an empty segment names nothing |
| Paths.WalkOn | internal/pipeline/template_resolver.go:222-247 | Walking a longer path is walking on from its front |
| FieldRewrite.OrderDoesNotMatter | internal/pipeline/field_rewrite.go:28-37 | For independent rewrites every iteration order of the map gives the simultaneous assignment of values read from the original entry |
| FieldRewrite.OrderMatters | internal/pipeline/field_rewrite.go:28-45 | Independence is the exact condition: without it two orders leave some entry with different fields, whether old fields are kept or not |
| FieldRewrite.TargetFields | internal/pipeline/field_rewrite.go:28-37 | Of independent rewrites, in every order, a target gets the value at its path, or keeps the one it had if there is none |
| FieldRewrite.OtherFields | internal/pipeline/field_rewrite.go:39-45 | In every order a field that is no target stays as it is, or goes if old fields are not kept |
| FieldRewrite.Witness | internal/pipeline/field_rewrite.go:28-37 | The entry on which a disturbing rewrite and the disturbed one do not commute |
| FieldRewrite.FieldRewriteStage.Process | internal/pipeline/field_rewrite.go:28-48 | The fields are those of the iteration that happened, restricted to the targets unless old fields are kept; for independent rewrites they are the simultaneous assignment |
| FieldRewrite.FieldRewriteStage.DeleteOthers | internal/pipeline/field_rewrite.go:39-45 | Exactly the fields that are rewrite targets stay |
| TemplateText.ConversionIsExact | internal/pipeline/template_resolver.go:115-120 | Converting placeholders and parsing the result gives what reading the placeholders directly gives, if and only if the text contains no `{{` |
| TemplateText.RenderedIsSubstituted | internal/pipeline/template_resolver.go:115-181 | Such a text renders as direct substitution, `<no value>` standing for missing names |
| TemplateText.ExecutePieces | internal/pipeline/template_resolver.go:173-181 | Executing the pieces of a text substitutes its placeholders |
| TemplateText.PlaceholderExactly | internal/pipeline/template_resolver.go:115-119 | A placeholder is one or more word characters between braces, and nothing else |
| TemplateText.SubstituteOne | internal/pipeline/template_resolver.go:115-181 | The text before a placeholder is kept, the placeholder is replaced by the value of its name or by `<no value>`, and the rest is treated likewise |
| TemplateText.ConvertedRead | internal/pipeline/template_resolver.go:119 | A converted placeholder is parsed back as the index action on its prefixed name, and the rest as before |
| TemplateResolver.RecalledIsCollected | internal/pipeline/template_resolver.go:132-171 | A remembered layout gives an entry of that layout exactly the values of a fresh collection, if and only if no variable has the empty name |
| TemplateResolver.CollectedValue | internal/pipeline/template_resolver.go:137-171 | A fresh collection has exactly the variables of the entry, with their values |
| TemplateResolver.VariablesOfField | internal/pipeline/template_resolver.go:142-154 | If a field of the prefix's name holds an object, the variables are its members |
| TemplateResolver.VariablesOfPath | internal/pipeline/template_resolver.go:188-220 | Else, if the prefix spells with dots a path to an object, perhaps with a dot at its end, they are the members of that object |
| TemplateResolver.VariablesByPrefix | internal/pipeline/template_resolver.go:155-168 | Else they are the fields whose names go on behind the prefix, by what follows it |
| TemplateResolver.RecalledValue | internal/pipeline/template_resolver.go:132-136 | A remembered layout shows exactly those of its variables that the entry has in the same place and that have a name |
| TemplateResolver.ShownExactly | internal/pipeline/template_resolver.go:132-181 | With the variables in the same place, every key a template uses shows the same both ways if and only if each variable of the entry that it uses is remembered and has a name, or prints as missing anyway |
| TemplateResolver.SameLayoutCovers | internal/pipeline/template_resolver.go:132-181 | Equal layouts meet that condition for every template converted from placeholders |
| TemplateResolver.RenderingsAgree | internal/pipeline/template_resolver.go:128-181 | Then both render the same text |
| TemplateResolver.CacheIsInvisible | internal/pipeline/template_resolver.go:89-184 | Over every history in which each entry meets that condition with the earlier ones of its template, and every trimming, each entry comes out as from a stage that remembers nothing |
| TemplateResolver.ServedAlone | internal/pipeline/template_resolver.go:89-184 | With nothing remembered, a template without `{{` is rendered with the entry's variables into the output field and no other field changes; an entry without a template, or with one that is no text, keeps its fields |
| TemplateResolver.SecondIsRecalled | internal/pipeline/template_resolver.go:128-184 | The second entry with a template is rendered with what the layout of the first shows of it |
| TemplateResolver.NewVariableIsLost | internal/pipeline/template_resolver.go:132-136 | A variable the remembering entry did not have prints as missing, where a fresh collection shows its value |
| TemplateResolver.TemplateResolverStage.Process | internal/pipeline/template_resolver.go:89-184 | The stage as a step of that history: missing and non-text templates keep the entry, a parse failure drops it, otherwise the output field is the rendered text |
| TemplateResolver.TemplateResolverStage.Trim | internal/cache/cache.go:104-119 | Trimming either cache keeps only layouts that were there and keeps the stage consistent |
| TemplateResolver.TemplateResolverStage.ReadCached | internal/pipeline/template_resolver.go:132-136 | The cached list reads the value of every variable of its layout by path |
| TemplateResolver.TemplateResolverStage.Collect | internal/pipeline/template_resolver.go:142-170 | Values under an object the prefix leads to, else values of fields with the prefix, each listed with its path |
| Cache.PersistedCache.Set | internal/cache/cache.go:46-50 | One entry is set and no other changes |
| Cache.PersistedCache.Delete | internal/cache/cache.go:52-60 | One entry is gone and no other changes |
| Cache.PersistedCache.Trim | internal/cache/cache.go:110-119 | Exactly the excess is dropped, whichever keys that hits, and what stays is unchanged |
| MostLikely.Transparent | internal/pipeline/timestamp_extraction.go:115-145 | For any stage behind a most-likely cache: over every history of entries that agree pairwise and every trimming, each entry comes out as from a full scan |
| MostLikely.Shows | internal/pipeline/timestamp_extraction.go:115-145 | Agreement is needed: of two entries that do not agree, the second comes out differently after the first |
| MostLikely.KeysAreShared | internal/pipeline/timestamp_extraction.go:112 | Entries share what is remembered exactly if they are of one source and have as many fields, numbers that are no character counting as one |
| TimestampExtraction.FirstFieldReads | internal/pipeline/timestamp_extraction.go:135-145 | A hit is a listed field that holds a text, read under a listed layout |
| TimestampExtraction.FirstFieldExactly | internal/pipeline/timestamp_extraction.go:135-188 | A scan finds nothing only if no listed field reads under any layout, and otherwise the first listed field that does, under the first layout that reads it |
| TimestampExtraction.RecalledExactly | internal/pipeline/timestamp_extraction.go:115-133 | What is taken from an entry by what another one taught: a remembered failure keeps its timestamp; else the remembered field is read, under the remembered layout first and then under all in order; if none reads it the entry is scanned |
| TimestampExtraction.SameHitAgrees | internal/pipeline/timestamp_extraction.go:115-157 | Entries with the same first hit agree; entries without any agree exactly when the later one has a timestamp of its own |
| TimestampExtraction.ExtractsTheSame | internal/pipeline/timestamp_extraction.go:109-157 | Over every history of such entries and every trimming the cached stage gives the timestamp of a full scan, except that an entry without any keeps the zero time exactly when a failure is remembered |
| TimestampExtraction.NamelessHit | internal/pipeline/timestamp_extraction.go:115-120 | A time found in a field with the empty name is remembered as a failure, which agrees with exactly the entries that have the time they are first hit with, or are not hit and have a timestamp |
| TimestampExtraction.ZeroTimeShows | internal/pipeline/timestamp_extraction.go:116-120 | The remembered failure leaves the zero time where a scan sets the current time |
| TimestampExtraction.TimestampExtractionStage.TryParseTimestamp | internal/pipeline/timestamp_extraction.go:159-188 | The remembered layout first, then all layouts in order; the layout that read the text is remembered |
| TimestampExtraction.TimestampExtractionStage.Process | internal/pipeline/timestamp_extraction.go:109-157 | The stage as a step of that history |
| ClientIpExtraction.FirstInReads | internal/pipeline/client_ip_extraction.go:102-114 | A hit is a listed field with a canonical address, marked clean exactly when its text was canonical already |
| ClientIpExtraction.FirstInExactly | internal/pipeline/client_ip_extraction.go:102-114 | A scan finds nothing only if no listed field has an address, and otherwise the address of the first listed field that has one |
| ClientIpExtraction.CanonicalExactly | internal/pipeline/client_ip_extraction.go:138-161 | The address of a text is what its host part, without a port and without blanks around it, is parsed as |
| ClientIpExtraction.RecalledExactly | internal/pipeline/client_ip_extraction.go:83-99 | What is taken from an entry by what another one taught: the remembered field's text or address, and a remembered failure leaves the entry as it is; in any other case it is scanned |
| ClientIpExtraction.FailureIsRemembered | internal/pipeline/client_ip_extraction.go:83-88 | After an entry without an address the next one with the same key keeps its fields, whether or not it has one |
| ClientIpExtraction.SameFieldAgrees | internal/pipeline/client_ip_extraction.go:83-122 | Entries with the same first address field and form agree |
| ClientIpExtraction.ExtractsTheSameIp | internal/pipeline/client_ip_extraction.go:79-122 | Over every history of such entries and every trimming the cached stage leaves the fields a full scan leaves |
| ClientIpExtraction.UncheckedText | internal/pipeline/client_ip_extraction.go:138-161 | After a canonical address the same field of the next entry is taken unparsed; that agrees with a scan exactly when the text is the first address a scan finds, or it finds none, the field is the target, and no other configured field is present |
| ClientIpExtraction.ClientIpExtractionStage.DeleteFields | internal/pipeline/client_ip_extraction.go:164-171 | Exactly the configured fields other than the target are removed |
| ClientIpExtraction.ClientIpExtractionStage.Process | internal/pipeline/client_ip_extraction.go:79-122 | The stage as a step of that history |
| FilePaths.ReadShow | internal/promtailhttp/receiver.go:494 | A cleaned path is read back as the elements it was shown from |
| FilePaths.CleanIsClean | internal/promtailhttp/receiver.go:479 | Cleaning is idempotent |
| FilePaths.ReadJoin | internal/promtailhttp/receiver.go:494 | Names joined below a path are its elements followed by the names |
| FilePaths.RelBelow | internal/promtailhttp/receiver.go:534-541 | What leads from a base to something below it are the names below it |
| FilePaths.DotsAndEmpty | internal/promtailhttp/receiver.go:494 | A slash at the end, a dot, and a name that is left again change nothing |
| FilePaths.UpFromNothing | internal/promtailhttp/receiver.go:494 | Going up from the root stays there, and from the start of a relative path it is kept |
| SourcePath.SanitizeRelativePath | internal/promtailhttp/receiver.go:502-528 | The joined names of a raw path, empty exactly when it has none |
| SourcePath.JoinNames | internal/promtailhttp/receiver.go:527 | Joining names changes nothing |
| SourcePath.NamesIn | internal/promtailhttp/receiver.go:502-528 | Every name is non-empty, not `.` or `..`, and has no slash |
| SourcePath.BelowRoot | internal/promtailhttp/receiver.go:494-499 | Any names joined below any root are the cleaned root's elements followed by the names, and do not escape it |
| SourcePath.PathOf | internal/promtailhttp/receiver.go:478-500 | For every root, candidate and fallback: the cleaned root's elements followed by a non-empty list of names |
| SourcePath.SanitizeSourcePath | internal/promtailhttp/receiver.go:478-500 | Computes that path, and never takes the escape branch |
| SourcePath.SafePathIsKept | internal/promtailhttp/receiver.go:502-528 | A relative path of clean names is kept as it is |
| SourcePath.NamesAreExactly | internal/promtailhttp/receiver.go:502-528 | The names a raw path stands for, exactly: whatever its slashes, a drive before it, and the blanks, empty elements and dots among its names, they are its names in order |
| SourcePath.FiledExactly | internal/promtailhttp/receiver.go:478-500 | So a line is filed below the root by exactly these names, if there are any |
| SourcePath.FiledByFallback | internal/promtailhttp/receiver.go:483-492 | Else by the fallback's names, and by the default name if that has none |
| SourcePath.AbsolutePathIsFiled | internal/promtailhttp/receiver.go:478-512 | An absolute path is filed below the root by its own names |
| SourcePath.EscapesExactly | internal/promtailhttp/receiver.go:530-541 | Every path escapes the root but the root itself and what lies below it |
| PushBatch.FirstLabelIs | internal/promtailhttp/receiver.go:396-400 | The first label in key order that is not blank decides, trimmed |
| PushBatch.AppNameIs | internal/promtailhttp/receiver.go:395-406 | The first of app, service and job that is not blank, trimmed; else the configured default; else the fixed name |
| PushBatch.SourceIs | internal/promtailhttp/receiver.go:408-416 | The first of filename, __path__, path and source that is not blank decides the file, else the stream's number does |
| PushBatch.DecimalReads | internal/promtailhttp/receiver.go:325 | A stream's number is written in decimal without leading zeros |
| PushBatch.NormalizeJSONEntries | internal/promtailhttp/receiver.go:311-374 | Accepts a batch if and only if every stream is well formed, and then gives the entries of all streams in order, values before entries; otherwise it gives the first flaw and nothing else |
| PushBatch.NormalizeStream | internal/promtailhttp/receiver.go:314-371 | The same for one stream |
| PushBatch.NormalizeValues | internal/promtailhttp/receiver.go:327-348 | The same for its values |
| PushBatch.NormalizeEntries | internal/promtailhttp/receiver.go:350-370 | The same for its entries |
| PushBatch.PushedInOrder | internal/promtailhttp/receiver.go:311-374 | A batch that is taken becomes one entry for each of its values and entries, in order, values before entries; each has its own time and line, read from `ts` or else `timestamp`, and the application and file of its stream's labels |
| PushBatch.WellFormedExactly | internal/promtailhttp/receiver.go:314-362 | A stream is taken exactly if it has labels, every value has a time and a line, and every entry has a time |
| PushBatch.FirstFlawIsUnique | internal/promtailhttp/receiver.go:314-362 | A refused batch has exactly one first flaw |
| PushBatch.MemoIsInvisible | internal/promtailhttp/receiver.go:376-393 | Remembering processors changes nothing, whatever processors do, if and only if keys tell the entries apart |
| PushBatch.NulFreeApps | internal/promtailhttp/receiver.go:380 | They do for applications without a NUL, whatever the sources hold |
| PushBatch.NulMixes | internal/promtailhttp/receiver.go:380 | They need not otherwise |
| PushBatch.ProcessEntries | internal/promtailhttp/receiver.go:376-393 | Entries are handled in order up to the first failure, and for entries told apart each by its own processor |
| FileBackend.Conservation | internal/backends/file.go:70-118 | In every schedule of senders and CloseWriter calls each handle ever opened is in exactly one of: mapped and open, held by one sender and open, taken out and open until its pending close, or closed exactly once; writes go to published handles, and are lost only on handles that CloseWriter took out |
| FileBackend.NothingLeaks | internal/backends/file.go:70-118 | Once no sender is in between and no close is pending, the open handles are exactly the mapped ones |
| FileBackend.InvStep | internal/backends/file.go:70-118 | Every step keeps: each handle has exactly one fate, nobody shares an owned handle, and what a sender uses was published for its path |
| FileBackend.EmptyInv | internal/backends/file.go:21-26 | So does a backend without writers, so that conservation holds of every schedule from it |
| FileBackend.WriteAfterClose | internal/backends/file.go:34-68 | A schedule in which CloseWriter closes a handle a sender is about to write to |
| FileBackend.WriterMap.Load | internal/backends/file.go:70-74 | The optimistic lookup as a step of the protocol |
| FileBackend.WriterMap.LoadOrStore | internal/backends/file.go:82-91 | One atomic store: the loser gets the mapped handle and is told to close its own |
| FileBackend.WriterMap.LoadAndDelete | internal/backends/file.go:109-117 | One atomic removal |
| EntryPool.Recycling | internal/processor/log_processor.go:40-79 | In every interleaving of workers, pooled and held entries together are the whole pool, pooled ones are clean, and what the pipeline is given for a line is a function of that line and its arguments |
| EntryPool.EveryLineOnce | internal/processor/log_processor.go:40-79 | In every schedule each line a worker took on was given to the pipeline once or is still waiting for it, and no other line was given |
| EntryPool.OneLine | internal/processor/log_processor.go:40-79 | An idle worker can process a line from any pool that is not empty; then its entry is back in the pool, clean |
| EntryPool.SentExactly | internal/processor/log_processor.go:60-78 | A line is sent exactly if the pipeline keeps it, as what the pipeline made of it, a missing timestamp filled in |
| EntryPool.InvStep | internal/processor/log_processor.go:40-79 | Every step keeps: no entry is shared, pooled entries are clean, and an entry about to enter the pipeline is the one made for its line |
| EntryPool.StartInv | internal/bufferpool/logentrypool.go:28-47 | So does a pre-filled pool with idle workers |
| EntryPool.LogEntryPool.constructor | internal/bufferpool/logentrypool.go:28-47 | Filled with as many clean entries as its size |
| EntryPool.LogEntryPool.Acquire | internal/bufferpool/logentrypool.go:51-54 | The first pooled entry, clean and shared with nobody, moves to the held ones |
| EntryPool.LogEntryPool.Release | internal/bufferpool/logentrypool.go:58-69 | The entry loses fields, timestamp and application and moves back; its line and source path stay |
| EntryPool.LogEntryPool.AdjustFieldSize | internal/bufferpool/logentrypool.go:142-162 | No field is left, and a non-zero field count is reported once |
| EntryPool.Deliver | internal/processor/log_processor.go:47-78 | What is sent for a clean entry depends on the arguments alone |
| EntryPool.ProcessLine | internal/processor/log_processor.go:40-79 | What reaches the backend is a function of the arguments, whatever the entry was used for before, and the pool is as full as before |

## Left out

- Delivery.Guarantees: assumes whole-line appends to one inode, one tailer per process, and stats that succeed and report an inode, because the code counts unterminated tails as lines and keeps its count when it starts over; Delivery.CountIsPosition, Delivery.RecognisedExactly and TailLog.DeliveriesVersusNewlines say exactly what happens otherwise.
- EntryPool.Recycling: assumes that only acquired entries are released, as every caller of the pool does.
- KeyValue.StructuredParser.Process: leaves out hit and miss counts, and the branch for patterns with named groups.
- FileBackend.Conservation: covers the time before the backend's shutdown, which closes mapped handles without taking them out.
- Tailing from the end or from a byte offset: `tailFile` only ever seeks from the start. Seeks do not fail.
- TailFile.Restarts: assumes that a file is modified only by appends, so that its size determines its modification time, and an inode number other than 0, which the state file uses for none.
- Bytes that `ReadLine` returns are copies here, not slices of the reader's buffer.
- Runs are observed for a bounded number of reads and file sizes, both arbitrary, so that every method terminates. Nothing is claimed about progress.
- A truncation followed by regrowth past the old position between two polls, and several rotations between polls: the code cannot see them, and no delivery is claimed for them.
- A rotation or truncation within a run in `Delivery`: the count is not reset there, so count-based resume is claimed for one inode that only grows. Between two processes it is a step (`Delivery.ReplacedIsReadFromItsStart`).
- Widths of integers: line numbers and sizes are unbounded, and a field count is taken as it is up to the largest code point, then as the replacement character.
- Directory walks, file events and ignore patterns: any discover, remove or rename step may happen at any time, and the ignore pattern is an arbitrary predicate.
- The lookups behind active discovery are arbitrary functions. The hostname and hardware-address caches and the refresh loop of that stage are not part of this model.
- Patterns of the structured parser with named groups; other unnamed patterns enter as match lists that keep the contract of the regexp package, with both groups taking part in each match.
- Lines and templates that are not valid UTF-8.
- General Go templates: anything but literal text and `index` actions on plain keys reads as a parse failure.
- Hash collisions: template caches are keyed by the text itself.
- Hit and miss counters, persistence of caches, and the race inside `manage` between measuring a cache and listing its keys.
- A nil field map in a released or parsed entry is an empty one.
- The recommended map size that `manageFieldCount` computes only changes capacities.
- Serving, authorisation, decompression and decoding of pushes; label, timestamp and line decoding are arbitrary partial functions. Protobuf streams, which skip the per-item checks.
- Symbolic links and volume names: paths are lexical and slash-separated.
- What `Send` writes: writes are steps on handles. Shutdown of the backend, the Loki backend, filter rules, GeoIP, configuration and logging.
