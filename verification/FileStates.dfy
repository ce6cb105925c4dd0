/** The persisted per-file counter with its identity metadata, and the decision whether a
    tailer may resume from it. */
module FileStates {
  import opened Wrappers

  /** What a stat of the path reports. `inode` is missing where the platform has none. */
  datatype Stat = Stat(inode: Option<nat>, size: nat, modified: int)

  /** A snapshot of one file's state, as written to the state file. */
  datatype Saved = Saved(lineNumber: nat, inode: nat, fileSize: nat, lastModified: int)

  const FRESH := Saved(0, 0, 0, 0)

  /** What graceful shutdown records for a file: its metadata, or none if stat failed. */
  function Stamped(s: Saved, stat: Option<Stat>): Saved {
    match stat
    case None => s.(fileSize := 0, lastModified := 0, inode := 0)
    case Some(info) =>
      s.(fileSize := info.size, lastModified := info.modified,
         inode := if info.inode.Some? then info.inode.value else s.inode)
  }

  /** The evidence that the path still names the file the count was taken on. */
  predicate SameFile(s: Saved, info: Stat) {
    if info.inode.Some? && s.inode != 0 then
      && info.inode.value == s.inode
      && s.fileSize <= info.size
      && (0 < s.fileSize == info.size && 0 < s.lastModified ==> info.modified == s.lastModified)
    else
      && s.fileSize != 0 && s.lastModified != 0
      && info.size == s.fileSize && info.modified == s.lastModified
  }

  function Match(s: Saved, stat: Option<Stat>): Option<nat> {
    if stat.Some? && SameFile(s, stat.value) then Some(s.lineNumber) else None
  }

  /** The number of lines a new tailer skips. */
  function Skip(s: Saved, stat: Option<Stat>): nat {
    if s.lineNumber > 0 && Match(s, stat).Some? then Match(s, stat).value else 0
  }

  /** The count is taken over exactly when nothing was counted or the file is recognised. */
  predicate Resumable(s: Saved, stat: Option<Stat>) {
    s.lineNumber == 0 || Match(s, stat).Some?
  }

  lemma SkipIsCount(s: Saved, stat: Option<Stat>)
    ensures Skip(s, stat) == s.lineNumber <==> Resumable(s, stat)
    ensures !Resumable(s, stat) ==> Skip(s, stat) == 0
  {
  }

  /** When a file is read from its start although lines of it were counted. Where both sides know
      an inode: another one, a file shorter than at the stamp, or one of the same positive size
      and another positive time. Otherwise: anything but the same positive size and time. */
  lemma RefusedExactly(s: Saved, stat: Option<Stat>)
    requires s.lineNumber > 0
    ensures Skip(s, stat) == 0 || Skip(s, stat) == s.lineNumber
    ensures Skip(s, stat) == 0 <==>
            stat.None? ||
            var info := stat.value;
            if info.inode.Some? && s.inode > 0 then
              || info.inode.value != s.inode
              || info.size < s.fileSize
              || (info.size == s.fileSize > 0 && s.lastModified > 0 && info.modified != s.lastModified)
            else
              s.fileSize == 0 || info.size != s.fileSize || s.lastModified == 0 || info.modified != s.lastModified
  {
  }

  class FileState {
    var lineNumber: nat
    var inode: nat
    var fileSize: nat
    var lastModified: int

    function Value(): Saved
      reads this
    {
      Saved(lineNumber, inode, fileSize, lastModified)
    }

    constructor ()
      ensures Value() == FRESH
    {
      lineNumber, inode, fileSize, lastModified := 0, 0, 0, 0;
    }

    method IncrementLineNumber()
      modifies this
      ensures Value() == old(Value()).(lineNumber := old(lineNumber) + 1)
    {
      lineNumber := lineNumber + 1;
    }

    /** Any number of lines counted in a row. */
    method CountMore(n: nat)
      modifies this
      ensures Value() == old(Value()).(lineNumber := old(lineNumber) + n)
    {
      for i := 0 to n
        invariant Value() == old(Value()).(lineNumber := old(lineNumber) + i)
      {
        IncrementLineNumber();
      }
    }

    method UpdateMetadata(stat: Option<Stat>)
      modifies this
      ensures Value() == Stamped(old(Value()), stat) && lineNumber == old(lineNumber)
      ensures stat.None? ==> fileSize == 0 && lastModified == 0 && inode == 0
      ensures stat.Some? ==>
                && fileSize == stat.value.size && lastModified == stat.value.modified
                && inode == if stat.value.inode.Some? then stat.value.inode.value else old(inode)
    {
      if stat.None? {
        fileSize, lastModified, inode := 0, 0, 0;
        return;
      }
      fileSize := stat.value.size;
      lastModified := stat.value.modified;
      if stat.value.inode.Some? {
        inode := stat.value.inode.value;
      }
    }

    /** The line to resume after and whether the file was recognised. */
    method FindMatchingPosition(stat: Option<Stat>) returns (line: nat, found: bool)
      ensures found <==> Match(Value(), stat).Some?
      ensures line == if found then lineNumber else 0
    {
      if stat.None? {
        return 0, false;
      }
      var info := stat.value;
      var inodeSupported := info.inode.Some?;
      if inodeSupported && inode != 0 && info.inode.value != inode {
        return 0, false;
      }
      if inodeSupported && inode != 0 && info.inode.value == inode {
        if info.size < fileSize {
          return 0, false;
        }
        if fileSize > 0 && info.size == fileSize && lastModified > 0 && info.modified != lastModified {
          return 0, false;
        }
        return lineNumber, true;
      }
      if fileSize == 0 || lastModified == 0 {
        return 0, false;
      }
      if info.size == fileSize && info.modified == lastModified {
        return lineNumber, true;
      }
      return 0, false;
    }

    /** The resume decision of a starting tailer. */
    method ResumeOffset(stat: Option<Stat>) returns (offset: nat)
      ensures offset == Skip(Value(), stat)
    {
      offset := 0;
      if lineNumber > 0 {
        var matchedLine, found := FindMatchingPosition(stat);
        if found {
          offset := matchedLine;
        }
      }
    }
  }

  /** All file states of the process, by path. */
  class AppState {
    var files: map<string, FileState>

    ghost predicate Valid()
      reads this
    {
      forall p, q | p in files && q in files && p != q :: files[p] != files[q]
    }

    ghost function Values(): map<string, Saved>
      reads this, files.Values
    {
      map p | p in files :: files[p].Value()
    }

    constructor ()
      ensures Valid() && files == map[]
    {
      files := map[];
    }

    method GetOrCreateFileState(path: string) returns (state: FileState)
      requires Valid()
      modifies this
      ensures Valid() && path in files && files[path] == state
      ensures path in old(files) ==> files == old(files)
      ensures path !in old(files) ==> fresh(state) && Values() == old(Values())[path := FRESH]
    {
      if path !in files {
        state := new FileState();
        files := files[path := state];
      } else {
        state := files[path];
      }
    }

    /** Stamps every file in any order, each from its own stat. */
    method UpdateAllFileMetadata(stat: string -> Option<Stat>)
      requires Valid()
      modifies files.Values
      ensures Valid() && files == old(files)
      ensures Values() == map p | p in files :: Stamped(old(files[p].Value()), stat(p))
    {
      var todo := files.Keys;
      while todo != {}
        invariant todo <= files.Keys
        invariant forall p | p in files ::
                    files[p].Value() == if p in todo then old(files[p].Value()) else Stamped(old(files[p].Value()), stat(p))
        decreases todo
      {
        var path :| path in todo;
        files[path].UpdateMetadata(stat(path));
        todo := todo - {path};
      }
    }

    /** Consumers count lines meanwhile; the metadata is not theirs to change. */
    ghost predicate OnlyCounted(before: map<string, Saved>)
      reads this, files.Values
    {
      && files.Keys == before.Keys
      && forall p | p in files ::
           files[p].Value() == before[p].(lineNumber := files[p].lineNumber) && before[p].lineNumber <= files[p].lineNumber
    }

    method OthersCount(ghost before: map<string, Saved>)
      requires Valid() && OnlyCounted(before)
      modifies files.Values
      ensures Valid() && OnlyCounted(before) && OnlyCounted(old(Values()))
    {
      var todo := files.Keys;
      while todo != {}
        invariant todo <= files.Keys && Valid() && OnlyCounted(before) && OnlyCounted(old(Values()))
      {
        var path :| path in todo;
        var counted: int := *;
        files[path].CountMore(if counted < 0 then 0 else counted);
        todo := todo - {path};
      }
    }

    /** The files are copied one by one while lines are counted. Each copy is a value the
        file's state had during the snapshot: a count between those at its beginning and its
        end, and the metadata. */
    method SnapshotState() returns (snapshot: map<string, Saved>)
      requires Valid()
      modifies files.Values
      ensures Valid() && files == old(files) && OnlyCounted(old(Values()))
      ensures snapshot.Keys == files.Keys
      ensures forall p | p in files ::
                snapshot[p] == old(Values())[p].(lineNumber := snapshot[p].lineNumber) &&
                old(Values())[p].lineNumber <= snapshot[p].lineNumber <= files[p].lineNumber
    {
      ghost var before := Values();
      var todo := files.Keys;
      snapshot := map[];
      while todo != {}
        invariant Valid() && OnlyCounted(before) && todo <= files.Keys && snapshot.Keys == files.Keys - todo
        invariant forall p | p in snapshot ::
                    snapshot[p] == before[p].(lineNumber := snapshot[p].lineNumber) &&
                    before[p].lineNumber <= snapshot[p].lineNumber <= files[p].lineNumber
      {
        OthersCount(before);
        var path :| path in todo;
        snapshot := snapshot[path := files[path].Value()];
        todo := todo - {path};
      }
    }
  }
}
