/** The disk as the tailer sees it: inodes, what the watched path names, and other
    processes that change both between any two system calls. */
module FileSystem {
  import opened Lines
  import opened Wrappers

  /** What the observed run may assume of the disk and of other processes. With none of the
      four, files and the path change in any way and every system call may fail. */
  datatype Law = Law(
    grows: bool,     // files only grow
    stays: bool,     // the path stays on its inode
    whole: bool,     // every file is empty or ends in a newline, at any time
    reliable: bool)  // reads do not fail
  {
    /** What is delivered is cut at newlines only. */
    predicate CutsAtLines() {
      grows && whole && reliable
    }
  }

  datatype IOError = EOF | NotExist | Failed

  type Inodes = map<nat, seq<byte>>

  /** What the disk answered to a system call. Of an open file that is statted the whole
      content at that moment is recorded. */
  datatype Answer =
    | Opened(r: Result<nat, IOError>)
    | OpenFile(inode: nat, content: Result<seq<byte>, IOError>)
    | AtPath(r: Result<nat, IOError>)
    | Served(inode: nat, at: nat, bytes: seq<byte>)  // by a read, at this offset
    | EndOfFile(inode: nat, at: nat)
    | ReadFailure

  predicate Evolves(law: Law, before: Inodes, after: Inodes) {
    && before.Keys <= after.Keys
    && (law.grows ==> forall i <- before :: before[i] <= after[i])
  }

  predicate Admits(law: Law, limit: nat, inodes: Inodes, path: Option<nat>) {
    && (path.Some? ==> path.value in inodes)
    && (law.stays ==> path.Some?)
    && (forall i <- inodes :: |inodes[i]| <= limit)
    && (law.whole ==> forall i <- inodes :: WholeLines(inodes[i]))
  }

  /** While files only grow, a content that was reported is still a front of the file. */
  predicate StillThere(inodes: Inodes, a: Answer) {
    a.OpenFile? && a.content.Success? ==> a.inode in inodes && a.content.value <= inodes[a.inode]
  }

  predicate Honest(law: Law, inodes: Inodes, answers: seq<Answer>) {
    law.grows ==> forall a <- answers :: StillThere(inodes, a)
  }

  lemma HonestStill(law: Law, before: Inodes, after: Inodes, answers: seq<Answer>)
    requires Evolves(law, before, after) && Honest(law, before, answers)
    ensures Honest(law, after, answers)
  {
    if law.grows {
      forall a <- answers
        ensures StillThere(after, a)
      {
        assert StillThere(before, a);
      }
    }
  }

  lemma HonestMore(law: Law, inodes: Inodes, answers: seq<Answer>, a: Answer)
    requires Honest(law, inodes, answers) && StillThere(inodes, a)
    ensures Honest(law, inodes, answers + [a])
  {
  }

  lemma EvolvesAt(law: Law, before: Inodes, after: Inodes, inode: nat)
    requires Evolves(law, before, after) && inode in before
    ensures inode in after && (law.grows ==> before[inode] <= after[inode])
  {
  }

  lemma EvolvesSame(law: Law, a: Inodes)
    ensures Evolves(law, a, a)
  {
  }

  lemma EvolvesOn(law: Law, a: Inodes, b: Inodes, c: Inodes)
    requires Evolves(law, a, b) && Evolves(law, b, c)
    ensures Evolves(law, a, c)
  {
  }

  class File {
    const inode: nat
    var offset: nat

    constructor (inode: nat)
      ensures this.inode == inode && offset == 0
    {
      this.inode := inode;
      offset := 0;
    }
  }

  datatype Info = Info(inode: nat, size: nat)

  class Disk {
    const law: Law
    const limit: nat  // arbitrary bound on file sizes within the observed run
    var inodes: Inodes
    var path: Option<nat>
    ghost var answers: seq<Answer>  // to all system calls so far, in order

    ghost predicate Valid()
      reads this
    {
      Admits(law, limit, inodes, path) && Honest(law, inodes, answers)
    }

    /** Anything the law allows happens. */
    method Interfere()
      requires Valid()
      modifies this`inodes, this`path
      ensures Valid() && Evolves(law, old(inodes), inodes)
      ensures law.stays ==> path == old(path)
    {
      var inodes': Inodes := *;
      var path': Option<nat> := *;
      if Evolves(law, inodes, inodes') && Admits(law, limit, inodes', path')
         && (!law.stays || path' == path) {
        HonestStill(law, inodes, inodes', answers);
        inodes, path := inodes', path';
      }
    }

    ghost method Record(a: Answer)
      requires Valid() && StillThere(inodes, a)
      modifies this`answers
      ensures Valid() && answers == old(answers) + [a]
    {
      HonestMore(law, inodes, answers, a);
      answers := answers + [a];
    }

    method Open() returns (r: Result<File, IOError>)
      requires Valid()
      modifies this
      ensures Valid() && Evolves(law, old(inodes), inodes)
      ensures law.stays ==> path == old(path) && r != Failure(NotExist)
      ensures r.Success? ==>
                fresh(r.value) && r.value.offset == 0 &&
                path == Some(r.value.inode) && r.value.inode in inodes
      ensures answers == old(answers) + [Opened(if r.Success? then Success(r.value.inode) else Failure(r.error))]
    {
      Interfere();
      var fails: bool := *;
      if fails {
        r := Failure(Failed);
      } else if path.None? {
        r := Failure(NotExist);
      } else {
        var f := new File(path.value);
        r := Success(f);
      }
      Record(Opened(if r.Success? then Success(r.value.inode) else Failure(r.error)));
    }

    method StatPath() returns (r: Result<Info, IOError>)
      requires Valid()
      modifies this
      ensures Valid() && Evolves(law, old(inodes), inodes)
      ensures law.stays ==> path == old(path) && r != Failure(NotExist)
      ensures r.Success? ==> path == Some(r.value.inode)
      ensures answers == old(answers) + [AtPath(if r.Success? then Success(r.value.inode) else Failure(r.error))]
    {
      Interfere();
      var fails: bool := *;
      if fails {
        r := Failure(Failed);
      } else if path.None? {
        r := Failure(NotExist);
      } else {
        r := Success(Info(path.value, |inodes[path.value]|));
      }
      Record(AtPath(if r.Success? then Success(r.value.inode) else Failure(r.error)));
    }

    method StatFile(f: File) returns (r: Result<Info, IOError>)
      requires Valid() && f.inode in inodes
      modifies this
      ensures Valid() && Evolves(law, old(inodes), inodes) && f.inode in inodes
      ensures law.stays ==> path == old(path) && r != Failure(NotExist)
      ensures r.Success? ==> r.value == Info(f.inode, |inodes[f.inode]|)
      ensures answers == old(answers)
                         + [OpenFile(f.inode, if r.Success? then Success(inodes[f.inode]) else Failure(r.error))]
    {
      Interfere();
      var error: Option<IOError> := *;
      if error == Some(Failed) || (error == Some(NotExist) && !law.stays) {
        r := Failure(error.value);
      } else {
        r := Success(Info(f.inode, |inodes[f.inode]|));
      }
      Record(OpenFile(f.inode, if r.Success? then Success(inodes[f.inode]) else Failure(r.error)));
    }

    /** One read system call into `p[lo..]`: at least one byte, any shorter count than
        asked for, end of file, or a failure unless reads are reliable. */
    method Read(f: File, p: array<byte>, lo: nat) returns (n: nat, err: Option<IOError>)
      requires Valid() && f.inode in inodes && lo < p.Length
      modifies this, f, p
      ensures Valid() && Evolves(law, old(inodes), inodes) && f.inode in inodes
      ensures law.stays ==> path == old(path)
      ensures lo + n <= p.Length && f.offset == old(f.offset) + n
      ensures forall i :: 0 <= i < lo ==> p[i] == old(p[i])
      ensures n == 0 <==> err.Some?
      ensures n > 0 ==> f.offset <= |inodes[f.inode]| <= limit && p[lo..lo + n] == inodes[f.inode][old(f.offset)..f.offset]
      ensures err.Some? ==> err.value == EOF || (err.value == Failed && !law.reliable)
      ensures err == Some(EOF) ==> |inodes[f.inode]| <= f.offset
      ensures answers == old(answers) + [if err.None? then Served(f.inode, old(f.offset), p[lo..lo + n])
                                         else if err == Some(EOF) then EndOfFile(f.inode, f.offset) else ReadFailure]
    {
      Interfere();
      var content, offset := inodes[f.inode], f.offset;
      var fails: bool := *;
      if fails && !law.reliable {
        n, err := 0, Some(Failed);
      } else if |content| <= f.offset {
        n, err := 0, Some(EOF);
      } else {
        var most := if |content| - f.offset < p.Length - lo then |content| - f.offset else p.Length - lo;
        n := *;
        if !(1 <= n <= most) { n := most; }
        err := None;
        forall i | 0 <= i < n { p[lo + i] := content[f.offset + i]; }
        f.offset := f.offset + n;
      }
      Record(if err.None? then Served(f.inode, offset, p[lo..lo + n])
             else if err == Some(EOF) then EndOfFile(f.inode, offset) else ReadFailure);
    }
  }
}
