/** What a run of reads in the disk's transcript says. */
module Transcript {
  import opened Lines
  import opened Wrappers
  import opened FileSystem

  /** The bytes served, concatenated. */
  function BytesOf(got: seq<Answer>): seq<byte> {
    if got == [] then []
    else
      var a := got[|got| - 1];
      BytesOf(got[..|got| - 1]) + if a.Served? then a.bytes else []
  }

  /** Reads of one file that all gave bytes, each from where the one before ended. */
  predicate OnlyBytes(inode: nat, at: nat, got: seq<Answer>) {
    got == [] ||
    (var front, a := got[..|got| - 1], got[|got| - 1];
     OnlyBytes(inode, at, front) && a.Served? && a.inode == inode && a.at == at + |BytesOf(front)|)
  }

  function EndOf(inode: nat, at: nat, error: IOError): Answer {
    if error == EOF then EndOfFile(inode, at) else ReadFailure
  }

  /** Consecutive reads of one file from an offset on that gave bytes, but for the last one if
      they came to an end there. */
  predicate Reading(inode: nat, at: nat, got: seq<Answer>, end: Option<IOError>) {
    match end
    case None => OnlyBytes(inode, at, got)
    case Some(e) =>
      got != [] &&
      var front := got[..|got| - 1];
      OnlyBytes(inode, at, front) && got[|got| - 1] == EndOf(inode, at + |BytesOf(front)|, e) && e != NotExist
  }

  /** The reads that gave nothing. */
  function Ends(answers: seq<Answer>): nat {
    if answers == [] then 0
    else
      var a := answers[|answers| - 1];
      Ends(answers[..|answers| - 1]) + if a.EndOfFile? || a.ReadFailure? then 1 else 0
  }

  lemma {:induction false} BytesAppend(a: seq<Answer>, b: seq<Answer>)
    ensures BytesOf(a + b) == BytesOf(a) + BytesOf(b)
    decreases |b|
  {
    if b == [] {
      assert a + b == a;
    } else {
      var front := b[..|b| - 1];
      assert (a + b)[..|a + b| - 1] == a + front;
      BytesAppend(a, front);
    }
  }

  lemma {:induction false} EndsAppend(a: seq<Answer>, b: seq<Answer>)
    ensures Ends(a + b) == Ends(a) + Ends(b)
    decreases |b|
  {
    if b == [] {
      assert a + b == a;
    } else {
      var front := b[..|b| - 1];
      assert (a + b)[..|a + b| - 1] == a + front;
      EndsAppend(a, front);
    }
  }

  lemma EndsExactly(a: Answer)
    ensures Ends([]) == 0 && Ends([a]) == if a.EndOfFile? || a == ReadFailure then 1 else 0
  {
    assert [a][..0] == [];
  }

  lemma OneRead(inode: nat, at: nat, a: Answer)
    ensures BytesOf([a]) == if a.Served? then a.bytes else []
    ensures a.Served? && a.inode == inode && a.at == at ==> Reading(inode, at, [a], None)
    ensures a == EndOfFile(inode, at) ==> Reading(inode, at, [a], Some(EOF))
    ensures a == ReadFailure ==> Reading(inode, at, [a], Some(Failed))
  {
    assert [a][..0] == [];
  }

  lemma EndGivesNothing(inode: nat, at: nat, a: Answer, error: IOError)
    requires Reading(inode, at, [a], Some(error))
    ensures BytesOf([a]) == []
  {
    assert [a][..0] == [];
  }

  lemma {:induction false} BytesDoNotFail(inode: nat, at: nat, got: seq<Answer>)
    requires OnlyBytes(inode, at, got)
    ensures ReadFailure !in got
    decreases |got|
  {
    if got != [] {
      BytesDoNotFail(inode, at, got[..|got| - 1]);
      assert got == got[..|got| - 1] + [got[|got| - 1]];
    }
  }

  /** A failure is the last of its reads. */
  lemma FailureIsLast(inode: nat, at: nat, got: seq<Answer>, end: Option<IOError>)
    requires Reading(inode, at, got, end)
    ensures ReadFailure in got <==> end == Some(Failed)
  {
    if end.Some? {
      assert got == got[..|got| - 1] + [got[|got| - 1]];
      BytesDoNotFail(inode, at, got[..|got| - 1]);
    } else {
      BytesDoNotFail(inode, at, got);
    }
  }

  lemma NoReads(inode: nat, at: nat)
    ensures Reading(inode, at, [], None) && BytesOf([]) == [] && Ends([]) == 0
  {
  }

  lemma {:induction false} BytesOnward(inode: nat, at: nat, a: seq<Answer>, b: seq<Answer>)
    requires OnlyBytes(inode, at, a) && OnlyBytes(inode, at + |BytesOf(a)|, b)
    ensures OnlyBytes(inode, at, a + b)
    decreases |b|
  {
    if b == [] {
      assert a + b == a;
    } else {
      var front := b[..|b| - 1];
      BytesOnward(inode, at, a, front);
      BytesAppend(a, front);
      assert (a + b)[..|a + b| - 1] == a + front;
    }
  }

  /** Reading on after reads that gave bytes, from where they ended. */
  lemma ReadOnward(inode: nat, at: nat, a: seq<Answer>, b: seq<Answer>, end: Option<IOError>)
    requires Reading(inode, at, a, None) && Reading(inode, at + |BytesOf(a)|, b, end)
    ensures Reading(inode, at, a + b, end) && BytesOf(a + b) == BytesOf(a) + BytesOf(b)
  {
    BytesAppend(a, b);
    if end.Some? {
      var front := b[..|b| - 1];
      BytesOnward(inode, at, a, front);
      BytesAppend(a, front);
      assert (a + b)[..|a + b| - 1] == a + front;
    } else {
      BytesOnward(inode, at, a, b);
    }
  }

  /** An end is a read that gave nothing. */
  lemma EndsOfReading(inode: nat, at: nat, got: seq<Answer>, end: Option<IOError>)
    requires Reading(inode, at, got, end)
    ensures end.Some? ==> Ends(got) > 0
  {
  }
}
