/** The file backend's writers: concurrent senders race to open one handle per path while
    CloseWriter takes handles out again. */
module FileBackend {
  import opened Wrappers

  datatype Handle = Handle(path: string, closes: nat)

  /** Where one Send is. */
  datatype Sender =
    | Loading(path: string)
    | Missed(path: string)                                     // no writer; about to create one
    | Created(path: string, handle: nat)                       // about to LoadOrStore
    | Redundant(path: string, handle: nat, actual: nat)        // lost the race; about to close its own
    | Using(path: string, handle: nat)                         // about to write
    | Finished

  datatype State = State(
    handles: seq<Handle>,     // every handle ever opened
    writers: map<string, nat>,
    senders: seq<Sender>,
    removed: multiset<nat>,   // taken out by CloseWriter calls that have not closed them yet
    retired: set<nat>,        // ever taken out by CloseWriter
    lost: set<nat>)           // handles that were written to after they were closed

  const EMPTY := State([], map[], [], multiset{}, {}, {})

  datatype Step =
    | Send(path: string)
    | Load(i: nat)
    | Create(i: nat, ok: bool)
    | LoadOrStore(i: nat)
    | CloseRedundant(i: nat)
    | Write(i: nat)
    | LoadAndDelete(path: string)   // CloseWriter, first half
    | CloseRemoved(h: nat)          // CloseWriter, second half

  predicate Enabled(s: State, step: Step) {
    match step
    case Send(_) => true
    case Load(i) => i < |s.senders| && s.senders[i].Loading?
    case Create(i, _) => i < |s.senders| && s.senders[i].Missed?
    case LoadOrStore(i) => i < |s.senders| && s.senders[i].Created?
    case CloseRedundant(i) => i < |s.senders| && s.senders[i].Redundant? && s.senders[i].handle < |s.handles|
    case Write(i) => i < |s.senders| && s.senders[i].Using? && s.senders[i].handle < |s.handles|
    case LoadAndDelete(_) => true
    case CloseRemoved(h) => h in s.removed && h < |s.handles|
  }

  function Close(s: State, h: nat): State
    requires h < |s.handles|
  {
    s.(handles := s.handles[h := s.handles[h].(closes := s.handles[h].closes + 1)])
  }

  function Move(s: State, i: nat, sender: Sender): State
    requires i < |s.senders|
  {
    s.(senders := s.senders[i := sender])
  }

  function Apply(s: State, step: Step): State
    requires Enabled(s, step)
  {
    match step
    case Send(path) => s.(senders := s.senders + [Loading(path)])
    case Load(i) =>
      var path := s.senders[i].path;
      Move(s, i, if path in s.writers then Using(path, s.writers[path]) else Missed(path))
    case Create(i, ok) =>
      var path := s.senders[i].path;
      if ok then Move(s, i, Created(path, |s.handles|)).(handles := s.handles + [Handle(path, 0)])
      else Move(s, i, Finished)
    case LoadOrStore(i) =>
      var path, h := s.senders[i].path, s.senders[i].handle;
      if path in s.writers then Move(s, i, Redundant(path, h, s.writers[path]))
      else Move(s, i, Using(path, h)).(writers := s.writers[path := h])
    case CloseRedundant(i) =>
      Close(Move(s, i, Using(s.senders[i].path, s.senders[i].actual)), s.senders[i].handle)
    case Write(i) =>
      var h := s.senders[i].handle;
      Move(s, i, Finished).(lost := if s.handles[h].closes > 0 then s.lost + {h} else s.lost)
    case LoadAndDelete(path) =>
      if path !in s.writers then s
      else
        var h := s.writers[path];
        s.(writers := s.writers - {path}, removed := s.removed + multiset{h}, retired := s.retired + {h})
    case CloseRemoved(h) => Close(s, h).(removed := s.removed - multiset{h})
  }

  predicate Runs(s: State, steps: seq<Step>)
    decreases |steps|
  {
    steps == [] || (Enabled(s, steps[0]) && Runs(Apply(s, steps[0]), steps[1..]))
  }

  function After(s: State, steps: seq<Step>): State
    requires Runs(s, steps)
    decreases |steps|
  {
    if steps == [] then s else After(Apply(s, steps[0]), steps[1..])
  }

  // ---------- the invariant ----------

  predicate IsHandle(s: State, h: nat, path: string) {
    h < |s.handles| && s.handles[h].path == path
  }

  predicate Mapped(s: State, h: nat) {
    h < |s.handles| && s.handles[h].path in s.writers && s.writers[s.handles[h].path] == h
  }

  predicate Owns(sender: Sender, h: nat) {
    (sender.Created? || sender.Redundant?) && sender.handle == h
  }

  /** Some sender holds the handle between creating and storing it, or before closing it. */
  predicate Owned(s: State, h: nat) {
    exists i :: 0 <= i < |s.senders| && Owns(s.senders[i], h)
  }

  predicate Published(s: State, h: nat, path: string) {
    IsHandle(s, h, path) && (Mapped(s, h) || h in s.retired) && !Owned(s, h)
  }

  predicate SenderInv(s: State, sender: Sender) {
    match sender
    case Created(path, h) => IsHandle(s, h, path) && h !in s.retired
    case Redundant(path, h, actual) => IsHandle(s, h, path) && h !in s.retired && Published(s, actual, path)
    case Using(path, h) => Published(s, h, path)
    case _ => true
  }

  ghost predicate MapInv(s: State) {
    && (forall path <- s.writers :: IsHandle(s, s.writers[path], path))
    && (forall h: nat | h in s.removed || h in s.retired :: h < |s.handles|)
    && (forall h: nat :: s.removed[h] <= 1 && (h in s.removed ==> h in s.retired))
    && s.lost <= s.retired
  }

  ghost predicate OwnedOnce(s: State) {
    forall i, j, h: nat | 0 <= i < j < |s.senders| && Owns(s.senders[i], h) :: !Owns(s.senders[j], h)
  }

  /** A handle is open exactly when it is in one of three places, and closed once otherwise. */
  predicate Fate(s: State, h: nat)
    requires h < |s.handles|
  {
    && s.handles[h].closes <= 1
    && (s.handles[h].closes == 0 <==> Mapped(s, h) || Owned(s, h) || h in s.removed)
    && !(Mapped(s, h) && Owned(s, h)) && !(Mapped(s, h) && h in s.removed) && !(Owned(s, h) && h in s.removed)
    && (h in s.retired ==> !Mapped(s, h) && !Owned(s, h))
  }

  ghost predicate Inv(s: State) {
    && MapInv(s) && OwnedOnce(s)
    && (forall i :: 0 <= i < |s.senders| ==> SenderInv(s, s.senders[i]))
    && (forall h: nat | h < |s.handles| :: Fate(s, h))
  }

  lemma EmptyInv()
    ensures Inv(EMPTY)
  {
  }

  /** Who owns what after one sender has moved. */
  lemma MoveOwned(s: State, i: nat, sender: Sender, h: nat)
    requires i < |s.senders| && OwnedOnce(s)
    ensures Owned(Move(s, i, sender), h) <==>
              Owns(sender, h) || (Owned(s, h) && !Owns(s.senders[i], h))
  {
    var s' := Move(s, i, sender);
    if Owned(s, h) && !Owns(s.senders[i], h) {
      var j :| 0 <= j < |s.senders| && Owns(s.senders[j], h);
      assert s'.senders[j] == s.senders[j];
    }
    if Owned(s', h) && !Owns(sender, h) {
      var j :| 0 <= j < |s'.senders| && Owns(s'.senders[j], h);
      assert s.senders[j] == s'.senders[j];
      assert j != i;
    }
    if Owns(sender, h) {
      assert s'.senders[i] == sender;
    }
  }

  /** A sender that owned nothing and owns nothing moves. */
  lemma FreeMove(s: State, i: nat, sender: Sender)
    requires Inv(s) && i < |s.senders| && SenderInv(s, sender)
    requires forall h: nat :: !Owns(s.senders[i], h) && !Owns(sender, h)
    ensures Inv(Move(s, i, sender))
  {
    var s' := Move(s, i, sender);
    hide Owned;
    forall h: nat
      ensures Owned(s', h) <==> Owned(s, h)
    {
      MoveOwned(s, i, sender, h);
    }
    Preserved(s, s', i);
  }

  /** One step keeps the invariant if every handle keeps a fate and what was published or
      opened stays so. */
  lemma Preserved(s: State, s': State, moved: nat)
    requires Inv(s) && MapInv(s') && OwnedOnce(s') && |s.handles| <= |s'.handles| && |s.senders| <= |s'.senders|
    requires forall h: nat | h < |s'.handles| ::
               (h < |s.handles| && Fate(s, h) ==> Fate(s', h)) && (h >= |s.handles| ==> Fate(s', h))
    requires forall j | 0 <= j < |s'.senders| ::
               if j < |s.senders| && j != moved then s'.senders[j] == s.senders[j] else SenderInv(s', s'.senders[j])
    requires forall h: nat, path | Published(s, h, path) :: Published(s', h, path)
    requires forall h: nat, path | IsHandle(s, h, path) :: IsHandle(s', h, path)
    requires forall h: nat | h in s'.retired && h !in s.retired :: Mapped(s, h)
    ensures Inv(s')
  {
    hide Fate, Published, IsHandle;
    forall h: nat | h < |s'.handles|
      ensures Fate(s', h)
    {
      assert h < |s.handles| ==> Fate(s, h);
    }
    forall j | 0 <= j < |s'.senders|
      ensures SenderInv(s', s'.senders[j])
    {
      if j < |s.senders| && j != moved {
        var sender := s.senders[j];
        assert SenderInv(s, sender);
        if sender.Created? || sender.Redundant? {
          NotMapped(s, j);
        }
      }
    }
  }

  /** What a sender owns is not mapped. */
  lemma NotMapped(s: State, j: nat)
    requires Inv(s) && j < |s.senders| && (s.senders[j].Created? || s.senders[j].Redundant?)
    ensures !Mapped(s, s.senders[j].handle)
  {
    var h := s.senders[j].handle;
    assert SenderInv(s, s.senders[j]) && Owns(s.senders[j], h) && Owned(s, h);
    assert Fate(s, h);
  }

  lemma SendStep(s: State, path: string)
    requires Inv(s)
    ensures Inv(Apply(s, Send(path)))
  {
    var s' := Apply(s, Send(path));
    forall h: nat
      ensures Owned(s', h) <==> Owned(s, h)
    {
      if Owned(s, h) {
        var j :| 0 <= j < |s.senders| && Owns(s.senders[j], h);
        assert s'.senders[j] == s.senders[j];
      }
    }
    hide Owned;
    Preserved(s, s', |s.senders|);
  }

  lemma CreateStep(s: State, i: nat, ok: bool)
    requires Inv(s) && Enabled(s, Create(i, ok))
    ensures Inv(Apply(s, Create(i, ok)))
  {
    if ok {
      CreatedStep(s, i);
    } else {
      FreeMove(s, i, Finished);
    }
  }

  lemma CreatedStep(s: State, i: nat)
    requires Inv(s) && Enabled(s, Create(i, true))
    ensures Inv(Apply(s, Create(i, true)))
  {
    var n, path := |s.handles|, s.senders[i].path;
    var s' := Apply(s, Create(i, true));
    forall h: nat
      ensures Owned(s', h) <==> Owned(s, h) || h == n
    {
      MoveOwned(s, i, Created(path, n), h);
      assert Owned(s', h) <==> Owned(Move(s, i, Created(path, n)), h);
    }
    forall h: nat | Owned(s, h)
      ensures h < n
    {
      var j :| 0 <= j < |s.senders| && Owns(s.senders[j], h);
      assert SenderInv(s, s.senders[j]);
    }
    hide Owned;
    assert forall h: nat :: h < n ==> s'.handles[h] == s.handles[h];
    Preserved(s, s', i);
  }

  lemma StoreStep(s: State, i: nat)
    requires Inv(s) && Enabled(s, LoadOrStore(i))
    ensures Inv(Apply(s, LoadOrStore(i)))
  {
    hide MapInv, Published;
    var path, h := s.senders[i].path, s.senders[i].handle;
    var s' := Apply(s, LoadOrStore(i));
    assert SenderInv(s, s.senders[i]);
    assert Owned(s, h) by {
      assert Owns(s.senders[i], h);
    }
    forall g: nat
      ensures Owned(s', g) <==> Owned(s, g) && (g == h ==> path in s.writers)
    {
      MoveOwned(s, i, s'.senders[i], g);
      assert Owned(s', g) <==> Owned(Move(s, i, s'.senders[i]), g);
    }
    hide Owned;
    assert Fate(s, h);
    if path in s.writers {
      LoseRace(s, i);
    } else {
      WinRace(s, i);
    }
  }

  lemma LoseRace(s: State, i: nat)
    requires Inv(s) && Enabled(s, LoadOrStore(i)) && s.senders[i].path in s.writers
    requires SenderInv(s, s.senders[i]) && Fate(s, s.senders[i].handle)
    requires forall g: nat :: Owned(Apply(s, LoadOrStore(i)), g) <==> Owned(s, g)
    ensures Inv(Apply(s, LoadOrStore(i)))
  {
    hide Owned;
    assert Fate(s, s.writers[s.senders[i].path]);
    Preserved(s, Apply(s, LoadOrStore(i)), i);
  }

  lemma WinRace(s: State, i: nat)
    requires Inv(s) && Enabled(s, LoadOrStore(i)) && s.senders[i].path !in s.writers
    requires SenderInv(s, s.senders[i]) && Fate(s, s.senders[i].handle) && Owned(s, s.senders[i].handle)
    requires forall g: nat :: Owned(Apply(s, LoadOrStore(i)), g) <==> Owned(s, g) && g != s.senders[i].handle
    ensures Inv(Apply(s, LoadOrStore(i)))
  {
    hide Owned;
    Preserved(s, Apply(s, LoadOrStore(i)), i);
  }

  lemma CloseRedundantStep(s: State, i: nat)
    requires Inv(s) && Enabled(s, CloseRedundant(i))
    ensures Inv(Apply(s, CloseRedundant(i)))
  {
    var h := s.senders[i].handle;
    var s' := Apply(s, CloseRedundant(i));
    assert SenderInv(s, s.senders[i]);
    assert Owned(s, h) by {
      assert Owns(s.senders[i], h);
    }
    forall g: nat
      ensures Owned(s', g) <==> Owned(s, g) && g != h
    {
      MoveOwned(s, i, s'.senders[i], g);
      assert Owned(s', g) <==> Owned(Move(s, i, s'.senders[i]), g);
    }
    hide Owned;
    assert Fate(s, h);
    Preserved(s, s', i);
  }

  lemma WriteStep(s: State, i: nat)
    requires Inv(s) && Enabled(s, Write(i))
    ensures Inv(Apply(s, Write(i)))
  {
    var h := s.senders[i].handle;
    assert SenderInv(s, s.senders[i]);
    FreeMove(s, i, Finished);
    var m, s' := Move(s, i, Finished), Apply(s, Write(i));
    hide Owned;
    assert forall g: nat :: Owned(s', g) <==> Owned(m, g);
    assert Fate(s, h);
    Preserved(m, s', |s.senders|);
  }

  lemma RemoveStep(s: State, path: string)
    requires Inv(s)
    ensures Inv(Apply(s, LoadAndDelete(path)))
  {
    var s' := Apply(s, LoadAndDelete(path));
    assert forall g: nat :: Owned(s', g) <==> Owned(s, g);
    hide Owned;
    if path in s.writers {
      assert Fate(s, s.writers[path]);
    }
    Preserved(s, s', |s.senders|);
  }

  lemma CloseRemovedStep(s: State, h: nat)
    requires Inv(s) && Enabled(s, CloseRemoved(h))
    ensures Inv(Apply(s, CloseRemoved(h)))
  {
    var s' := Apply(s, CloseRemoved(h));
    assert forall g: nat :: Owned(s', g) <==> Owned(s, g);
    hide Owned;
    assert Fate(s, h);
    Preserved(s, s', |s.senders|);
  }

  lemma InvStep(s: State, step: Step)
    requires Inv(s) && Enabled(s, step)
    ensures Inv(Apply(s, step))
  {
    hide SenderInv, Fate, OwnedOnce, MapInv;
    match step
    case Send(path) => SendStep(s, path);
    case Load(i) => LoadStep(s, i);
    case Create(i, ok) => CreateStep(s, i, ok);
    case LoadOrStore(i) => StoreStep(s, i);
    case CloseRedundant(i) => CloseRedundantStep(s, i);
    case Write(i) => WriteStep(s, i);
    case LoadAndDelete(path) => RemoveStep(s, path);
    case CloseRemoved(h) => CloseRemovedStep(s, h);
  }

  lemma LoadStep(s: State, i: nat)
    requires Inv(s) && Enabled(s, Load(i))
    ensures Inv(Apply(s, Load(i)))
  {
    var path := s.senders[i].path;
    if path in s.writers {
      assert Fate(s, s.writers[path]);
      FreeMove(s, i, Using(path, s.writers[path]));
    } else {
      FreeMove(s, i, Missed(path));
    }
  }

  /** Handle conservation, in every schedule: each handle ever opened is open while it is
      mapped for its path, held by one sender between create and store or before its close,
      or taken out with its close pending, and those places exclude each other; otherwise it
      was closed exactly once. What a sender writes to was published for its path, and a
      write can only be lost on a handle that CloseWriter took out. */
  lemma {:induction false} Conservation(s: State, steps: seq<Step>)
    requires Inv(s) && Runs(s, steps)
    ensures var e := After(s, steps);
            && (forall h: nat | h < |e.handles| :: Fate(e, h))
            && (forall i | 0 <= i < |e.senders| && e.senders[i].Using? :: Published(e, e.senders[i].handle, e.senders[i].path))
            && e.lost <= e.retired
    decreases |steps|
  {
    hide Fate, Published, OwnedOnce, MapInv;
    if steps != [] {
      InvStep(s, steps[0]);
      Conservation(Apply(s, steps[0]), steps[1..]);
    } else {
      assert forall i | 0 <= i < |s.senders| && s.senders[i].Using? :: SenderInv(s, s.senders[i]);
      assert s.lost <= s.retired by {
        MapInvLost(s);
      }
    }
  }

  lemma MapInvLost(s: State)
    requires MapInv(s)
    ensures s.lost <= s.retired
  {
  }

  predicate Settled(s: State) {
    (forall i :: 0 <= i < |s.senders| ==> !s.senders[i].Created? && !s.senders[i].Redundant?) && s.removed == multiset{}
  }

  /** Once no sender is between create and close and no CloseWriter is pending, the open
      handles are exactly the mapped ones: nothing leaks. */
  lemma NothingLeaks(s: State, steps: seq<Step>)
    requires Inv(s) && Runs(s, steps) && Settled(After(s, steps))
    ensures var e := After(s, steps);
            forall h: nat | h < |e.handles| :: e.handles[h].closes == (if Mapped(e, h) then 0 else 1)
  {
    Conservation(s, steps);
    var e := After(s, steps);
    forall h: nat | h < |e.handles|
      ensures e.handles[h].closes == (if Mapped(e, h) then 0 else 1)
    {
      assert Fate(e, h);
    }
  }

  lemma Last(s: State, step: Step)
    requires Enabled(s, step)
    ensures Runs(s, [step]) && After(s, [step]) == Apply(s, step)
  {
    assert Runs(Apply(s, step), []);
  }

  lemma Before(s: State, step: Step, rest: seq<Step>)
    requires Enabled(s, step) && Runs(Apply(s, step), rest)
    ensures Runs(s, [step] + rest) && After(s, [step] + rest) == After(Apply(s, step), rest)
  {
    assert ([step] + rest)[1..] == rest;
  }

  /** A schedule in which a handle that is mapped and open is closed under its sender, whose
      write is then lost. */
  lemma WriteAfterClose(s: State, path: string) returns (steps: seq<Step>)
    requires Inv(s) && path in s.writers
    ensures Runs(s, steps) && After(s, steps).lost == s.lost + {s.writers[path]}
  {
    hide Runs, After;
    var n, h := |s.senders|, s.writers[path];
    assert Fate(s, h);
    var s1 := Apply(s, Send(path));
    var s2 := Apply(s1, Load(n));
    var s3 := Apply(s2, LoadAndDelete(path));
    var s4 := Apply(s3, CloseRemoved(h));
    Last(s4, Write(n));
    steps := [Write(n)];
    Before(s3, CloseRemoved(h), steps);
    steps := [CloseRemoved(h)] + steps;
    Before(s2, LoadAndDelete(path), steps);
    steps := [LoadAndDelete(path)] + steps;
    Before(s1, Load(n), steps);
    steps := [Load(n)] + steps;
    Before(s, Send(path), steps);
    steps := [Send(path)] + steps;
  }

  // ---------- the concurrent map of the backend ----------

  class WriterMap {
    var writers: map<string, nat>

    constructor ()
      ensures writers == EMPTY.writers
    {
      writers := map[];
    }

    method Load(path: string, ghost s: State, ghost i: nat) returns (writer: Option<nat>)
      requires writers == s.writers && Enabled(s, Step.Load(i)) && s.senders[i].path == path
      ensures Apply(s, Step.Load(i)).senders[i] == match writer case Some(h) => Using(path, h) case None => Missed(path)
    {
      if path in writers {
        return Some(writers[path]);
      }
      return None;
    }

    method LoadOrStore(path: string, newWriter: nat, ghost s: State, ghost i: nat)
      returns (actualWriter: nat, loaded: bool)
      requires writers == s.writers && Enabled(s, Step.LoadOrStore(i)) && s.senders[i] == Created(path, newWriter)
      modifies this
      ensures writers == Apply(s, Step.LoadOrStore(i)).writers
      ensures Apply(s, Step.LoadOrStore(i)).senders[i]
              == if loaded then Redundant(path, newWriter, actualWriter) else Using(path, actualWriter)
    {
      if path in writers {
        return writers[path], true;
      }
      writers := writers[path := newWriter];
      return newWriter, false;
    }

    method LoadAndDelete(path: string, ghost s: State) returns (writer: Option<nat>)
      requires writers == s.writers
      modifies this
      ensures writers == Apply(s, Step.LoadAndDelete(path)).writers
      ensures Apply(s, Step.LoadAndDelete(path)).removed
              == s.removed + match writer case Some(h) => multiset{h} case None => multiset{}
    {
      writer := None;
      if path in writers {
        writer := Some(writers[path]);
        writers := writers - {path};
      }
    }
  }
}
