/** The registry of running tailers, under every interleaving of discovery, remove and
    rename events, tailer exits, and the unlocked tail of each stop. */
module Registry {
  import opened Wrappers

  datatype Phase =
    | Running   // tailFile is active
    | Exiting   // it returned; its deferred stop has not taken the lock yet
    | Gone      // its deferred stop released the lock

  datatype Tailer = Tailer(path: string, cancels: nat, phase: Phase)

  /** A stop between deleting the registration and calling the cancel function it read. */
  datatype Held = Held(id: nat, path: string)

  datatype State = State(
    registered: map<string, nat>,  // tailedFiles: path to the tailer whose cancel is stored
    tailers: seq<Tailer>,          // every tailer ever started
    toCancel: seq<Held>,           // stops that still have to call cancel
    toClose: multiset<string>,     // stops that still have to call CloseWriter
    removed: multiset<string>,     // registrations deleted so far, by path
    cancelled: multiset<string>,   // cancels called so far
    closed: multiset<string>)      // CloseWriter calls so far

  const EMPTY := State(map[], [], [], multiset{}, multiset{}, multiset{}, multiset{})

  datatype Step =
    | Discover(path: string)   // startTailingFileWithReason, all under the lock
    | Remove(path: string)     // a remove or rename event enters stopTailingFileWithReason
    | Finish(id: nat)          // tailFile returns, for whatever reason
    | Exit(id: nat)            // its deferred stop enters stopTailingFileWithReason
    | Cancel(k: nat)           // some stop calls the cancel it holds
    | Close(path: string)      // and then CloseWriter

  predicate Enabled(s: State, step: Step) {
    match step
    case Discover(_) => true
    case Remove(_) => true
    case Finish(id) => id < |s.tailers| && s.tailers[id].phase == Running
    case Exit(id) => id < |s.tailers| && s.tailers[id].phase == Exiting
    case Cancel(k) => k < |s.toCancel| && s.toCancel[k].id < |s.tailers|
    case Close(path) => path in s.toClose
  }

  function Register(s: State, path: string): State {
    if path in s.registered then s
    else s.(registered := s.registered[path := |s.tailers|], tailers := s.tailers + [Tailer(path, 0, Running)])
  }

  /** The locked part of a stop: whatever tailer the path names now is taken out. */
  function Unregister(s: State, path: string): State {
    if path !in s.registered then s
    else
      s.(registered := s.registered - {path},
         toCancel := s.toCancel + [Held(s.registered[path], path)],
         removed := s.removed + multiset{path})
  }

  function SetPhase(s: State, id: nat, phase: Phase): State
    requires id < |s.tailers|
  {
    s.(tailers := s.tailers[id := s.tailers[id].(phase := phase)])
  }

  function Apply(s: State, step: Step): State
    requires Enabled(s, step)
  {
    match step
    case Discover(path) => Register(s, path)
    case Remove(path) => Unregister(s, path)
    case Finish(id) => SetPhase(s, id, Exiting)
    case Exit(id) => Unregister(SetPhase(s, id, Gone), s.tailers[id].path)
    case Cancel(k) =>
      var h := s.toCancel[k];
      s.(toCancel := s.toCancel[..k] + s.toCancel[k + 1..],
         tailers := s.tailers[h.id := s.tailers[h.id].(cancels := s.tailers[h.id].cancels + 1)],
         cancelled := s.cancelled + multiset{h.path},
         toClose := s.toClose + multiset{h.path})
    case Close(path) =>
      s.(toClose := s.toClose - multiset{path}, closed := s.closed + multiset{path})
  }

  predicate Runs(s: State, steps: seq<Step>)
    decreases |steps|
  {
    steps == [] || (Enabled(s, steps[0]) && Runs(Apply(s, steps[0]), steps[1..]))
  }

  function After(s: State, steps: seq<Step>): State
    requires Runs(s, steps)
    decreases |steps|
  {
    if steps == [] then s else After(Apply(s, steps[0]), steps[1..])
  }

  // ---------- the invariant ----------

  function Paths(held: seq<Held>): multiset<string> {
    if held == [] then multiset{} else Paths(held[..|held| - 1]) + multiset{held[|held| - 1].path}
  }

  /** Some stop holds this tailer's cancel function and has not called it. */
  predicate IsHeld(s: State, id: nat) {
    exists k :: 0 <= k < |s.toCancel| && s.toCancel[k].id == id
  }

  predicate IsRegistered(s: State, id: nat) {
    id < |s.tailers| && s.tailers[id].path in s.registered && s.registered[s.tailers[id].path] == id
  }

  /** What the registry names is alive. */
  predicate RegisteredIsLive(s: State) {
    forall path <- s.registered ::
      var id := s.registered[path];
      id < |s.tailers| && s.tailers[id].path == path && s.tailers[id].cancels == 0 &&
      s.tailers[id].phase != Gone && !IsHeld(s, id)
  }

  /** Each tailer is exactly one of: registered, held by a stop, cancelled once. */
  predicate OneFate(s: State) {
    forall id: nat | id < |s.tailers| ::
      s.tailers[id].cancels <= 1
      && (s.tailers[id].cancels == 0 ==> IsHeld(s, id) || IsRegistered(s, id))
      && (s.tailers[id].cancels == 1 ==> !IsHeld(s, id))
  }

  predicate HeldOnce(s: State) {
    && (forall k :: 0 <= k < |s.toCancel| ==>
          s.toCancel[k].id < |s.tailers| && s.tailers[s.toCancel[k].id].path == s.toCancel[k].path)
    && (forall k, l :: 0 <= k < l < |s.toCancel| ==> s.toCancel[k].id != s.toCancel[l].id)
  }

  predicate Accounted(s: State) {
    && s.removed == Paths(s.toCancel) + s.cancelled
    && s.cancelled == s.toClose + s.closed
  }

  predicate Inv(s: State) {
    RegisteredIsLive(s) && OneFate(s) && HeldOnce(s) && Accounted(s)
  }

  lemma PathsAdd(held: seq<Held>, h: Held)
    ensures Paths(held + [h]) == Paths(held) + multiset{h.path}
  {
    assert (held + [h])[..|held|] == held;
  }

  lemma {:induction false} PathsWithout(held: seq<Held>, k: nat)
    requires k < |held|
    ensures Paths(held) == Paths(held[..k] + held[k + 1..]) + multiset{held[k].path}
    decreases |held|
  {
    hide Paths;
    var front, h := held[..|held| - 1], held[|held| - 1];
    assert held == front + [h];
    PathsAdd(front, h);
    if k == |front| {
      assert held[..k] + held[k + 1..] == front;
    } else {
      PathsWithout(front, k);
      var rest := front[..k] + front[k + 1..];
      assert held[..k] + held[k + 1..] == rest + [h];
      PathsAdd(rest, h);
    }
  }

  lemma UnregisterHeld(s: State, path: string, id: nat)
    ensures IsHeld(Unregister(s, path), id) <==> IsHeld(s, id) || (path in s.registered && s.registered[path] == id)
  {
    var s' := Unregister(s, path);
    var n := |s.toCancel|;
    if path in s.registered {
      assert s'.toCancel[n] == Held(s.registered[path], path);
      if IsHeld(s, id) {
        var k :| 0 <= k < n && s.toCancel[k].id == id;
        assert s'.toCancel[k].id == id;
      }
    }
  }

  lemma UnregisterKeeps(s: State, path: string)
    requires Inv(s)
    ensures Inv(Unregister(s, path))
  {
    var s' := Unregister(s, path);
    if path in s.registered {
      hide IsHeld, Paths;
      forall id: nat
        ensures IsHeld(s', id) <==> IsHeld(s, id) || s.registered[path] == id
      {
        UnregisterHeld(s, path, id);
      }
      assert RegisteredIsLive(s');
      assert OneFate(s');
      UnregisterOnce(s, path);
      UnregisterAccounts(s, path);
    }
  }

  lemma UnregisterOnce(s: State, path: string)
    requires Inv(s)
    ensures HeldOnce(Unregister(s, path))
  {
    hide Accounted, OneFate;
    var s' := Unregister(s, path);
    if path in s.registered {
      assert forall k :: 0 <= k < |s.toCancel| ==> s'.toCancel[k] == s.toCancel[k] && IsHeld(s, s.toCancel[k].id);
    }
  }

  lemma UnregisterAccounts(s: State, path: string)
    requires Accounted(s)
    ensures Accounted(Unregister(s, path))
  {
    var s' := Unregister(s, path);
    if path in s.registered {
      assert s'.toCancel[..|s'.toCancel| - 1] == s.toCancel;
    }
  }

  lemma RegisterKeeps(s: State, path: string)
    requires Inv(s)
    ensures Inv(Register(s, path))
  {
    var s' := Register(s, path);
    if path !in s.registered {
      assert forall i: nat :: IsHeld(s', i) <==> IsHeld(s, i);
      assert !IsHeld(s, |s.tailers|);
    }
  }

  lemma PhaseKeeps(s: State, id: nat, phase: Phase)
    requires Inv(s) && id < |s.tailers|
    requires phase == Gone ==> !IsRegistered(s, id)
    ensures Inv(SetPhase(s, id, phase))
  {
    var s' := SetPhase(s, id, phase);
    assert forall i: nat :: IsHeld(s', i) <==> IsHeld(s, i);
    assert forall i: nat :: IsRegistered(s', i) <==> IsRegistered(s, i);
  }

  lemma CancelHeld(s: State, k: nat, id: nat)
    requires HeldOnce(s) && Enabled(s, Cancel(k))
    ensures IsHeld(Apply(s, Cancel(k)), id) <==> IsHeld(s, id) && id != s.toCancel[k].id
  {
    var s' := Apply(s, Cancel(k));
    if IsHeld(s, id) && id != s.toCancel[k].id {
      var l :| 0 <= l < |s.toCancel| && s.toCancel[l].id == id;
      assert s'.toCancel[if l < k then l else l - 1].id == id;
    }
    if IsHeld(s', id) {
      var l :| 0 <= l < |s'.toCancel| && s'.toCancel[l].id == id;
      assert s.toCancel[if l < k then l else l + 1].id == id;
    }
  }

  lemma CancelKeeps(s: State, k: nat)
    requires Inv(s) && Enabled(s, Cancel(k))
    ensures Inv(Apply(s, Cancel(k)))
  {
    var s', h := Apply(s, Cancel(k)), s.toCancel[k];
    assert IsHeld(s, h.id);
    assert h.id < |s.tailers|;
    CancelOnce(s, k);
    CancelAccounts(s, k);
    hide IsHeld, Paths, HeldOnce, Accounted;
    forall id: nat
      ensures IsHeld(s', id) <==> IsHeld(s, id) && id != h.id
    {
      CancelHeld(s, k, id);
    }
    assert RegisteredIsLive(s');
    assert OneFate(s');
  }

  lemma CancelAccounts(s: State, k: nat)
    requires Accounted(s) && Enabled(s, Cancel(k))
    ensures Accounted(Apply(s, Cancel(k)))
  {
    PathsWithout(s.toCancel, k);
  }

  lemma CancelOnce(s: State, k: nat)
    requires HeldOnce(s) && Enabled(s, Cancel(k))
    ensures HeldOnce(Apply(s, Cancel(k)))
  {
    var s' := Apply(s, Cancel(k));
    assert forall l :: 0 <= l < |s'.toCancel| ==> s'.toCancel[l] == s.toCancel[if l < k then l else l + 1];
  }

  lemma InvStep(s: State, step: Step)
    requires Inv(s) && Enabled(s, step)
    ensures Inv(Apply(s, step))
  {
    match step
    case Discover(path) => RegisterKeeps(s, path);
    case Remove(path) => UnregisterKeeps(s, path);
    case Finish(id) => PhaseKeeps(s, id, Exiting);
    case Exit(id) =>
      var path := s.tailers[id].path;
      UnregisterKeeps(s, path);
      PhaseKeeps(Unregister(s, path), id, Gone);
      assert Apply(s, step) == SetPhase(Unregister(s, path), id, Gone);
    case Cancel(k) => CancelKeeps(s, k);
    case Close(path) =>
      var s' := Apply(s, step);
      assert forall i: nat :: IsHeld(s', i) <==> IsHeld(s, i);
      assert forall i: nat :: IsRegistered(s', i) <==> IsRegistered(s, i);
  }

  /** The registry protocol, for every schedule: what is registered is alive; an uncancelled
      tailer is registered or its cancel is about to be called; no tailer is cancelled
      twice; and once no stop is pending, deletions, cancels and CloseWriter calls match one
      to one. */
  lemma {:induction false} Protocol(s: State, steps: seq<Step>)
    requires Inv(s) && Runs(s, steps)
    ensures var e := After(s, steps);
            && (forall path <- e.registered ::
                  var id := e.registered[path];
                  id < |e.tailers| && e.tailers[id].path == path && e.tailers[id].cancels == 0 && e.tailers[id].phase != Gone)
            && (forall id: nat | id < |e.tailers| ::
                  e.tailers[id].cancels <= 1 &&
                  (e.tailers[id].cancels == 0 ==> IsRegistered(e, id) || IsHeld(e, id)))
            && (e.toCancel == [] && e.toClose == multiset{} ==> e.removed == e.cancelled == e.closed)
    decreases |steps|
  {
    if steps != [] {
      InvStep(s, steps[0]);
      Protocol(Apply(s, steps[0]), steps[1..]);
    }
  }

  lemma EmptyInv()
    ensures Inv(EMPTY)
  {
  }

  // ---------- whom an exit stops ----------

  /** A tailer's own exit deregisters it if it is still registered. Otherwise it deregisters
      whichever younger tailer took over its path, which is alive, if there is one. */
  lemma ExitStopsWhoeverIsRegistered(s: State, id: nat)
    requires Inv(s) && Enabled(s, Exit(id))
    ensures var s', path := Apply(s, Exit(id)), s.tailers[id].path;
            && (IsRegistered(s, id) ==> IsHeld(s', id))
            && (!IsRegistered(s, id) && path in s.registered ==>
                  var other := s.registered[path];
                  other != id && s.tailers[other].cancels == 0 && s.tailers[other].phase != Gone &&
                  IsHeld(s', other) && !IsRegistered(s', other))
            && (path !in s.registered ==> s'.toCancel == s.toCancel && s'.registered == s.registered)
  {
    var s', path := Apply(s, Exit(id)), s.tailers[id].path;
    if path in s.registered {
      assert s'.toCancel[|s.toCancel|] == Held(s.registered[path], path);
    }
  }

  /** A schedule in which a rotated file's new tailer is stopped by the old one's exit. */
  lemma SuccessorIsStopped(path: string) returns (steps: seq<Step>)
    ensures Runs(EMPTY, steps)
    ensures var s := After(EMPTY, steps);
            |s.tailers| == 2 && s.tailers[1] == Tailer(path, 0, Running) && IsHeld(s, 1) && path !in s.registered
  {
    hide Runs, After;
    var s1 := Apply(EMPTY, Discover(path));
    var s2 := Apply(s1, Remove(path));
    var s3 := Apply(s2, Cancel(0));
    var s4 := Apply(s3, Discover(path));
    var s5 := Apply(s4, Finish(0));
    var s6 := Apply(s5, Exit(0));
    assert s6.toCancel[0] == Held(1, path);
    Last(s5, Exit(0));
    steps := [Exit(0)];
    Before(s4, Finish(0), steps);
    steps := [Finish(0)] + steps;
    Before(s3, Discover(path), steps);
    steps := [Discover(path)] + steps;
    Before(s2, Cancel(0), steps);
    steps := [Cancel(0)] + steps;
    Before(s1, Remove(path), steps);
    steps := [Remove(path)] + steps;
    Before(EMPTY, Discover(path), steps);
    steps := [Discover(path)] + steps;
  }

  lemma Last(s: State, step: Step)
    requires Enabled(s, step)
    ensures Runs(s, [step]) && After(s, [step]) == Apply(s, step)
  {
    assert Runs(Apply(s, step), []);
  }

  lemma Before(s: State, step: Step, rest: seq<Step>)
    requires Enabled(s, step) && Runs(Apply(s, step), rest)
    ensures Runs(s, [step] + rest) && After(s, [step] + rest) == After(Apply(s, step), rest)
  {
    assert ([step] + rest)[1..] == rest;
  }

  // ---------- the locked sections as the manager runs them ----------

  class Manager {
    const ignored: string -> bool
    var tailedFiles: map<string, nat>  // path to the tailer whose cancel function is stored
    var started: nat                   // tailers started so far

    constructor (ignored: string -> bool)
      ensures this.ignored == ignored && tailedFiles == map[] && started == 0
    {
      this.ignored := ignored;
      tailedFiles, started := map[], 0;
    }

    /** The registry and tailer count of a protocol state. */
    ghost predicate Represents(s: State)
      reads this
    {
      tailedFiles == s.registered && started == |s.tailers|
    }

    method StartTailingFile(path: string, ghost s: State) returns (tailer: Option<nat>)
      requires Represents(s)
      modifies this
      ensures if ignored(path) then Represents(s) && tailer == None else Represents(Register(s, path))
      ensures tailer.Some? <==> !ignored(path) && path !in s.registered
      ensures tailer.Some? ==> tailer.value == |s.tailers|
    {
      tailer := None;
      if ignored(path) || path in tailedFiles {
        return;
      }
      tailer := Some(started);
      tailedFiles := tailedFiles[path := started];
      started := started + 1;
    }

    /** The locked part; the caller then cancels what it got and closes the writer. */
    method StopTailingFile(path: string, ghost s: State) returns (cancel: Option<nat>)
      requires Represents(s)
      modifies this
      ensures Represents(Unregister(s, path))
      ensures Unregister(s, path).toCancel == s.toCancel + if cancel.Some? then [Held(cancel.value, path)] else []
    {
      cancel := None;
      if path in tailedFiles {
        cancel := Some(tailedFiles[path]);
        tailedFiles := tailedFiles - {path};
      }
    }
  }
}
