/** Parallel active discovery: lookups race for a one-slot channel through a sync.Once, and
    the caller takes the first host or learns that every lookup finished. */
module Discovery {
  import opened Wrappers

  datatype Kind = RDNS | MDNS | NetBIOS | LLMNR

  datatype Config = Config(rdns: bool, mdns: bool, netBIOS: bool, llmnr: bool)

  /** The lookups launched for an address. */
  function Launched(cfg: Config, isIPv6: bool): seq<Kind> {
    (if cfg.rdns then [RDNS] else []) + (if cfg.mdns then [MDNS] else [])
    + (if !isIPv6 && cfg.netBIOS then [NetBIOS] else []) + (if cfg.llmnr then [LLMNR] else [])
  }

  /** Where one runLookup goroutine is; a host is never empty. */
  datatype Lookup =
    | Looking
    | AtOnce(host: string)   // non-empty result, about to call once.Do
    | Selecting(host: string)  // inside once.Do, at the select
    | Sent                   // sent its host, about to call cancel
    | Leaving                // about to call wg.Done
    | Done

  datatype Once = Unused | Busy(runner: nat) | Used

  datatype Caller = Waiting | Checking | Returning(answer: string) | Returned(answer: string)

  datatype State = State(
    kinds: seq<Kind>,              // which lookup each goroutine runs
    lookups: seq<Lookup>,
    results: seq<Option<string>>,  // what each lookup function returned
    once: Once,
    channel: Option<string>,       // foundHost
    sends: seq<string>,            // every host ever sent
    cancelled: bool,               // the inner context
    parentCancelled: bool,
    finished: bool,                // allLookupsFinished is closed
    caller: Caller)

  datatype Step =
    | Return(i: nat, host: string)
    | EnterOnce(i: nat)
    | Send(i: nat)
    | GiveUp(i: nat)       // the select saw the context cancelled
    | CancelOthers(i: nat)
    | WaitGroupDone(i: nat)
    | CloseFinished
    | TakeHost             // the caller receives from foundHost, in either select
    | SeeFinished
    | FindNothing          // the final non-blocking check
    | DeferredCancel
    | ParentCancel

  predicate AtLookup(s: State, i: nat) {
    i < |s.lookups| && |s.results| == |s.lookups|
  }

  predicate Enabled(s: State, step: Step) {
    match step
    case Return(i, _) => AtLookup(s, i) && s.lookups[i] == Looking
    case EnterOnce(i) => AtLookup(s, i) && s.lookups[i].AtOnce? && !s.once.Busy?
    case Send(i) => AtLookup(s, i) && s.lookups[i].Selecting? && s.channel.None?
    case GiveUp(i) => AtLookup(s, i) && s.lookups[i].Selecting? && s.cancelled
    case CancelOthers(i) => AtLookup(s, i) && s.lookups[i] == Sent
    case WaitGroupDone(i) => AtLookup(s, i) && s.lookups[i] == Leaving
    case CloseFinished => !s.finished && AllDone(s)
    case TakeHost => (s.caller == Waiting || s.caller == Checking) && s.channel.Some?
    case SeeFinished => s.caller == Waiting && s.finished
    case FindNothing => s.caller == Checking && s.channel.None?
    case DeferredCancel => s.caller.Returning?
    case ParentCancel => true
  }

  function Apply(s: State, step: Step): State
    requires Enabled(s, step)
  {
    match step
    case Return(i, host) =>
      s.(lookups := s.lookups[i := if host == "" then Leaving else AtOnce(host)],
         results := s.results[i := Some(host)])
    case EnterOnce(i) =>
      if s.once.Unused? then s.(once := Busy(i), lookups := s.lookups[i := Selecting(s.lookups[i].host)])
      else s.(lookups := s.lookups[i := Leaving])
    case Send(i) =>
      s.(channel := Some(s.lookups[i].host), sends := s.sends + [s.lookups[i].host],
         lookups := s.lookups[i := Sent])
    case GiveUp(i) => s.(once := Used, lookups := s.lookups[i := Leaving])
    case CancelOthers(i) => s.(cancelled := true, once := Used, lookups := s.lookups[i := Leaving])
    case WaitGroupDone(i) => s.(lookups := s.lookups[i := Done])
    case CloseFinished => s.(finished := true)
    case TakeHost => s.(caller := Returning(s.channel.value), channel := None)
    case SeeFinished => s.(caller := Checking)
    case FindNothing => s.(caller := Returning(""))
    case DeferredCancel => s.(caller := Returned(s.caller.answer), cancelled := true)
    case ParentCancel => s.(parentCancelled := true, cancelled := true)
  }

  function Start(cfg: Config, isIPv6: bool): State {
    var n := |Launched(cfg, isIPv6)|;
    State(Launched(cfg, isIPv6), seq(n, _ => Looking), seq(n, _ => None), Unused, None, [], false, false, false, Waiting)
  }

  predicate Runs(s: State, steps: seq<Step>)
    decreases |steps|
  {
    steps == [] || (Enabled(s, steps[0]) && Runs(Apply(s, steps[0]), steps[1..]))
  }

  function After(s: State, steps: seq<Step>): State
    requires Runs(s, steps)
    decreases |steps|
  {
    if steps == [] then s else After(Apply(s, steps[0]), steps[1..])
  }

  // ---------- safety ----------

  predicate IsResult(s: State, host: string) {
    host != "" && exists i :: 0 <= i < |s.results| && s.results[i] == Some(host)
  }

  /** Where one lookup can be, given its result and the state of the once. */
  predicate LookupInv(s: State, i: nat)
    requires i < |s.lookups| && |s.results| == |s.lookups|
  {
    var l := s.lookups[i];
    && (l == Looking <==> s.results[i].None?)
    && (l.AtOnce? || l.Selecting? ==> l.host != "" && s.results[i] == Some(l.host))
    && (l.Selecting? || l == Sent ==> s.once == Busy(i))
  }

  predicate OnceInv(s: State) {
    && |s.results| == |s.lookups|
    && (forall i: nat :: i < |s.lookups| ==> LookupInv(s, i))
    && (s.once.Busy? ==>
          s.once.runner < |s.lookups| && (s.lookups[s.once.runner].Selecting? || s.lookups[s.once.runner] == Sent))
  }

  /** The channel carries at most one host in the whole run. */
  predicate SendInv(s: State) {
    && |s.sends| <= 1
    && (s.sends != [] ==> IsResult(s, s.sends[0]))
    && (s.once.Unused? ==> s.sends == [])
    && (s.once.Busy? ==> (s.sends == [] <==> s.once.runner < |s.lookups| && s.lookups[s.once.runner].Selecting?))
    && (s.channel.Some? ==> s.sends == [s.channel.value])
  }

  predicate Answered(s: State) {
    s.caller.Returning? || s.caller.Returned?
  }

  predicate AllDone(s: State) {
    forall i :: 0 <= i < |s.lookups| ==> s.lookups[i] == Done
  }

  predicate AllEmpty(s: State) {
    forall i :: 0 <= i < |s.results| ==> s.results[i] == Some("")
  }

  /** Unless the parent was cancelled, a host that was found is sent, and a sent host is in
      the channel or is the answer. */
  predicate CallerInv(s: State) {
    && (s.finished || s.caller == Checking ==> AllDone(s))
    && (s.channel.Some? ==> !Answered(s))
    && (Answered(s) && s.caller.answer != "" ==> s.sends == [s.caller.answer])
    && (Answered(s) && s.caller.answer == "" ==> AllDone(s) && s.sends == [])
    && (s.sends != [] && s.channel.None? ==> Answered(s))
  }

  /** A host that left its lookup without being sent lost to one that was, unless the
      parent was cancelled. */
  predicate LossInv(s: State) {
    && (s.once.Used? && s.sends == [] ==> s.parentCancelled)
    && (s.cancelled && s.sends == [] && !s.parentCancelled ==> s.caller.Returned?)
    && (forall i :: 0 <= i < |s.lookups| && i < |s.results| && (s.lookups[i] == Leaving || s.lookups[i] == Done) ==>
          s.results[i] == Some("") || s.once.Used?)
  }

  predicate Inv(s: State) {
    OnceInv(s) && SendInv(s) && CallerInv(s) && LossInv(s)
  }

  lemma StartInv(cfg: Config, isIPv6: bool)
    ensures Inv(Start(cfg, isIPv6))
  {
  }

  predicate ByLookup(step: Step) {
    step.Return? || step.EnterOnce? || step.Send? || step.GiveUp? || step.CancelOthers? || step.WaitGroupDone?
  }

  lemma OnceStep(s: State, step: Step)
    requires OnceInv(s) && Enabled(s, step)
    ensures OnceInv(Apply(s, step))
  {
    var s' := Apply(s, step);
    forall i: nat | i < |s'.lookups|
      ensures LookupInv(s', i)
    {
      LookupStep(s, step, i);
    }
  }

  lemma LookupStep(s: State, step: Step, i: nat)
    requires OnceInv(s) && Enabled(s, step) && i < |s.lookups|
    ensures LookupInv(Apply(s, step), i)
  {
    assert ByLookup(step) ==> LookupInv(s, step.i);
    assert LookupInv(s, i);
  }

  lemma ResultStays(s: State, step: Step, host: string)
    requires OnceInv(s) && Enabled(s, step) && IsResult(s, host)
    ensures IsResult(Apply(s, step), host)
  {
    assert ByLookup(step) ==> LookupInv(s, step.i);
    var i :| 0 <= i < |s.results| && s.results[i] == Some(host);
    assert Apply(s, step).results[i] == Some(host);
  }

  lemma SendStep(s: State, step: Step)
    requires OnceInv(s) && SendInv(s) && Enabled(s, step)
    ensures SendInv(Apply(s, step))
  {
    assert ByLookup(step) ==> LookupInv(s, step.i);
    if s.sends != [] {
      ResultStays(s, step, s.sends[0]);
    }
    if step.Send? {
      assert s.results[step.i] == Some(s.lookups[step.i].host);
    }
  }

  lemma CallerStep(s: State, step: Step)
    requires OnceInv(s) && SendInv(s) && CallerInv(s) && Enabled(s, step)
    ensures CallerInv(Apply(s, step))
  {
    assert ByLookup(step) ==> LookupInv(s, step.i);
  }

  lemma LossStep(s: State, step: Step)
    requires Inv(s) && Enabled(s, step)
    ensures LossInv(Apply(s, step))
  {
    assert ByLookup(step) ==> LookupInv(s, step.i);
  }

  lemma InvStep(s: State, step: Step)
    requires Inv(s) && Enabled(s, step)
    ensures Inv(Apply(s, step))
  {
    OnceStep(s, step);
    SendStep(s, step);
    CallerStep(s, step);
    LossStep(s, step);
  }

  /** First result wins, in every schedule: at most one host is ever sent; whoever is about
      to send finds room; an answer is the host that was sent, which is some lookup's
      result; and no answer means every lookup finished and either all were empty or the
      parent context was cancelled. */
  lemma {:induction false} FirstResultWins(s: State, steps: seq<Step>)
    requires Inv(s) && Runs(s, steps)
    ensures var e := After(s, steps);
            && |e.sends| <= 1
            && (forall i: nat :: i < |e.lookups| && e.lookups[i].Selecting? ==> e.channel.None?)
            && (Answered(e) && e.caller.answer != "" ==> e.sends == [e.caller.answer] && IsResult(e, e.caller.answer))
            && (Answered(e) && e.caller.answer == "" ==> AllDone(e) && (AllEmpty(e) || e.parentCancelled))
    decreases |steps|
  {
    if steps != [] {
      InvStep(s, steps[0]);
      FirstResultWins(Apply(s, steps[0]), steps[1..]);
    } else {
      assert forall i: nat | i < |s.lookups| && s.lookups[i].Selecting? :: LookupInv(s, i);
    }
  }

  /** While the parent lives, the answer is empty exactly when every result was. */
  lemma EmptyIffAllEmpty(s: State, steps: seq<Step>)
    requires Inv(s) && Runs(s, steps)
    ensures var e := After(s, steps);
            Answered(e) && !e.parentCancelled ==> (e.caller.answer == "" <==> AllEmpty(e) && AllDone(e))
  {
    FirstResultWins(s, steps);
  }

  // ---------- which lookups a run has ----------

  /** The configuration asks for this lookup, and it serves the address family. */
  predicate IsEnabled(cfg: Config, isIPv6: bool, kind: Kind) {
    match kind
    case RDNS => cfg.rdns
    case MDNS => cfg.mdns
    case NetBIOS => cfg.netBIOS && !isIPv6
    case LLMNR => cfg.llmnr
  }

  lemma LaunchedOnce(cfg: Config, isIPv6: bool, kind: Kind)
    ensures multiset(Launched(cfg, isIPv6))[kind] == if IsEnabled(cfg, isIPv6, kind) then 1 else 0
  {
  }

  lemma {:induction false} KindsStay(s: State, steps: seq<Step>)
    requires Runs(s, steps)
    ensures var e := After(s, steps);
            e.kinds == s.kinds && |e.lookups| == |s.lookups| && |e.results| == |s.results|
    decreases |steps|
  {
    if steps != [] {
      KindsStay(Apply(s, steps[0]), steps[1..]);
    }
  }

  /** The lookup of this kind is part of the run and returned this. */
  predicate Gave(s: State, kind: Kind, host: string) {
    exists i :: 0 <= i < |s.kinds| && i < |s.results| && s.kinds[i] == kind && s.results[i] == Some(host)
  }

  /** Exactly one lookup of each kind that is enabled for the address, and none of any other. */
  ghost predicate OneOfEach(kinds: seq<Kind>, cfg: Config, isIPv6: bool) {
    forall kind :: multiset(kinds)[kind] == if IsEnabled(cfg, isIPv6, kind) then 1 else 0
  }

  lemma StartsOneOfEach(cfg: Config, isIPv6: bool)
    ensures var s := Start(cfg, isIPv6);
            OneOfEach(s.kinds, cfg, isIPv6) && |s.kinds| == |s.lookups| == |s.results|
  {
    forall kind {
      LaunchedOnce(cfg, isIPv6, kind);
    }
    hide Launched, IsEnabled;
  }

  lemma SomeoneGave(s: State, cfg: Config, isIPv6: bool, host: string)
    requires OneOfEach(s.kinds, cfg, isIPv6) && |s.kinds| == |s.results| && IsResult(s, host)
    ensures exists kind :: IsEnabled(cfg, isIPv6, kind) && Gave(s, kind, host)
  {
    var i :| 0 <= i < |s.results| && s.results[i] == Some(host);
    assert s.kinds[i] in multiset(s.kinds) && Gave(s, s.kinds[i], host);
  }

  lemma EveryoneGave(s: State, cfg: Config, isIPv6: bool, kind: Kind)
    requires OneOfEach(s.kinds, cfg, isIPv6) && |s.kinds| == |s.results| && AllEmpty(s) && IsEnabled(cfg, isIPv6, kind)
    ensures Gave(s, kind, "")
  {
    assert kind in multiset(s.kinds);
    var i :| 0 <= i < |s.kinds| && s.kinds[i] == kind;
    assert s.results[i] == Some("");
  }

  /** In every run for an address there is exactly one lookup of each kind that is enabled for
      it, and none of any other kind. A host that is answered was returned by one of them; and
      while the parent lives, no host is answered only if every enabled one returned empty. */
  lemma AnswersComeFromTheEnabled(cfg: Config, isIPv6: bool, steps: seq<Step>)
    requires Runs(Start(cfg, isIPv6), steps)
    ensures var e := After(Start(cfg, isIPv6), steps);
            && |e.kinds| == |e.lookups| == |e.results| && OneOfEach(e.kinds, cfg, isIPv6)
            && (Answered(e) && e.caller.answer != "" ==>
                  exists kind :: IsEnabled(cfg, isIPv6, kind) && Gave(e, kind, e.caller.answer))
            && (Answered(e) && e.caller.answer == "" && !e.parentCancelled ==>
                  forall kind | IsEnabled(cfg, isIPv6, kind) :: Gave(e, kind, ""))
  {
    var s, e := Start(cfg, isIPv6), After(Start(cfg, isIPv6), steps);
    StartInv(cfg, isIPv6);
    StartsOneOfEach(cfg, isIPv6);
    hide Start, Inv, IsEnabled, Gave, IsResult, AllEmpty, AllDone, OneOfEach;
    KindsStay(s, steps);
    FirstResultWins(s, steps);
    hide Runs, After;
    if Answered(e) && e.caller.answer != "" {
      SomeoneGave(e, cfg, isIPv6, e.caller.answer);
    } else if Answered(e) && !e.parentCancelled {
      forall kind | IsEnabled(cfg, isIPv6, kind)
        ensures Gave(e, kind, "")
      {
        EveryoneGave(e, cfg, isIPv6, kind);
      }
    }
  }

  // ---------- what becomes of the other lookups ----------

  /** The lookups are told to stop once one has sent its host and left, or the caller returned. */
  predicate StopsOthers(s: State) {
    && (s.once.Used? && s.sends != [] ==> s.cancelled)
    && (s.caller.Returned? ==> s.cancelled)
  }

  lemma {:induction false} OthersAreStopped(s: State, steps: seq<Step>)
    requires Inv(s) && StopsOthers(s) && Runs(s, steps)
    ensures StopsOthers(After(s, steps))
    decreases |steps|
  {
    if steps != [] {
      InvStep(s, steps[0]);
      StopStep(s, steps[0]);
      OthersAreStopped(Apply(s, steps[0]), steps[1..]);
    }
  }

  lemma StopStep(s: State, step: Step)
    requires Inv(s) && StopsOthers(s) && Enabled(s, step)
    ensures StopsOthers(Apply(s, step))
  {
    assert ByLookup(step) ==> LookupInv(s, step.i);
  }

  /** The caller does not wait for them: as soon as one lookup has found a host, it can be
      answered while all others are still looking. */
  lemma FirstHostIsEnough(cfg: Config, isIPv6: bool, i: nat, host: string) returns (steps: seq<Step>)
    requires i < |Launched(cfg, isIPv6)| && host != ""
    ensures var s := Start(cfg, isIPv6);
            && Runs(s, steps) && After(s, steps).caller == Returning(host)
            && |After(s, steps).lookups| == |s.lookups|
            && forall j :: 0 <= j < |s.lookups| && j != i ==> After(s, steps).lookups[j] == Looking
  {
    var s0 := Start(cfg, isIPv6);
    assert AtLookup(s0, i) && s0.lookups[i] == Looking;
    assert s0.once.Unused? && s0.channel.None? && s0.caller == Waiting;
    assert forall j :: 0 <= j < |s0.lookups| ==> s0.lookups[j] == Looking;
    hide Runs, After, Start, Launched;
    var s1 := Apply(s0, Return(i, host));
    var s2 := Apply(s1, EnterOnce(i));
    var s3 := Apply(s2, Send(i));
    Last(s3, TakeHost);
    steps := [TakeHost];
    Before(s2, Send(i), steps);
    steps := [Send(i)] + steps;
    Before(s1, EnterOnce(i), steps);
    steps := [EnterOnce(i)] + steps;
    Before(s0, Return(i, host), steps);
    steps := [Return(i, host)] + steps;
  }

  /** A caller still waiting when every lookup is done and nothing was sent finds nothing. */
  lemma CallerFindsNothing(s: State) returns (steps: seq<Step>)
    requires AllDone(s) && !s.finished && s.caller == Waiting && s.channel.None?
    ensures Runs(s, steps) && After(s, steps) == s.(finished := true, caller := Returning(""))
  {
    hide Runs, After, AllDone;
    var s1 := s.(finished := true);
    var s2 := s1.(caller := Checking);
    Last(s2, FindNothing);
    steps := [FindNothing];
    Before(s1, SeeFinished, steps);
    steps := [SeeFinished] + steps;
    Before(s, CloseFinished, steps);
    steps := [CloseFinished] + steps;
  }

  /** The parent was cancelled; the first j lookups are done, and what they found was dropped. */
  function Dropped(kinds: seq<Kind>, hosts: seq<string>, j: nat, once: Once): State {
    State(kinds, seq(|hosts|, i => if i < j then Done else Looking),
          seq(|hosts|, i requires 0 <= i < |hosts| => if i < j then Some(hosts[i]) else None),
          once, None, [], true, true, false, Waiting)
  }

  lemma ThenDone(kinds: seq<Kind>, hosts: seq<string>, j: nat, once: Once, s: State, rest: seq<Step>) returns (steps: seq<Step>)
    requires j < |hosts| && Runs(Dropped(kinds, hosts, j + 1, once), rest)
    requires s == Dropped(kinds, hosts, j + 1, once).(lookups := Dropped(kinds, hosts, j, once).lookups[j := Leaving])
    ensures Runs(s, steps) && After(s, steps) == After(Dropped(kinds, hosts, j + 1, once), rest)
  {
    assert Apply(s, WaitGroupDone(j)) == Dropped(kinds, hosts, j + 1, once);
    hide Runs, After;
    Before(s, WaitGroupDone(j), rest);
    steps := [WaitGroupDone(j)] + rest;
  }

  /** From there on the other lookups' hosts are dropped as well. */
  lemma {:induction false} DropOthers(kinds: seq<Kind>, hosts: seq<string>, j: nat, once: Once) returns (steps: seq<Step>)
    requires j <= |hosts| && !once.Busy?
    ensures Runs(Dropped(kinds, hosts, j, once), steps)
    ensures var e := After(Dropped(kinds, hosts, j, once), steps);
            e.caller == Returning("") && e.results == Dropped(kinds, hosts, |hosts|, once).results
    decreases |hosts| - j
  {
    var s0 := Dropped(kinds, hosts, j, once);
    if j == |hosts| {
      steps := CallerFindsNothing(s0);
    } else {
      hide Runs, After;
      var host := hosts[j];
      var next := if host != "" && once.Unused? then Used else once;
      steps := DropOthers(kinds, hosts, j + 1, next);
      var s1 := Apply(s0, Return(j, host));
      assert s1.results == Dropped(kinds, hosts, j + 1, next).results;
      if host == "" {
        steps := ThenDone(kinds, hosts, j, next, s1, steps);
      } else if once.Unused? {
        var s2 := Apply(s1, EnterOnce(j));
        steps := ThenDone(kinds, hosts, j, next, Apply(s2, GiveUp(j)), steps);
        Before(s2, GiveUp(j), steps);
        steps := [GiveUp(j)] + steps;
        Before(s1, EnterOnce(j), steps);
        steps := [EnterOnce(j)] + steps;
      } else {
        steps := ThenDone(kinds, hosts, j, next, Apply(s1, EnterOnce(j)), steps);
        Before(s1, EnterOnce(j), steps);
        steps := [EnterOnce(j)] + steps;
      }
      Before(s0, Return(j, host), steps);
      steps := [Return(j, host)] + steps;
    }
  }

  /** With a cancelled parent everything found may be dropped: under every configuration and
      whatever the lookups return, some schedule answers with no host. */
  lemma CancelledParentDropsHosts(cfg: Config, isIPv6: bool, hosts: seq<string>) returns (steps: seq<Step>)
    requires |hosts| == |Launched(cfg, isIPv6)|
    ensures var s := Start(cfg, isIPv6);
            && Runs(s, steps) && After(s, steps).caller == Returning("")
            && |After(s, steps).results| == |hosts|
            && forall i :: 0 <= i < |hosts| ==> After(s, steps).results[i] == Some(hosts[i])
  {
    var s := Start(cfg, isIPv6);
    steps := DropOthers(Launched(cfg, isIPv6), hosts, 0, Unused);
    assert Apply(s, ParentCancel) == Dropped(Launched(cfg, isIPv6), hosts, 0, Unused);
    Before(s, ParentCancel, steps);
    steps := [ParentCancel] + steps;
  }

  lemma Last(s: State, step: Step)
    requires Enabled(s, step)
    ensures Runs(s, [step]) && After(s, [step]) == Apply(s, step)
  {
    assert Runs(Apply(s, step), []);
  }

  lemma Before(s: State, step: Step, rest: seq<Step>)
    requires Enabled(s, step) && Runs(Apply(s, step), rest)
    ensures Runs(s, [step] + rest) && After(s, [step] + rest) == After(Apply(s, step), rest)
  {
    assert ([step] + rest)[1..] == rest;
  }

  // ---------- the caller always returns ----------

  function LookupRank(l: Lookup): nat {
    match l
    case Looking => 5
    case AtOnce(_) => 4
    case Selecting(_) => 3
    case Sent => 2
    case Leaving => 1
    case Done => 0
  }

  function LookupsRank(ls: seq<Lookup>): nat {
    if ls == [] then 0 else LookupRank(ls[0]) + LookupsRank(ls[1..])
  }

  /** The steps that can still be taken, other than cancelling the parent. */
  function Rank(s: State): nat {
    LookupsRank(s.lookups) + (if s.finished then 0 else 1)
    + match s.caller {
        case Waiting => 3
        case Checking => 2
        case Returning(_) => 1
        case Returned(_) => 0
      }
  }

  lemma {:induction false} LookupsRankUpdate(ls: seq<Lookup>, i: nat, l: Lookup)
    requires i < |ls|
    ensures LookupsRank(ls[i := l]) == LookupsRank(ls) - LookupRank(ls[i]) + LookupRank(l)
    decreases |ls|
  {
    if i > 0 {
      LookupsRankUpdate(ls[1..], i - 1, l);
      assert ls[i := l][1..] == ls[1..][i - 1 := l];
    }
  }

  lemma EveryStepCounts(s: State, step: Step)
    requires Inv(s) && Enabled(s, step)
    ensures step.ParentCancel? || Rank(Apply(s, step)) < Rank(s)
  {
    hide SendInv, CallerInv, LossInv;
    if ByLookup(step) {
      LookupsCount(s, step);
    }
    hide LookupsRank, Inv;
  }

  lemma LookupsCount(s: State, step: Step)
    requires OnceInv(s) && Enabled(s, step) && ByLookup(step)
    ensures LookupsRank(Apply(s, step).lookups) < LookupsRank(s.lookups)
  {
    assert LookupInv(s, step.i);
    LookupsRankUpdate(s.lookups, step.i, Apply(s, step).lookups[step.i]);
    hide LookupsRank, OnceInv;
  }

  /** The steps other than cancelling the parent. */
  function Own(steps: seq<Step>): nat {
    if steps == [] then 0 else Own(steps[1..]) + if steps[0].ParentCancel? then 0 else 1
  }

  lemma {:induction false} OwnExactly(steps: seq<Step>)
    ensures (forall step <- steps :: !step.ParentCancel?) ==> Own(steps) == |steps|
    ensures (forall step <- steps :: step.ParentCancel?) ==> Own(steps) == 0
    decreases |steps|
  {
    if steps != [] {
      assert steps[0] in steps && forall step <- steps[1..] :: step in steps;
      OwnExactly(steps[1..]);
    }
  }

  /** A schedule takes at most as many steps of its own as the start's rank. */
  lemma {:induction false} SchedulesAreBounded(s: State, steps: seq<Step>)
    requires Inv(s) && Runs(s, steps)
    ensures Inv(After(s, steps)) && Own(steps) + Rank(After(s, steps)) <= Rank(s)
    decreases |steps|
  {
    if steps != [] {
      hide Inv, Rank;
      InvStep(s, steps[0]);
      EveryStepCounts(s, steps[0]);
      if steps[0].ParentCancel? {
        CancelKeepsRank(s);
      }
      SchedulesAreBounded(Apply(s, steps[0]), steps[1..]);
    }
  }

  lemma CancelKeepsRank(s: State)
    ensures Rank(Apply(s, ParentCancel)) == Rank(s)
  {
  }

  /** A schedule that has nothing left to do, its lookup functions having returned, ends with
      an answer. With `SchedulesAreBounded`, every schedule in which they return does. */
  lemma EveryScheduleAnswers(s: State, steps: seq<Step>)
    requires Inv(s) && Runs(s, steps)
    requires var e := After(s, steps);
             && (forall i :: 0 <= i < |e.lookups| ==> e.lookups[i] != Looking)
             && forall step | Enabled(e, step) :: step.ParentCancel?
    ensures After(s, steps).caller.Returned? && Own(steps) <= Rank(s)
  {
    SchedulesAreBounded(s, steps);
    var e := After(s, steps);
    if !e.caller.Returned? {
      hide Inv;
      NeverStuck(e);
    }
  }

  /** No deadlock: until the caller has returned, a lookup function is still looking or some
      step can be taken. */
  lemma NeverStuck(s: State)
    requires Inv(s) && !s.caller.Returned?
    requires forall i :: 0 <= i < |s.lookups| ==> s.lookups[i] != Looking
    ensures exists step :: Enabled(s, step) && !step.ParentCancel?
  {
    if s.once.Busy? {
      var i := s.once.runner;
      assert Enabled(s, if s.lookups[i].Selecting? then Send(i) else CancelOthers(i));
    } else if i :| 0 <= i < |s.lookups| && s.lookups[i] != Done {
      assert LookupInv(s, i);
      assert Enabled(s, if s.lookups[i].AtOnce? then EnterOnce(i) else WaitGroupDone(i));
    } else if !s.finished {
      assert Enabled(s, CloseFinished);
    } else {
      assert Enabled(s, match s.caller
                        case Waiting => SeeFinished
                        case Checking => if s.channel.Some? then TakeHost else FindNothing
                        case Returning(_) => DeferredCancel);
    }
  }
}
