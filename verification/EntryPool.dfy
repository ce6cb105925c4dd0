/** Recycled log entries: the pool, and the line processor that borrows from it. */
module EntryPool {
  import opened Wrappers
  import opened Models

  /** The contents of an entry. */
  datatype Snapshot = Snapshot(fields: Fields, logLine: string, timestamp: Option<int>, sourcePath: string, app: string)

  /** The arguments one line is processed with; `ts` is None for no or a zero timestamp. */
  datatype Job = Job(line: string, ts: Option<int>, sourcePath: string, app: string)

  /** What the pipeline should be given: an entry made for this line alone. */
  function EntryFor(job: Job): Snapshot {
    Snapshot(map[], job.line, job.ts, job.sourcePath, job.app)
  }

  /** Released entries keep their line and source path, and nothing else. */
  predicate IsClean(e: Snapshot) {
    e.fields == map[] && e.timestamp == None && e.app == ""
  }

  function Filled(e: Snapshot, job: Job): Snapshot {
    e.(logLine := job.line, sourcePath := job.sourcePath, app := job.app,
       timestamp := if job.ts.Some? then job.ts else e.timestamp)
  }

  function Cleaned(e: Snapshot): Snapshot {
    e.(fields := map[], timestamp := None, app := "")
  }

  // ---------- every interleaving of workers ----------

  datatype Worker =
    | Idle
    | Fetched(id: nat, job: Job)
    | Ready(id: nat, job: Job)   // about to run the pipeline
    | Ran(id: nat)               // about to release
    | Wiped(id: nat)             // about to put it back

  datatype State = State(
    pool: seq<nat>,
    contents: seq<Snapshot>,     // of every entry, pooled or held
    workers: seq<Worker>,
    given: seq<(Job, Snapshot)>) // what the pipeline was given for which line

  datatype Step =
    | Acquire(w: nat, job: Job)
    | Fill(w: nat)
    | Run(w: nat, out: Snapshot)  // the pipeline and the backend leave anything in the entry
    | Wipe(w: nat)
    | PutBack(w: nat)

  predicate Enabled(s: State, step: Step) {
    && step.w < |s.workers|
    && match step
       case Acquire(w, _) => s.workers[w] == Idle && s.pool != []
       case Fill(w) => s.workers[w].Fetched? && s.workers[w].id < |s.contents|
       case Run(w, _) => s.workers[w].Ready? && s.workers[w].id < |s.contents|
       case Wipe(w) => s.workers[w].Ran? && s.workers[w].id < |s.contents|
       case PutBack(w) => s.workers[w].Wiped?
  }

  function Apply(s: State, step: Step): State
    requires Enabled(s, step)
  {
    var w := step.w;
    match step
    case Acquire(_, job) => s.(pool := s.pool[1..], workers := s.workers[w := Fetched(s.pool[0], job)])
    case Fill(_) =>
      var id, job := s.workers[w].id, s.workers[w].job;
      s.(contents := s.contents[id := Filled(s.contents[id], job)], workers := s.workers[w := Ready(id, job)])
    case Run(_, out) =>
      var id, job := s.workers[w].id, s.workers[w].job;
      s.(contents := s.contents[id := out], workers := s.workers[w := Ran(id)],
         given := s.given + [(job, s.contents[id])])
    case Wipe(_) =>
      var id := s.workers[w].id;
      s.(contents := s.contents[id := Cleaned(s.contents[id])], workers := s.workers[w := Wiped(id)])
    case PutBack(_) => s.(pool := s.pool + [s.workers[w].id], workers := s.workers[w := Idle])
  }

  predicate Runs(s: State, steps: seq<Step>)
    decreases |steps|
  {
    steps == [] || (Enabled(s, steps[0]) && Runs(Apply(s, steps[0]), steps[1..]))
  }

  function After(s: State, steps: seq<Step>): State
    requires Runs(s, steps)
    decreases |steps|
  {
    if steps == [] then s else After(Apply(s, steps[0]), steps[1..])
  }

  /** A pool of fresh entries and idle workers. */
  function Start(size: nat, workers: nat): State {
    State(seq(size, i => i), seq(size, _ => Snapshot(map[], "", None, "", "")), seq(workers, _ => Idle), [])
  }

  function HeldCount(workers: seq<Worker>): nat {
    if workers == [] then 0 else HeldCount(workers[1..]) + if workers[0] == Idle then 0 else 1
  }

  predicate Holds(worker: Worker, id: nat) {
    worker != Idle && worker.id == id
  }

  predicate Distinct(pool: seq<nat>, n: nat) {
    && (forall i, j :: 0 <= i < j < |pool| ==> pool[i] != pool[j])
    && (forall id <- pool :: id < n)
  }

  /** No worker holds what another holds or what is pooled. */
  ghost predicate Exclusive(s: State, w: nat)
    requires w < |s.workers|
  {
    s.workers[w] != Idle ==>
      var id := s.workers[w].id;
      id < |s.contents| && id !in s.pool && forall v: nat | v < |s.workers| && v != w :: !Holds(s.workers[v], id)
  }

  /** Nobody shares an entry. */
  ghost predicate Separate(s: State) {
    Distinct(s.pool, |s.contents|) && forall w: nat | w < |s.workers| :: Exclusive(s, w)
  }

  predicate WorkerInv(s: State, worker: Worker) {
    match worker
    case Fetched(id, _) => id < |s.contents| && IsClean(s.contents[id])
    case Ready(id, job) => id < |s.contents| && s.contents[id] == EntryFor(job)
    case Wiped(id) => id < |s.contents| && IsClean(s.contents[id])
    case _ => true
  }

  ghost predicate Inv(s: State) {
    && Separate(s)
    && |s.pool| + HeldCount(s.workers) == |s.contents|
    && (forall id <- s.pool :: IsClean(s.contents[id]))
    && (forall w :: 0 <= w < |s.workers| ==> WorkerInv(s, s.workers[w]))
    && (forall g <- s.given :: g.1 == EntryFor(g.0))
  }

  lemma {:induction false} HeldCountUpdate(workers: seq<Worker>, w: nat, worker: Worker)
    requires w < |workers|
    ensures HeldCount(workers[w := worker]) ==
            HeldCount(workers) - (if workers[w] == Idle then 0 else 1) + (if worker == Idle then 0 else 1)
    decreases |workers|
  {
    if w > 0 {
      HeldCountUpdate(workers[1..], w - 1, worker);
      assert workers[w := worker][1..] == workers[1..][w - 1 := worker];
    }
  }

  lemma {:induction false} NoneHeld(n: nat)
    ensures HeldCount(seq(n, _ => Idle)) == 0
  {
    if n > 0 {
      assert seq(n, _ => Idle)[1..] == seq(n - 1, _ => Idle);
      NoneHeld(n - 1);
    }
  }

  lemma StartInv(size: nat, workers: nat)
    ensures Inv(Start(size, workers))
  {
    NoneHeld(workers);
  }

  lemma DistinctTail(pool: seq<nat>, n: nat)
    requires Distinct(pool, n) && pool != []
    ensures Distinct(pool[1..], n) && pool[0] !in pool[1..] && pool[0] < n && forall id <- pool[1..] :: id in pool
  {
    assert forall i :: 0 <= i < |pool| - 1 ==> pool[1..][i] == pool[i + 1];
    assert pool[0] in pool;
    assert forall id <- pool[1..] :: id in pool;
  }

  lemma DistinctMore(pool: seq<nat>, n: nat, id: nat)
    requires Distinct(pool, n) && id !in pool && id < n
    ensures Distinct(pool + [id], n) && forall g :: g in pool + [id] <==> g in pool || g == id
  {
    var more := pool + [id];
    assert forall i :: 0 <= i < |pool| ==> more[i] == pool[i] && pool[i] in pool;
    assert more[|pool|] == id;
  }

  lemma AcquireExclusive(s: State, w: nat, job: Job, v: nat)
    requires Separate(s) && Enabled(s, Acquire(w, job)) && v < |s.workers|
    ensures Exclusive(Apply(s, Acquire(w, job)), v)
  {
    var s', first := Apply(s, Acquire(w, job)), s.pool[0];
    DistinctTail(s.pool, |s.contents|);
    hide Distinct;
    assert first in s.pool && Exclusive(s, v);
    forall u: nat | u < |s.workers|
      ensures s.workers[u] != Idle ==> s.workers[u].id != first
    {
      assert Exclusive(s, u);
    }
    if v == w {
      assert forall u: nat | u < |s.workers| && u != w :: s'.workers[u] == s.workers[u];
    } else {
      assert s'.workers[v] == s.workers[v];
    }
  }

  lemma PutBackExclusive(s: State, w: nat, v: nat)
    requires Separate(s) && Enabled(s, PutBack(w)) && v < |s.workers|
    ensures Exclusive(Apply(s, PutBack(w)), v)
  {
    hide Distinct;
    assert Exclusive(s, v) && Exclusive(s, w);
    if v != w && s.workers[v] != Idle {
      assert !Holds(s.workers[w], s.workers[v].id);
    }
  }

  lemma SeparateStep(s: State, step: Step)
    requires Separate(s) && Enabled(s, step)
    ensures Separate(Apply(s, step))
  {
    var s', w := Apply(s, step), step.w;
    assert Exclusive(s, w);
    if step.Acquire? {
      DistinctTail(s.pool, |s.contents|);
    } else if step.PutBack? {
      DistinctMore(s.pool, |s.contents|, s.workers[w].id);
    }
    hide Distinct;
    forall v: nat | v < |s'.workers|
      ensures Exclusive(s', v)
    {
      match step
      case Acquire(_, job) => AcquireExclusive(s, w, job, v);
      case PutBack(_) => PutBackExclusive(s, w, v);
      case _ => StayExclusive(s, step, v);
    }
  }

  lemma StayExclusive(s: State, step: Step, v: nat)
    requires Separate(s) && Enabled(s, step) && !step.Acquire? && !step.PutBack? && v < |s.workers|
    ensures Exclusive(Apply(s, step), v)
  {
    hide Distinct;
    assert Exclusive(s, v);
    var s' := Apply(s, step);
    assert forall u: nat, id: nat | u < |s.workers| :: Holds(s'.workers[u], id) <==> Holds(s.workers[u], id);
  }

  lemma WorkersStep(s: State, step: Step)
    requires Inv(s) && Enabled(s, step)
    ensures forall v :: 0 <= v < |s.workers| ==> WorkerInv(Apply(s, step), Apply(s, step).workers[v])
  {
    var s', w := Apply(s, step), step.w;
    assert WorkerInv(s, s.workers[w]);
    forall v | 0 <= v < |s.workers|
      ensures WorkerInv(s', s'.workers[v])
    {
      if v != w {
        assert WorkerInv(s, s.workers[v]) && Exclusive(s, v) && s'.workers[v] == s.workers[v];
        assert s.workers[v] != Idle ==> !Holds(s.workers[w], s.workers[v].id);
      } else if step.Acquire? {
        assert s.pool[0] in s.pool;
      }
    }
  }

  lemma InvStep(s: State, step: Step)
    requires Inv(s) && Enabled(s, step)
    ensures Inv(Apply(s, step))
  {
    var s', w := Apply(s, step), step.w;
    HeldCountUpdate(s.workers, w, s'.workers[w]);
    SeparateStep(s, step);
    WorkersStep(s, step);
    assert WorkerInv(s, s.workers[w]) && Exclusive(s, w);
    hide Separate;
  }

  /** Recycling is invisible, in every schedule: pooled and held entries together are the
      whole pool, and what the pipeline is given for a line depends on that line's own
      arguments and on nothing processed before. */
  lemma {:induction false} Recycling(s: State, steps: seq<Step>)
    requires Inv(s) && Runs(s, steps)
    ensures var e := After(s, steps);
            && |e.pool| + HeldCount(e.workers) == |e.contents|
            && (forall id <- e.pool :: id < |e.contents| && IsClean(e.contents[id]))
            && (forall g <- e.given :: g.1 == EntryFor(g.0))
    decreases |steps|
  {
    if steps != [] {
      InvStep(s, steps[0]);
      Recycling(Apply(s, steps[0]), steps[1..]);
    }
  }

  // ---------- every line is given once ----------

  /** The lines the workers took on. */
  function TakenOn(steps: seq<Step>): multiset<Job> {
    if steps == [] then multiset{}
    else
      var step := steps[|steps| - 1];
      TakenOn(steps[..|steps| - 1]) + if step.Acquire? then multiset{step.job} else multiset{}
  }

  /** Those not given to the pipeline yet. */
  function Waiting(workers: seq<Worker>): multiset<Job> {
    if workers == [] then multiset{}
    else
      Waiting(workers[..|workers| - 1]) + WaitsFor(workers[|workers| - 1])
  }

  function GivenLines(given: seq<(Job, Snapshot)>): multiset<Job> {
    if given == [] then multiset{}
    else GivenLines(given[..|given| - 1]) + multiset{given[|given| - 1].0}
  }

  function WaitsFor(worker: Worker): multiset<Job> {
    if worker.Fetched? || worker.Ready? then multiset{worker.job} else multiset{}
  }

  lemma {:induction false} WaitingUpdate(workers: seq<Worker>, w: nat, worker: Worker)
    requires w < |workers|
    ensures Waiting(workers[w := worker]) + WaitsFor(workers[w]) == Waiting(workers) + WaitsFor(worker)
    decreases |workers|
  {
    hide WaitsFor;
    var n := |workers| - 1;
    var updated := workers[w := worker];
    assert Waiting(updated) == Waiting(updated[..n]) + WaitsFor(updated[n]);
    if w < n {
      WaitingUpdate(workers[..n], w, worker);
      assert updated[..n] == workers[..n][w := worker];
      SwapLast(Waiting(updated[..n]), WaitsFor(workers[w]), WaitsFor(workers[n]), Waiting(workers[..n]), WaitsFor(worker));
    } else {
      assert updated[..n] == workers[..n];
    }
  }

  lemma SwapLast(a: multiset<Job>, b: multiset<Job>, c: multiset<Job>, d: multiset<Job>, e: multiset<Job>)
    requires a + b == d + e
    ensures (a + c) + b == (d + c) + e
  {
    assert (a + c) + b == (a + b) + c && (d + c) + e == (d + e) + c;
  }

  lemma GivenMore(given: seq<(Job, Snapshot)>, g: (Job, Snapshot))
    ensures GivenLines(given + [g]) == GivenLines(given) + multiset{g.0}
  {
    assert (given + [g])[..|given|] == given;
  }

  /** Who waits after a step. */
  lemma WaitingStep(s: State, step: Step)
    requires Enabled(s, step)
    ensures var before, after := Waiting(s.workers), Waiting(Apply(s, step).workers);
            && (step.Acquire? ==> after == before + multiset{step.job})
            && (step.Run? ==> after + multiset{s.workers[step.w].job} == before)
            && (!step.Acquire? && !step.Run? ==> after == before)
  {
    var s', w := Apply(s, step), step.w;
    WorkerChanges(s, step);
    hide Apply, Enabled, WaitsFor;
    WaitingUpdate(s.workers, w, s'.workers[w]);
    hide Waiting;
    Cancel(Waiting(s'.workers), Waiting(s.workers), WaitsFor(s.workers[w]), WaitsFor(s'.workers[w]));
  }

  lemma WorkerChanges(s: State, step: Step)
    requires Enabled(s, step)
    ensures step.w < |s.workers| == |Apply(s, step).workers|
    ensures var worker, later := s.workers[step.w], Apply(s, step).workers[step.w];
            && Apply(s, step).workers == s.workers[step.w := later]
            && (step.Acquire? ==> WaitsFor(worker) == multiset{} && WaitsFor(later) == multiset{step.job})
            && (step.Run? ==>
                  && (worker.Fetched? || worker.Ready?)
                  && WaitsFor(worker) == multiset{worker.job} && WaitsFor(later) == multiset{})
            && (!step.Acquire? && !step.Run? ==> WaitsFor(worker) == WaitsFor(later))
  {
  }

  lemma Cancel(a: multiset<Job>, b: multiset<Job>, c: multiset<Job>, d: multiset<Job>)
    requires a + c == b + d
    ensures c == d ==> a == b
    ensures c == multiset{} ==> a == b + d
    ensures d == multiset{} ==> a + c == b
  {
    assert (a + c) - c == a && (b + d) - d == b;
    assert a + multiset{} == a && b + multiset{} == b;
  }

  lemma LinesStep(s: State, step: Step)
    requires Enabled(s, step)
    ensures var s' := Apply(s, step);
            GivenLines(s'.given) + Waiting(s'.workers) ==
            GivenLines(s.given) + Waiting(s.workers) + if step.Acquire? then multiset{step.job} else multiset{}
  {
    var s', w := Apply(s, step), step.w;
    WaitingStep(s, step);
    var given, before, after := GivenLines(s.given), Waiting(s.workers), Waiting(s'.workers);
    if step.Run? {
      var g := (s.workers[w].job, s.contents[s.workers[w].id]);
      GivenMore(s.given, g);
      assert (given + multiset{g.0}) + after == given + (after + multiset{g.0});
    }
    hide Waiting, GivenLines;
    assert given + before + multiset{} == given + before;
    assert step.Acquire? ==> given + (before + multiset{step.job}) == given + before + multiset{step.job};
  }

  lemma {:induction false} AfterSnoc(s: State, steps: seq<Step>)
    requires Runs(s, steps) && steps != []
    ensures var n := |steps| - 1;
            Runs(s, steps[..n]) && Enabled(After(s, steps[..n]), steps[n])
            && After(s, steps) == Apply(After(s, steps[..n]), steps[n])
    decreases |steps|
  {
    var n := |steps| - 1;
    if n == 0 {
      assert steps[..0] == [] && steps[1..] == [];
    } else {
      AfterSnoc(Apply(s, steps[0]), steps[1..]);
      assert steps[1..][..n - 1] == steps[..n][1..];
    }
  }

  /** Conservation: in every schedule each line that a worker took on was given to the pipeline
      once or is still waiting for it, and no other line was given. */
  lemma {:induction false} EveryLineOnce(s: State, steps: seq<Step>)
    requires Runs(s, steps)
    ensures var e := After(s, steps);
            GivenLines(e.given) + Waiting(e.workers) == GivenLines(s.given) + Waiting(s.workers) + TakenOn(steps)
    decreases |steps|
  {
    if steps != [] {
      var n := |steps| - 1;
      AfterSnoc(s, steps);
      EveryLineOnce(s, steps[..n]);
      LinesStep(After(s, steps[..n]), steps[n]);
      hide Waiting, GivenLines, Runs, After, Apply;
    }
  }

  lemma Nothing(s: State)
    ensures Runs(s, []) && After(s, []) == s
  {
  }

  lemma Before(s: State, step: Step, rest: seq<Step>)
    requires Enabled(s, step) && Runs(Apply(s, step), rest)
    ensures Runs(s, [step] + rest) && After(s, [step] + rest) == After(Apply(s, step), rest)
  {
    assert ([step] + rest)[1..] == rest;
  }

  /** An idle worker can process a line, from any pool that is not empty: then the line was given
      as an entry of its own, and the entry is back in the pool, clean. */
  lemma OneLine(s: State, w: nat, job: Job, out: Snapshot) returns (steps: seq<Step>)
    requires Inv(s) && w < |s.workers| && s.workers[w] == Idle && s.pool != []
    ensures Runs(s, steps)
    ensures var e, id := After(s, steps), s.pool[0];
            && e.given == s.given + [(job, EntryFor(job))] && e.workers == s.workers && e.pool == s.pool[1..] + [id]
            && id < |s.contents| == |e.contents| && IsClean(e.contents[id])
            && e.contents[id].logLine == out.logLine && e.contents[id].sourcePath == out.sourcePath
            && forall i :: 0 <= i < |s.contents| && i != id ==> e.contents[i] == s.contents[i]
  {
    assert s.pool[0] in s.pool && IsClean(s.contents[s.pool[0]]);
    hide Runs, After, Inv;
    var s1 := Apply(s, Acquire(w, job));
    var s2 := Apply(s1, Fill(w));
    var s3 := Apply(s2, Run(w, out));
    var s4 := Apply(s3, Wipe(w));
    var s5 := Apply(s4, PutBack(w));
    steps := [];
    Nothing(s5);
    Before(s4, PutBack(w), steps);
    steps := [PutBack(w)] + steps;
    Before(s3, Wipe(w), steps);
    steps := [Wipe(w)] + steps;
    Before(s2, Run(w, out), steps);
    steps := [Run(w, out)] + steps;
    Before(s1, Fill(w), steps);
    steps := [Fill(w)] + steps;
    Before(s, Acquire(w, job), steps);
    steps := [Acquire(w, job)] + steps;
  }

  // ---------- the pool and the processor as they run ----------

  function Contents(e: LogEntry): Snapshot
    reads e
  {
    Snapshot(e.fields, e.logLine, e.timestamp, e.sourcePath, e.app)
  }

  /** Pooled and held entries are the whole pool, each in one place. */
  ghost predicate Placed(pool: seq<LogEntry>, held: set<LogEntry>, all: set<LogEntry>) {
    && (forall i, j :: 0 <= i < j < |pool| ==> pool[i] != pool[j])
    && (forall e <- all :: e in pool || e in held)
    && (forall e <- pool :: e in all && e !in held)
    && held <= all && |pool| + |held| == |all|
  }

  lemma Taken(pool: seq<LogEntry>, held: set<LogEntry>, all: set<LogEntry>)
    requires Placed(pool, held, all) && pool != []
    ensures Placed(pool[1..], held + {pool[0]}, all) && pool[0] in all && pool[0] !in held && pool[0] !in pool[1..]
  {
    assert pool[0] in pool;
    assert forall i :: 0 <= i < |pool[1..]| ==> pool[1..][i] == pool[i + 1];
    assert forall e <- pool :: e == pool[0] || e in pool[1..];
  }

  lemma Returned(pool: seq<LogEntry>, held: set<LogEntry>, all: set<LogEntry>, obj: LogEntry)
    requires Placed(pool, held, all) && obj in held
    ensures Placed(pool + [obj], held - {obj}, all)
  {
    var p := pool + [obj];
    assert forall i :: 0 <= i < |pool| ==> p[i] == pool[i] && pool[i] in pool;
    assert p[|pool|] == obj;
    assert forall e <- p :: e in pool || e == obj;
  }

  lemma Newcomer(pool: seq<LogEntry>, all: set<LogEntry>, obj: LogEntry)
    requires Placed(pool, {}, all) && obj !in all
    ensures Placed(pool, {obj}, all + {obj})
  {
    assert obj !in pool;
  }

  ghost predicate AllClean(entries: seq<LogEntry>)
    reads entries
  {
    forall e <- entries :: IsClean(Contents(e))
  }

  class LogEntryPool {
    const size: nat
    const all: set<LogEntry>            // the entries the pool was filled with
    var pool: seq<LogEntry>
    var counts: seq<nat>                // sent on fieldCountChan
    var idealFieldCount: nat
    ghost var held: set<LogEntry>

    ghost predicate Valid()
      reads this, pool
    {
      Placed(pool, held, all) && |all| == size && AllClean(pool)
    }

    constructor (size: nat)
      ensures Valid() && fresh(all) && this.size == size && |pool| == size
    {
      var entries: seq<LogEntry> := [];
      var every: set<LogEntry> := {};
      for i := 0 to size
        invariant |every| == i && fresh(every) && Placed(entries, {}, every) && AllClean(entries)
      {
        hide Placed;
        var e := new LogEntry();
        Newcomer(entries, every, e);
        Returned(entries, {e}, every + {e}, e);
        entries, every := entries + [e], every + {e};
      }
      this.size, all, pool, held := size, every, entries, {};
      counts, idealFieldCount := [], 0;
    }

    /** Blocks while the pool is empty. */
    method Acquire() returns (obj: LogEntry)
      requires Valid() && pool != []
      modifies this
      ensures Valid() && obj in all && obj in held && [obj] + pool == old(pool) && held == old(held) + {obj}
      ensures obj !in pool && obj !in old(held) && IsClean(Contents(obj)) && unchanged(all)
    {
      hide Placed;
      Taken(pool, held, all);
      obj := pool[0];
      assert AllClean(pool[1..]) && [obj] + pool[1..] == pool;
      pool := pool[1..];
      held := held + {obj};
    }

    method Release(obj: LogEntry)
      requires Valid() && obj in held
      modifies this, obj
      ensures Valid() && pool == old(pool) + [obj] && held == old(held) - {obj}
      ensures Contents(obj) == old(Cleaned(Contents(obj)))
    {
      Returned(pool, held, all, obj);
      assert obj !in pool;
      hide Placed;
      AdjustFieldSize(obj);
      obj.timestamp := None;
      obj.app := "";
      assert AllClean(pool) && IsClean(Contents(obj));
      pool := pool + [obj];
      held := held - {obj};
    }

    /** Oversized maps are replaced, others emptied in place; the count is reported. */
    method AdjustFieldSize(obj: LogEntry)
      modifies this`counts, obj`fields
      ensures obj.fields == map[]
      ensures counts == old(counts) + if |old(obj.fields)| > 0 then [|old(obj.fields)|] else []
    {
      if |obj.fields| > 0 {
        counts := counts + [|obj.fields|];
      }
      if |obj.fields| > idealFieldCount && idealFieldCount < 100 {
        obj.fields := map[];
      } else {
        var todo := obj.fields.Keys;
        while todo != {}
          invariant obj.fields.Keys == todo
          invariant counts == old(counts) + if |old(obj.fields)| > 0 then [|old(obj.fields)|] else []
        {
          var k :| k in todo;
          obj.fields := obj.fields - {k};
          todo := todo - {k};
        }
      }
    }
  }

  /** Whether the pipeline keeps the line, and what it makes of the entry. */
  datatype Piped = Piped(keep: bool, entry: Snapshot)

  /** What reaches the backend for a line. */
  function SentFor(job: Job, pipeline: Snapshot -> Piped, now: int): Option<Snapshot> {
    var piped := pipeline(EntryFor(job));
    if !piped.keep then None
    else Some(if piped.entry.timestamp.None? then piped.entry.(timestamp := Some(now)) else piped.entry)
  }

  /** A line is sent exactly if the pipeline keeps it, as what the pipeline made of it; only a
      missing timestamp is filled in, with the current time. */
  lemma SentExactly(job: Job, pipeline: Snapshot -> Piped, now: int, x: Snapshot)
    ensures SentFor(job, pipeline, now) == Some(x) <==>
            var piped := pipeline(Snapshot(map[], job.line, job.ts, job.sourcePath, job.app));
            && piped.keep
            && x.fields == piped.entry.fields && x.logLine == piped.entry.logLine
            && x.sourcePath == piped.entry.sourcePath && x.app == piped.entry.app
            && x.timestamp == (if piped.entry.timestamp.Some? then piped.entry.timestamp else Some(now))
  {
  }

  method Overwrite(e: LogEntry, s: Snapshot)
    modifies e
    ensures Contents(e) == s
  {
    e.fields, e.logLine, e.timestamp, e.sourcePath, e.app := s.fields, s.logLine, s.timestamp, s.sourcePath, s.app;
  }

  method Deliver(logEntry: LogEntry, job: Job, pipeline: Snapshot -> Piped, backend: Snapshot -> bool, now: int)
    returns (sent: Option<Snapshot>, ok: bool)
    requires IsClean(Contents(logEntry))
    modifies logEntry
    ensures sent == SentFor(job, pipeline, now)
    ensures ok == (sent.None? || backend(sent.value))
  {
    logEntry.logLine := job.line;
    logEntry.sourcePath := job.sourcePath;
    logEntry.app := job.app;
    if job.ts.Some? {
      logEntry.timestamp := job.ts;
    }
    assert Contents(logEntry) == EntryFor(job);
    var piped := pipeline(Contents(logEntry));
    Overwrite(logEntry, piped.entry);
    if !piped.keep {
      return None, true;
    }
    if logEntry.timestamp.None? {
      logEntry.timestamp := Some(now);
    }
    sent := Some(Contents(logEntry));
    ok := backend(sent.value);
  }

  /** One line, through an entry from the pool: what is sent is a function of the arguments,
      whatever the entry was used for before, and the pool gets its entry back. */
  method ProcessLine(op: LogEntryPool, job: Job, pipeline: Snapshot -> Piped, backend: Snapshot -> bool, now: int)
    returns (sent: Option<Snapshot>, ok: bool)
    requires op.Valid() && op.pool != []
    modifies op, op.all
    ensures op.Valid() && op.held == old(op.held) && multiset(op.pool) == old(multiset(op.pool))
    ensures sent == SentFor(job, pipeline, now)
    ensures ok == (sent.None? || backend(sent.value))
  {
    hide Placed, AllClean;
    var logEntry := op.Acquire();
    sent, ok := Deliver(logEntry, job, pipeline, backend, now);
    op.Release(logEntry);
  }
}
