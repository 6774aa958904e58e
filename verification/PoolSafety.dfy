/** What every step of the pool keeps, whatever the schedule and whenever cancellation strikes. */
module PoolSafety {
  import opened Catalog
  import opened Pool

  // ----- where the jobs are

  function HeldBy(worker: Worker, id: int): nat {
    if Busy(worker) && worker.id == id then 1 else 0
  }

  /** The number of workers that hold job `id`. */
  function Held(workers: seq<Worker>, id: int): nat {
    if workers == [] then 0 else Held(workers[..|workers| - 1], id) + HeldBy(workers[|workers| - 1], id)
  }

  function Times(id: int, ids: seq<int>): nat {
    multiset(ids)[id]
  }

  function DoneIds(done: seq<Job>): seq<int> {
    seq(|done|, i requires 0 <= i < |done| => done[i].id)
  }

  /** The jobs leave the dispatcher and the channel in order. */
  ghost predicate InOrder(s: State) {
    s.taken + s.queue + Unsent(s.next, s.latest, s.base.Keys) == Missing(s.latest, s.base.Keys)
  }

  /** Each job taken is held by one worker or finished. */
  ghost predicate HeldOrDone(taken: seq<int>, workers: seq<Worker>, done: seq<Job>) {
    forall id :: Times(id, taken) == Held(workers, id) + Times(id, DoneIds(done))
  }

  ghost predicate Conserved(s: State) {
    InOrder(s) && HeldOrDone(s.taken, s.workers, s.done)
  }

  lemma {:induction false} HeldAfter(workers: seq<Worker>, w: nat, worker: Worker, id: int)
    requires w < |workers|
    ensures Held(workers[w := worker], id) + HeldBy(workers[w], id) == Held(workers, id) + HeldBy(worker, id)
  {
    var n := |workers| - 1;
    var after := workers[w := worker];
    if w == n {
      assert after[..n] == workers[..n];
    } else {
      HeldAfter(workers[..n], w, worker, id);
      assert after[..n] == workers[..n][w := worker];
    }
  }

  function JobIds(job: Option<Job>): seq<int> {
    match job case Some(j) => [j.id] case None => []
  }

  lemma HeldTake(taken: seq<int>, workers: seq<Worker>, done: seq<Job>, w: nat, id: int)
    requires HeldOrDone(taken, workers, done) && w < |workers| && workers[w].Idle?
    ensures HeldOrDone(taken + [id], workers[w := Fetching(id)], done)
  {
    forall x ensures Times(x, taken + [id]) == Held(workers[w := Fetching(id)], x) + Times(x, DoneIds(done)) {
      HeldAfter(workers, w, Fetching(id), x);
      assert Times(x, taken) == Held(workers, x) + Times(x, DoneIds(done));
    }
  }

  lemma LogIds(done: seq<Job>, job: Option<Job>)
    ensures DoneIds(Log(done, job)) == DoneIds(done) + JobIds(job)
  {
  }

  /** A worker that goes on lets go of its job only by finishing it. */
  lemma HeldWork(taken: seq<int>, workers: seq<Worker>, done: seq<Job>, w: nat, worker: Worker, job: Option<Job>)
    requires HeldOrDone(taken, workers, done) && w < |workers|
    requires forall x :: HeldBy(workers[w], x) == HeldBy(worker, x) + Times(x, JobIds(job))
    ensures HeldOrDone(taken, workers[w := worker], Log(done, job))
  {
    LogIds(done, job);
    forall x ensures Times(x, taken) == Held(workers[w := worker], x) + Times(x, DoneIds(Log(done, job))) {
      HeldAfter(workers, w, worker, x);
      assert Times(x, taken) == Held(workers, x) + Times(x, DoneIds(done));
    }
  }

  lemma StepKeepsOrder(world: World, s: State, step: Step)
    requires InOrder(s) && Enabled(world, s, step)
    ensures InOrder(Apply(world, s, step))
  {
    if step.Send? {
      var rest := Unsent(s.next + 1, s.latest, s.base.Keys);
      assert s.taken + s.queue + ([s.next] + rest) == s.taken + (s.queue + [s.next]) + rest;
    } else if step.Take? {
      assert s.taken + s.queue == s.taken + [s.queue[0]] + s.queue[1..];
    }
  }

  lemma ActHeld(world: World, cancelled: bool, worker: Worker, act: Act)
    requires ActFits(world, cancelled, worker, act)
    ensures forall x :: HeldBy(worker, x) ==
                        HeldBy(WorkerAfter(worker, act), x) + Times(x, JobIds(JobAfter(worker, act)))
  {
  }

  lemma StepKeepsHeld(world: World, s: State, step: Step)
    requires HeldOrDone(s.taken, s.workers, s.done) && Enabled(world, s, step)
    ensures var s' := Apply(world, s, step); HeldOrDone(s'.taken, s'.workers, s'.done)
  {
    match step
    case Take(w) => HeldTake(s.taken, s.workers, s.done, w, s.queue[0]);
    case Exit(w) => HeldWork(s.taken, s.workers, s.done, w, Exited, None);
    case Work(w, act) =>
      ActHeld(world, s.cancelled, s.workers[w], act);
      HeldWork(s.taken, s.workers, s.done, w, WorkerAfter(s.workers[w], act), JobAfter(s.workers[w], act));
    case _ =>
  }

  lemma {:induction false} HeldNothing(workers: seq<Worker>, id: int)
    requires forall w :: 0 <= w < |workers| ==> !Busy(workers[w])
    ensures Held(workers, id) == 0
  {
    if workers == [] {
    } else {
      HeldNothing(workers[..|workers| - 1], id);
    }
  }

  // ----- bounds, the channel and the dispatcher

  ghost predicate Bounded(s: State) {
    && 1 <= |s.workers| <= MAX_WORKERS
    && |s.queue| <= 2 * |s.workers|
    && 1 <= s.next
  }

  /** The channel is closed when the dispatcher is past its loop, and only then. Workers leave early
      only after cancellation. */
  ghost predicate Orderly(s: State) {
    && (s.closed <==> !s.dispatcher.Sending?)
    && (!s.dispatcher.Sending? && s.dispatcher.result == Success ==> s.next > s.latest)
    && (!s.dispatcher.Sending? && s.dispatcher.result == Cancelled ==> s.cancelled)
    && (s.dispatcher.Returned? ==> AllExited(s.workers))
    && (forall w :: 0 <= w < |s.workers| && s.workers[w] == Exited ==> s.cancelled || (s.closed && s.queue == []))
  }

  // ----- what was fetched and written

  /** The row is one the job may store: the placeholder of a number that does not exist, or the row of
      the answer, some of whose fields a cancellation may have emptied. */
  ghost predicate Storable(world: World, cancelled: bool, id: int, row: Comic) {
    match world.get(id)
    case Fetched(info) => RowFits(world, cancelled, info, row)
    case NotFound => row == Placeholder(id)
    case Failed => false
  }

  /** What a worker holds agrees with the world, except for what cancellation spoiled. */
  ghost predicate Honest(world: World, cancelled: bool, worker: Worker) {
    match worker
    case Normalising(id, info) => world.get(id) == Fetched(info)
    case Storing(id, row) => Storable(world, cancelled, id, row)
    case _ => true
  }

  /** The row is one the job may leave in the table. */
  ghost predicate MayWrite(world: World, cancelled: bool, id: int, row: Comic) {
    world.stores(id) && Storable(world, cancelled, id, row)
  }

  ghost predicate HonestJob(world: World, cancelled: bool, job: Job) {
    && (job.wrote.Some? ==> MayWrite(world, cancelled, job.id, job.wrote.value))
    && (!cancelled ==> job.wrote == Outcome(world, job.id))
  }

  ghost predicate AllHonest(world: World, s: State) {
    && (forall w :: 0 <= w < |s.workers| ==> Honest(world, s.cancelled, s.workers[w]))
    && (forall i :: 0 <= i < |s.done| ==> HonestJob(world, s.cancelled, s.done[i]))
  }

  function Replay(t: Table, done: seq<Job>): Table {
    if done == [] then t else Write(Replay(t, done[..|done| - 1]), done[|done| - 1].wrote)
  }

  function HeldInOrder(worker: Worker): seq<int> {
    match worker
    case Fetching(id) => [id]
    case Normalising(id, _) => [id]
    case Storing(id, _) => [id]
    case _ => []
  }

  /** A lone worker finishes the jobs in the order in which it takes them. */
  ghost predicate LoneOrder(taken: seq<int>, workers: seq<Worker>, done: seq<Job>) {
    |workers| == 1 ==> taken == DoneIds(done) + HeldInOrder(workers[0])
  }

  /** The table is the listed one with the finished jobs' writes, in order. */
  ghost predicate Recorded(s: State) {
    s.table == Replay(s.base, s.done)
  }

  ghost predicate Inv(world: World, s: State) {
    && Conserved(s) && Bounded(s) && Orderly(s) && AllHonest(world, s) && Recorded(s)
    && LoneOrder(s.taken, s.workers, s.done)
  }

  lemma StepKeepsBounds(world: World, s: State, step: Step)
    requires Bounded(s) && Enabled(world, s, step)
    ensures Bounded(Apply(world, s, step))
  {
  }

  lemma StepKeepsOrderly(world: World, s: State, step: Step)
    requires Orderly(s) && Enabled(world, s, step)
    ensures Orderly(Apply(world, s, step))
  {
  }

  lemma StepKeepsHonest(world: World, s: State, step: Step)
    requires AllHonest(world, s) && Enabled(world, s, step)
    ensures AllHonest(world, Apply(world, s, step))
  {
  }

  lemma ReplayLog(t: Table, done: seq<Job>, job: Option<Job>)
    ensures Replay(t, Log(done, job)) == Finish(Replay(t, done), job)
  {
    if job.Some? {
      assert (done + [job.value])[..|done|] == done;
    }
  }

  lemma StepKeepsRecord(world: World, s: State, step: Step)
    requires Recorded(s) && Enabled(world, s, step)
    ensures Recorded(Apply(world, s, step))
  {
    if step.Work? {
      ReplayLog(s.base, s.done, JobAfter(s.workers[step.w], step.act));
    }
  }

  lemma StepKeepsLoneOrder(world: World, s: State, step: Step)
    requires LoneOrder(s.taken, s.workers, s.done) && Enabled(world, s, step)
    ensures var s' := Apply(world, s, step); LoneOrder(s'.taken, s'.workers, s'.done)
  {
    if step.Work? {
      LogIds(s.done, JobAfter(s.workers[step.w], step.act));
    }
  }

  lemma StepKeepsInv(world: World, s: State, step: Step)
    requires Inv(world, s) && Enabled(world, s, step)
    ensures Inv(world, Apply(world, s, step))
  {
    StepKeepsOrder(world, s, step);
    StepKeepsHeld(world, s, step);
    StepKeepsBounds(world, s, step);
    StepKeepsOrderly(world, s, step);
    StepKeepsHonest(world, s, step);
    StepKeepsRecord(world, s, step);
    StepKeepsLoneOrder(world, s, step);
  }

  lemma StartInv(world: World, base: Table, latest: int, concurrency: nat)
    requires concurrency >= 1
    ensures Inv(world, Start(base, latest, concurrency))
  {
    forall id ensures Held(Start(base, latest, concurrency).workers, id) == 0 {
      HeldNothing(Start(base, latest, concurrency).workers, id);
    }
  }

  lemma {:induction false} ExecutesKeepsInv(world: World, s: State, steps: seq<Step>, s': State)
    requires Inv(world, s) && Executes(world, s, steps, s')
    ensures Inv(world, s')
    decreases |steps|
  {
    if steps == [] {
    } else {
      var next := Apply(world, s, steps[0]);
      StepKeepsInv(world, s, steps[0]);
      ExecutesKeepsInv(world, next, steps[1..], s');
    }
  }

  lemma {:induction false} ExecutesKeepsSetup(world: World, s: State, steps: seq<Step>, s': State)
    requires Executes(world, s, steps, s')
    ensures s'.base == s.base && s'.latest == s.latest && |s'.workers| == |s.workers|
    decreases |steps|
  {
    if steps == [] {
    } else {
      ExecutesKeepsSetup(world, Apply(world, s, steps[0]), steps[1..], s');
    }
  }

  // ----- the theorems about every run

  ghost predicate Reachable(world: World, base: Table, latest: int, concurrency: nat, s: State) {
    exists steps :: Executes(world, Start(base, latest, concurrency), steps, s)
  }

  lemma ReachableInv(world: World, base: Table, latest: int, concurrency: nat, s: State)
    requires concurrency >= 1 && Reachable(world, base, latest, concurrency, s)
    ensures Inv(world, s) && s.base == base && s.latest == latest && |s.workers| == PoolSize(concurrency)
  {
    var steps :| Executes(world, Start(base, latest, concurrency), steps, s);
    StartInv(world, base, latest, concurrency);
    ExecutesKeepsInv(world, Start(base, latest, concurrency), steps, s);
    ExecutesKeepsSetup(world, Start(base, latest, concurrency), steps, s);
  }

  lemma {:induction false} UnsentExact(next: int, latest: int, have: set<int>)
    ensures forall id :: id in Unsent(next, latest, have) <==> next <= id <= latest && id !in have
    ensures Increasing(Unsent(next, latest, have))
    decreases latest + 1 - next
  {
    if next > latest {
    } else {
      UnsentExact(next + 1, latest, have);
      var rest := Unsent(next + 1, latest, have);
      forall k | 0 <= k < |rest| ensures next < rest[k] {
        assert rest[k] in rest;
      }
    }
  }

  lemma {:induction false} DistinctMultiset(s: seq<int>, x: int)
    requires NoDuplicates(s)
    ensures Times(x, s) == if x in s then 1 else 0
  {
    if s == [] {
    } else {
      assert s == [s[0]] + s[1..];
      DistinctMultiset(s[1..], x);
    }
  }

  lemma SplitCounts(all: seq<int>, a: seq<int>, b: seq<int>, c: seq<int>, id: int)
    requires all == a + b + c
    ensures Times(id, all) == Times(id, a) + Times(id, b) + Times(id, c)
  {
  }

  /** In every state of every run, cancelled or not, each id from 1 to `latest` that was not stored at
      the start is in exactly one place: not sent yet, in the channel, held by a worker or finished;
      no other id is anywhere. */
  lemma JobsConserved(world: World, base: Table, latest: int, concurrency: nat, s: State, id: int)
    requires concurrency >= 1 && Reachable(world, base, latest, concurrency, s)
    ensures
      Times(id, Unsent(s.next, latest, base.Keys)) + Times(id, s.queue) + Held(s.workers, id)
      + Times(id, DoneIds(s.done)) == if 1 <= id <= latest && id !in base then 1 else 0
  {
    ReachableInv(world, base, latest, concurrency, s);
    var missing := Missing(latest, base.Keys);
    UnsentExact(1, latest, base.Keys);
    DistinctMultiset(missing, id);
    SplitCounts(missing, s.taken, s.queue, Unsent(s.next, latest, base.Keys), id);
  }

  lemma PrefixIncreasing(all: seq<int>, front: seq<int>, back: seq<int>)
    requires all == front + back && Increasing(all)
    ensures Increasing(front) && forall id :: id in front ==> id in all
  {
    forall i, j | 0 <= i < j < |front| ensures front[i] < front[j] {
      assert all[i] < all[j];
    }
  }

  /** No id is taken, and so fetched, twice or when it was stored; the ids are taken in increasing
      order. The channel never holds more than two jobs per worker. */
  lemma FetchedOnce(world: World, base: Table, latest: int, concurrency: nat, s: State)
    requires concurrency >= 1 && Reachable(world, base, latest, concurrency, s)
    ensures Increasing(s.taken) && forall id :: id in s.taken ==> 1 <= id <= latest && id !in base
    ensures |s.queue| <= 2 * |s.workers| && |s.workers| == if concurrency > 64 then 64 else concurrency
  {
    ReachableInv(world, base, latest, concurrency, s);
    var missing := Missing(latest, base.Keys);
    UnsentExact(1, latest, base.Keys);
    PrefixIncreasing(missing, s.taken, s.queue + Unsent(s.next, latest, base.Keys));
  }

  /** Sending and closing never hit a closed channel, so Go does not panic; once closed, the channel
      stays closed and only loses its head. */
  lemma ChannelClosedOnce(world: World, base: Table, latest: int, concurrency: nat, s: State, step: Step)
    requires concurrency >= 1 && Reachable(world, base, latest, concurrency, s) && Enabled(world, s, step)
    ensures step.Send? || step.Close? || step.SeeCancel? ==> !s.closed
    ensures
      var s' := Apply(world, s, step);
      s.closed ==> s'.closed && (s'.queue == s.queue || (s.queue != [] && s'.queue == s.queue[1..]))
  {
    ReachableInv(world, base, latest, concurrency, s);
  }

  // ----- deadlock freedom and termination

  /** The call a busy worker makes next, if nothing is cancelled. */
  function NextAct(world: World, worker: Worker): (act: Act)
    requires Busy(worker)
    ensures ActFits(world, false, worker, act) && ActFits(world, true, worker, act)
  {
    match worker
    case Fetching(id) => Get(world.get(id))
    case Normalising(_, info) => Normalise(RowOf(world, info))
    case Storing(id, _) => Store(world.stores(id))
  }

  lemma SomeStep(world: World, s: State) returns (step: Step)
    requires Bounded(s) && Orderly(s) && !s.dispatcher.Returned?
    ensures Enabled(world, s, step) && !step.Cancel?
  {
    if w: nat :| w < |s.workers| && Busy(s.workers[w]) {
      return Work(w, NextAct(world, s.workers[w]));
    }
    if w: nat :| w < |s.workers| && s.workers[w].Idle? && (s.queue != [] || s.cancelled || s.closed) {
      return if s.queue != [] then Take(w) else Exit(w);
    }
    if s.dispatcher.Waiting? {
      return Return;
    }
    if s.next > s.latest {
      return Close;
    }
    if s.next in s.base {
      return Skip;
    }
    assert s.workers[0] == Exited || (s.workers[0] == Idle && s.queue == []);
    return if s.cancelled then SeeCancel else Send;
  }

  /** Until `Update` returns, some step other than an outside cancellation can happen: with a full
      channel, with all workers gone after cancellation, and while draining after the close. */
  lemma NeverStuck(world: World, base: Table, latest: int, concurrency: nat, s: State) returns (step: Step)
    requires concurrency >= 1 && Reachable(world, base, latest, concurrency, s)
    requires !s.dispatcher.Returned?
    ensures Enabled(world, s, step) && !step.Cancel?
  {
    ReachableInv(world, base, latest, concurrency, s);
    step := SomeStep(world, s);
  }

  function WorkLeft(worker: Worker): nat {
    match worker
    case Exited => 0
    case Idle => 1
    case Storing(_, _) => 2
    case Normalising(_, _) => 3
    case Fetching(_) => 4
  }

  function WorkersLeft(workers: seq<Worker>): nat {
    if workers == [] then 0 else WorkersLeft(workers[..|workers| - 1]) + WorkLeft(workers[|workers| - 1])
  }

  function DispatcherLeft(d: Dispatcher): nat {
    match d case Sending => 2 case Waiting(_) => 1 case Returned(_) => 0
  }

  /** A bound on the steps still to come. */
  function Measure(s: State): nat {
    (if s.next <= s.latest then 5 * (s.latest + 1 - s.next) else 0)
    + 4 * |s.queue| + WorkersLeft(s.workers) + DispatcherLeft(s.dispatcher) + if s.cancelled then 0 else 1
  }

  lemma {:induction false} WorkersLeftAfter(workers: seq<Worker>, w: nat, worker: Worker)
    requires w < |workers|
    ensures WorkersLeft(workers[w := worker]) + WorkLeft(workers[w]) == WorkersLeft(workers) + WorkLeft(worker)
  {
    var n := |workers| - 1;
    if w == n {
      assert workers[w := worker][..n] == workers[..n];
    } else {
      WorkersLeftAfter(workers[..n], w, worker);
      assert workers[w := worker][..n] == workers[..n][w := worker];
    }
  }

  lemma ActDecreases(world: World, cancelled: bool, worker: Worker, act: Act)
    requires ActFits(world, cancelled, worker, act)
    ensures WorkLeft(WorkerAfter(worker, act)) < WorkLeft(worker)
  {
  }

  lemma StepDecreases(world: World, s: State, step: Step)
    requires Enabled(world, s, step)
    ensures Measure(Apply(world, s, step)) < Measure(s)
  {
    var s' := Apply(world, s, step);
    match step
    case Take(w) => WorkersLeftAfter(s.workers, w, s'.workers[w]);
    case Exit(w) => WorkersLeftAfter(s.workers, w, s'.workers[w]);
    case Work(w, act) =>
      ActDecreases(world, s.cancelled, s.workers[w], act);
      WorkersLeftAfter(s.workers, w, s'.workers[w]);
    case _ =>
  }

  lemma {:induction false} ExecutesDecreases(world: World, s: State, steps: seq<Step>, s': State)
    requires Executes(world, s, steps, s')
    ensures |steps| + Measure(s') <= Measure(s)
    decreases |steps|
  {
    if steps == [] {
    } else {
      StepDecreases(world, s, steps[0]);
      ExecutesDecreases(world, Apply(world, s, steps[0]), steps[1..], s');
    }
  }

  /** Every run is finite, with a bound known at the start, and a run that cannot go on has returned. */
  lemma EveryRunReturns(world: World, base: Table, latest: int, concurrency: nat, steps: seq<Step>, s: State)
    requires concurrency >= 1 && Executes(world, Start(base, latest, concurrency), steps, s)
    ensures |steps| <= Measure(Start(base, latest, concurrency))
    ensures (forall step :: !Enabled(world, s, step)) <==> s.dispatcher.Returned?
  {
    ExecutesDecreases(world, Start(base, latest, concurrency), steps, s);
    ReachableInv(world, base, latest, concurrency, s);
    if !s.dispatcher.Returned? {
      var step := SomeStep(world, s);
    } else {
      forall step ensures !Enabled(world, s, step) {
      }
    }
  }
}
