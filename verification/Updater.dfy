/** The update service as a program: the flag, the dispatcher loop, the channel and the workers, with
    the scheduler and the cancellation choosing freely among what can happen next. */
module Updater {
  import opened Catalog
  import opened Pool
  import opened PoolSafety
  import opened Schedules

  datatype Error = AlreadyExists | Upstream | ContextCancelled

  datatype Status = Running | AtRest

  /** The dispatcher is not blocked on a full channel or on workers that are still running. */
  predicate CanDispatch(next: int, latest: int, have: set<int>, jobs: seq<int>, size: nat,
                        dispatcher: Dispatcher, workers: seq<Worker>, cancelled: bool)
  {
    match dispatcher
    case Sending => next > latest || next in have || |jobs| < 2 * size || cancelled
    case Waiting(_) => AllExited(workers)
    case Returned(_) => false
  }

  function Moved(now: State, next: int, jobs: seq<int>, closed: bool, dispatcher: Dispatcher): State {
    now.(next := next, queue := jobs, closed := closed, dispatcher := dispatcher)
  }

  /** One move of the dispatcher: skip a stored id, send a missing one, close the channel at the end or
      because of the cancellation, or return when all workers are gone. */
  method Dispatch(world: World, next: int, latest: int, have: set<int>, jobs: seq<int>, closed: bool,
                  dispatcher: Dispatcher, workers: seq<Worker>, cancelled: bool, ghost now: State)
    returns (next': int, jobs': seq<int>, closed': bool, dispatcher': Dispatcher, ghost step: Step)
    requires CanDispatch(next, latest, have, jobs, |workers|, dispatcher, workers, cancelled)
    requires have == now.base.Keys && now == State(now.base, latest, next, jobs, closed, dispatcher, workers, cancelled,
                                                   now.table, now.taken, now.done)
    ensures Enabled(world, now, step) && Apply(world, now, step) == Moved(now, next', jobs', closed', dispatcher')
    ensures jobs' == if next' == next || next in have then jobs else jobs + [next]
    ensures closed' == (closed || (dispatcher.Sending? && !dispatcher'.Sending?))
  {
    next', jobs', closed', dispatcher' := next, jobs, closed, dispatcher;
    if dispatcher.Waiting? {
      step, dispatcher' := Return, Returned(dispatcher.result);
    } else if next > latest {
      step, closed', dispatcher' := Close, true, Waiting(Success);
    } else if next in have {
      step, next' := Skip, next + 1;
    } else {
      // Go's select picks either case when both are ready
      if {
        case cancelled =>
          step, closed', dispatcher' := SeeCancel, true, Waiting(Cancelled);
        case |jobs| < 2 * |workers| =>
          step, jobs', next' := Send, jobs + [next], next + 1;
      }
    }
  }

  /** Whether an outside call fails because of the cancellation. */
  method Lost(cancelled: bool) returns (lost: bool)
    ensures lost ==> cancelled
  {
    var failed: bool := *;
    return cancelled && failed;
  }

  method NormField(world: World, cancelled: bool, text: string) returns (tokens: seq<string>)
    ensures FieldFits(world, cancelled, text, tokens)
  {
    var lost := Lost(cancelled);
    if lost {
      return [];
    }
    match world.norm(text)
    case Some(ts) => return ts;
    case None => return [];
  }

  /** One outside call of a busy worker: what the worker does next, and the job it has finished. */
  method Serve(world: World, cancelled: bool, worker: Worker)
    returns (next: Worker, job: Option<Job>, ghost act: Act)
    requires Busy(worker)
    ensures ActFits(world, cancelled, worker, act)
    ensures next == WorkerAfter(worker, act) && job == JobAfter(worker, act)
    ensures if job.Some? then next.Idle? && job.value.id == worker.id else Busy(next) && next.id == worker.id
  {
    job := None;
    match worker {
    case Fetching(id) =>
      var lost := Lost(cancelled);
      var got := if lost then Failed else world.get(id);
      act := Get(got);
      if got.Failed? {
        next, job := Idle, Some(Job(id, None));
      } else if got.NotFound? {
        next := Storing(id, Comic(id, "", [], [], []));
      } else {
        next := Normalising(id, got.info);
      }
    case Normalising(id, info) =>
      var title := NormField(world, cancelled, info.title);
      var alt := NormField(world, cancelled, info.alt);
      var words := NormField(world, cancelled, info.description);
      var row := Comic(info.id, info.url, title, alt, words);
      act := Normalise(row);
      next := Storing(id, row);
    case Storing(id, row) =>
      var lost := Lost(cancelled);
      var written := !lost && world.stores(id);
      act := Store(written);
      next, job := Idle, Some(Job(id, if written then Some(row) else None));
    }
  }

  /** The guards of the scheduler: one of them always holds until the return. */
  lemma SomeGuardHolds(world: World, base: Table, latest: int, concurrency: nat, steps: seq<Step>, s: State)
    requires concurrency >= 1 && Executes(world, Start(base, latest, concurrency), steps, s)
    requires !s.dispatcher.Returned?
    ensures
      || CanDispatch(s.next, s.latest, s.base.Keys, s.queue, |s.workers|, s.dispatcher, s.workers, s.cancelled)
      || (exists w: nat :: w < |s.workers| && s.workers[w].Idle? && s.queue != [])
      || (exists w: nat :: w < |s.workers| && s.workers[w].Idle? && (s.cancelled || (s.closed && s.queue == [])))
      || (exists w: nat :: w < |s.workers| && Busy(s.workers[w]))
  {
    ReachableInv(world, base, latest, concurrency, s);
    var step := SomeStep(world, s);
  }

  lemma Advance(world: World, start: State, steps: seq<Step>, now: State, step: Step) returns (after: State)
    requires Executes(world, start, steps, now) && Enabled(world, now, step)
    ensures Executes(world, start, steps + [step], after) && after == Apply(world, now, step)
    ensures Measure(after) < Measure(now)
  {
    after := Apply(world, now, step);
    Then(world, start, steps, now, step);
    StepDecreases(world, now, step);
  }

  lemma RunEnds(world: World, base: Table, latest: int, concurrency: nat, steps: seq<Step>, s: State)
    requires concurrency >= 1 && Executes(world, Start(base, latest, concurrency), steps, s)
    requires s.dispatcher.Returned?
    ensures Reachable(world, base, latest, concurrency, s)
  {
  }

  lemma CompleteReturn(world: World, base: Table, latest: int, concurrency: nat, s: State)
    requires concurrency >= 1 && Complete(world, base, latest, concurrency, s)
    ensures s.dispatcher.result == Success
    ensures concurrency == 1 || ConflictFree(world, Missing(latest, base.Keys))
            ==> s.table == Sequential(world, base, Missing(latest, base.Keys))
  {
    ReachableInv(world, base, latest, concurrency, s);
    CompleteRun(world, s);
    if concurrency == 1 || ConflictFree(world, Missing(latest, base.Keys)) {
      CompleteRunIsSequential(world, s);
    }
  }

  class Service {
    const concurrency: nat
    var running: bool
    /** The database the service writes to. */
    var table: Table

    ghost predicate Valid() {
      concurrency >= 1
    }

    constructor (concurrency: nat, table: Table)
      requires concurrency >= 1
      ensures Valid() && !running && this.table == table && this.concurrency == concurrency
    {
      this.concurrency, this.running, this.table := concurrency, false, table;
    }

    static method NewService(concurrency: int, table: Table) returns (svc: Service?)
      ensures svc == null <==> concurrency < 1
      ensures svc != null ==> fresh(svc) && svc.Valid() && !svc.running && svc.table == table
    {
      if concurrency < 1 {
        return null;
      }
      svc := new Service(concurrency, table);
    }

    method GetStatus() returns (status: Status)
      ensures status == Running <==> running
    {
      return if running then Running else AtRest;
    }

    /** `dropped` is whether the database empties the table. */
    method Drop(dropped: bool) returns (err: Option<Error>)
      modifies this
      ensures old(running) ==> err == Some(AlreadyExists) && table == old(table) && running
      ensures !old(running) ==> !running && (err == None <==> dropped)
                                && table == if dropped then map[] else old(table)
    {
      if running {
        return Some(AlreadyExists);
      }
      running := true;
      if dropped {
        table := map[];
        err := None;
      } else {
        err := Some(Upstream);
      }
      running := false;
    }

    /** One turn of a busy worker, which stores the row of a job it finished. */
    method WorkerTurn(world: World, cancelled: bool, workers: seq<Worker>, w: nat, ghost done: seq<Job>)
      returns (workers': seq<Worker>, ghost step: Step, ghost done': seq<Job>)
      requires w < |workers| && Busy(workers[w])
      modifies this`table
      ensures step.Work? && step.w == w && ActFits(world, cancelled, workers[w], step.act)
      ensures workers' == workers[w := WorkerAfter(workers[w], step.act)]
      ensures table == Finish(old(table), JobAfter(workers[w], step.act))
      ensures done' == Log(done, JobAfter(workers[w], step.act))
    {
      var worker, job;
      ghost var act;
      worker, job, act := Serve(world, cancelled, workers[w]);
      step := Work(w, act);
      workers', done' := workers[w := worker], Log(done, job);
      if job.Some? && job.value.wrote.Some? {
        table := table[job.value.wrote.value.id := job.value.wrote.value];
      }
    }

    /** The part of `Update` between the listing of the stored ids and the return. */
    method RunPool(world: World, latest: int) returns (result: Result, cancelled: bool)
      requires Valid()
      modifies this`table
      ensures exists s ::
                && Reachable(world, old(table), latest, concurrency, s) && s.dispatcher == Returned(result)
                && s.table == table && s.cancelled == cancelled
    {
      ghost var base := table;
      var have := table.Keys;
      var size := concurrency;
      if size > MAX_WORKERS {
        size := MAX_WORKERS;
      }
      var workers: seq<Worker> := seq(size, i requires 0 <= i < size => Idle);
      var jobs: seq<int> := [];
      var next, closed, dispatcher := 1, false, Sending;
      cancelled := false;
      ghost var taken: seq<int>, done: seq<Job> := [], [];
      ghost var start := Start(base, latest, concurrency);
      ghost var now, steps: seq<Step> := start, [];
      while !dispatcher.Returned?
        invariant now == State(base, latest, next, jobs, closed, dispatcher, workers, cancelled, table, taken, done)
        invariant Executes(world, start, steps, now)
        invariant |workers| == size && have == base.Keys
        decreases Measure(now)
      {
        ghost var step: Step;
        SomeGuardHolds(world, base, latest, concurrency, steps, now);
        if {
          // the dispatcher
          case CanDispatch(next, latest, have, jobs, size, dispatcher, workers, cancelled) =>
            next, jobs, closed, dispatcher, step :=
              Dispatch(world, next, latest, have, jobs, closed, dispatcher, workers, cancelled, now);
          // the context
          case !cancelled =>
            step := Cancel;
            cancelled := true;
          // the workers
          case w: nat :| w < |workers| && workers[w].Idle? && jobs != [] =>
            step := Take(w);
            workers, jobs, taken := workers[w := Fetching(jobs[0])], jobs[1..], taken + [jobs[0]];
          case w: nat :| w < |workers| && workers[w].Idle? && (cancelled || (closed && jobs == [])) =>
            step := Exit(w);
            workers := workers[w := Exited];
          case w: nat :| w < |workers| && Busy(workers[w]) =>
            workers, step, done := WorkerTurn(world, cancelled, workers, w, done);
        }
        now := Advance(world, start, steps, now, step);
        steps := steps + [step];
      }
      RunEnds(world, base, latest, concurrency, steps, now);
      result := dispatcher.result;
    }

    /** `asked` and `listed` are the answers to the two questions at the start: the last number, `None`
        for an error, and whether the stored ids could be listed. `cancelled` reports whether the
        context was cancelled before the return. */
    method Update(world: World, asked: Option<int>, listed: bool) returns (err: Option<Error>, cancelled: bool)
      requires Valid()
      modifies this
      ensures old(running) ==> err == Some(AlreadyExists) && table == old(table) && running
      ensures !old(running) ==> !running
      ensures !old(running) && (asked.None? || !listed) ==> err == Some(Upstream) && table == old(table)
      ensures !old(running) && asked.Some? && listed ==>
                exists s ::
                  && Reachable(world, old(table), asked.value, concurrency, s) && s.dispatcher.Returned?
                  && s.table == table && s.cancelled == cancelled
                  && (err == if s.dispatcher.result == Success then None else Some(ContextCancelled))
      ensures !old(running) && asked.Some? && listed && !cancelled ==>
                && err == None
                && (concurrency == 1 || ConflictFree(world, Missing(asked.value, old(table).Keys))
                    ==> table == Sequential(world, old(table), Missing(asked.value, old(table).Keys)))
    {
      cancelled := false;
      if running {
        return Some(AlreadyExists), false;
      }
      running := true;
      if asked.None? || !listed {
        running := false;
        return Some(Upstream), false;
      }
      var result;
      ghost var base := table;
      result, cancelled := RunPool(world, asked.value);
      ghost var s :| Reachable(world, base, asked.value, concurrency, s) && s.dispatcher == Returned(result)
                     && s.table == table && s.cancelled == cancelled;
      if !cancelled {
        CompleteReturn(world, base, asked.value, concurrency, s);
      }
      err := if result == Success then None else Some(ContextCancelled);
      running := false;
    }
  }
}
