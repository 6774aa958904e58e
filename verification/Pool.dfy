/** The worker pool inside one `Update`: a dispatcher feeds the missing ids through a bounded channel
    to workers that fetch, normalise and store. Every scheduling of their steps is a run. */
module Pool {
  import opened Catalog

  const MAX_WORKERS := 64

  // ----- what the outside world answers

  datatype Info = Info(id: int, url: string, title: string, alt: string, description: string)

  datatype Fetch = Fetched(info: Info) | NotFound | Failed

  /** The answers of the comic site and the normaliser (`None` for an error), and whether the database
      stores what a job sends it. They hold as long as the context is not cancelled. */
  datatype World = World(get: int -> Fetch, norm: string -> Option<seq<string>>, stores: int -> bool)

  function NormOrNothing(world: World, text: string): seq<string> {
    match world.norm(text) case Some(tokens) => tokens case None => []
  }

  function RowOf(world: World, info: Info): Comic {
    Comic(info.id, info.url, NormOrNothing(world, info.title), NormOrNothing(world, info.alt),
          NormOrNothing(world, info.description))
  }

  /** What is stored for a number that does not exist, so that it is not asked for again. */
  function Placeholder(id: int): Comic {
    Comic(id, "", [], [], [])
  }

  /** The row a job wants to store. */
  function Intended(world: World, id: int): Option<Comic> {
    match world.get(id)
    case Fetched(info) => Some(RowOf(world, info))
    case NotFound => Some(Placeholder(id))
    case Failed => None
  }

  /** The row a job leaves in the table. */
  function Outcome(world: World, id: int): Option<Comic> {
    if world.stores(id) then Intended(world, id) else None
  }

  function Write(t: Table, row: Option<Comic>): Table {
    match row case Some(r) => t[r.id := r] case None => t
  }

  /** The reference: the jobs done one by one, in the order of `ids`. */
  function Sequential(world: World, t: Table, ids: seq<int>): Table {
    if ids == [] then t
    else Write(Sequential(world, t, ids[..|ids| - 1]), Outcome(world, ids[|ids| - 1]))
  }

  /** The ids from `next` to `latest` that are not stored yet, in order. */
  function Unsent(next: int, latest: int, have: set<int>): seq<int>
    decreases latest + 1 - next
  {
    if next > latest then []
    else if next in have then Unsent(next + 1, latest, have)
    else [next] + Unsent(next + 1, latest, have)
  }

  function Missing(latest: int, have: set<int>): seq<int> {
    Unsent(1, latest, have)
  }

  // ----- the states

  datatype Worker =
    | Idle
    | Fetching(id: int)
    | Normalising(id: int, info: Info)
    | Storing(id: int, row: Comic)
    | Exited

  datatype Result = Success | Cancelled

  datatype Dispatcher = Sending | Waiting(result: Result) | Returned(result: Result)

  /** A finished job and what it wrote. */
  datatype Job = Job(id: int, wrote: Option<Comic>)

  /** `base` is the table whose ids were listed at the start. `taken` and `done` record the jobs the
      workers took from the channel and finished, in order. */
  datatype State = State(
    base: Table, latest: int,
    next: int, queue: seq<int>, closed: bool, dispatcher: Dispatcher,
    workers: seq<Worker>, cancelled: bool, table: Table,
    taken: seq<int>, done: seq<Job>)

  function PoolSize(concurrency: nat): nat {
    if concurrency > MAX_WORKERS then MAX_WORKERS else concurrency
  }

  function Start(base: Table, latest: int, concurrency: nat): State {
    State(base, latest, 1, [], false, Sending,
          seq(PoolSize(concurrency), i requires 0 <= i < PoolSize(concurrency) => Idle), false, base, [], [])
  }

  // ----- what a worker does with a job

  /** One outside call of a worker, with its answer. `Normalise` stands for the three calls that
      normalise the title, the alternative text and the description. */
  datatype Act = Get(got: Fetch) | Normalise(row: Comic) | Store(written: bool)

  /** A field of the stored row: its tokens, or nothing if normalising failed. */
  predicate FieldFits(world: World, cancelled: bool, text: string, tokens: seq<string>) {
    tokens == NormOrNothing(world, text) || (cancelled && tokens == [])
  }

  predicate RowFits(world: World, cancelled: bool, info: Info, row: Comic) {
    && row.id == info.id && row.url == info.url
    && FieldFits(world, cancelled, info.title, row.title)
    && FieldFits(world, cancelled, info.alt, row.alt)
    && FieldFits(world, cancelled, info.description, row.words)
  }

  /** The call is the worker's next one and this is how it may end. After cancellation every outside
      call may also fail. */
  predicate ActFits(world: World, cancelled: bool, worker: Worker, act: Act) {
    match act
    case Get(got) => worker.Fetching? && (got == world.get(worker.id) || (cancelled && got.Failed?))
    case Normalise(row) => worker.Normalising? && RowFits(world, cancelled, worker.info, row)
    case Store(written) => worker.Storing? && (written == world.stores(worker.id) || (cancelled && !written))
  }

  predicate Busy(worker: Worker) {
    worker.Fetching? || worker.Normalising? || worker.Storing?
  }

  function WorkerAfter(worker: Worker, act: Act): Worker
    requires Busy(worker) && (act.Store? ==> worker.Storing?)
  {
    match act
    case Get(Fetched(info)) => Normalising(worker.id, info)
    case Get(NotFound) => Storing(worker.id, Placeholder(worker.id))
    case Get(Failed) => Idle
    case Normalise(row) => Storing(worker.id, row)
    case Store(_) => Idle
  }

  /** The job the call completes, if it completes one. Its errors are only logged. */
  function JobAfter(worker: Worker, act: Act): Option<Job>
    requires Busy(worker) && (act.Store? ==> worker.Storing?)
  {
    match act
    case Get(Failed) => Some(Job(worker.id, None))
    case Store(written) => Some(Job(worker.id, if written then Some(worker.row) else None))
    case _ => None
  }

  // ----- the steps

  datatype Step =
    | Skip | Send | SeeCancel | Close | Return
    | Cancel
    | Take(w: nat) | Exit(w: nat) | Work(w: nat, act: Act)

  predicate AllExited(workers: seq<Worker>) {
    forall w :: 0 <= w < |workers| ==> workers[w] == Exited
  }

  /** When a step may happen. No step checks that the channel is open before sending on it or closing
      it: Go would panic. */
  predicate Enabled(world: World, s: State, step: Step) {
    match step
    case Skip => s.dispatcher.Sending? && s.next <= s.latest && s.next in s.base
    case Send => s.dispatcher.Sending? && s.next <= s.latest && s.next !in s.base && |s.queue| < 2 * |s.workers|
    case SeeCancel => s.dispatcher.Sending? && s.next <= s.latest && s.next !in s.base && s.cancelled
    case Close => s.dispatcher.Sending? && s.next > s.latest
    case Return => s.dispatcher.Waiting? && AllExited(s.workers)
    case Cancel => !s.cancelled && !s.dispatcher.Returned?
    case Take(w) => w < |s.workers| && s.workers[w].Idle? && s.queue != []
    case Exit(w) => w < |s.workers| && s.workers[w].Idle? && (s.cancelled || (s.closed && s.queue == []))
    case Work(w, act) => w < |s.workers| && ActFits(world, s.cancelled, s.workers[w], act)
  }

  function Finish(t: Table, job: Option<Job>): Table {
    match job case Some(j) => Write(t, j.wrote) case None => t
  }

  function Log(done: seq<Job>, job: Option<Job>): seq<Job> {
    match job case Some(j) => done + [j] case None => done
  }

  function Apply(world: World, s: State, step: Step): State
    requires Enabled(world, s, step)
  {
    match step
    case Skip => s.(next := s.next + 1)
    case Send => s.(queue := s.queue + [s.next], next := s.next + 1)
    case SeeCancel => s.(closed := true, dispatcher := Waiting(Cancelled))
    case Close => s.(closed := true, dispatcher := Waiting(Success))
    case Return => s.(dispatcher := Returned(s.dispatcher.result))
    case Cancel => s.(cancelled := true)
    case Take(w) =>
      s.(workers := s.workers[w := Fetching(s.queue[0])], queue := s.queue[1..], taken := s.taken + [s.queue[0]])
    case Exit(w) => s.(workers := s.workers[w := Exited])
    case Work(w, act) =>
      var job := JobAfter(s.workers[w], act);
      s.(workers := s.workers[w := WorkerAfter(s.workers[w], act)],
         table := Finish(s.table, job), done := Log(s.done, job))
  }

  /** The schedule `steps` leads from `s` to `s'`. */
  ghost predicate Executes(world: World, s: State, steps: seq<Step>, s': State)
    decreases |steps|
  {
    if steps == [] then s' == s
    else Enabled(world, s, steps[0]) && Executes(world, Apply(world, s, steps[0]), steps[1..], s')
  }

  lemma {:induction false} ExecutesConcat(world: World, a: State, p: seq<Step>, b: State, q: seq<Step>, c: State)
    requires Executes(world, a, p, b) && Executes(world, b, q, c)
    ensures Executes(world, a, p + q, c)
    decreases |p|
  {
    if p == [] {
      assert p + q == q;
    } else {
      ExecutesConcat(world, Apply(world, a, p[0]), p[1..], b, q, c);
      assert (p + q)[1..] == p[1..] + q;
    }
  }

  lemma ExecutesOne(world: World, s: State, step: Step)
    requires Enabled(world, s, step)
    ensures Executes(world, s, [step], Apply(world, s, step))
  {
    assert Executes(world, Apply(world, s, step), [], Apply(world, s, step));
  }
}
