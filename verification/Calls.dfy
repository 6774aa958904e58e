/** Any number of concurrent `Update` and `Drop` calls on one service, sharing its flag and the table. */
module Calls {
  import opened Catalog
  import opened Pool
  import opened PoolSafety
  import opened Schedules

  datatype Kind = UpdateCall | DropCall

  datatype Reply = AlreadyExists | Failure | Ok

  /** Where a call is. From `Asking` to `Leaving` it holds the flag; `Leaving` is the moment before its
      deferred release. */
  datatype Call =
    | Fresh(kind: Kind)
    | Asking
    | Listing(latest: int)
    | Pooling(pool: State)
    | Dropping
    | Leaving(reply: Reply)
    | Over(reply: Reply)

  datatype Change = Wrote(row: Comic) | Truncated

  /** A change of the table, the call that made it and how often the flag had been taken by then. */
  datatype Entry = Entry(call: nat, turn: int, change: Change)

  /** An update's effect is described by the state in which its pool ended. */
  datatype Effect = Updated(pool: State) | Emptied

  /** What a call did to the table as a whole, and how often the flag had been taken by then. */
  datatype Op = Op(call: nat, turn: int, effect: Effect)

  /** `owners` lists the calls in the order in which they took the flag, `journal` all changes of the
      table, `history` what the calls did that are past their work. */
  datatype Service = Service(
    running: bool, table: Table, calls: seq<Call>,
    owners: seq<nat>, journal: seq<Entry>, history: seq<Op>)

  predicate Holds(call: Call) {
    !call.Fresh? && !call.Over?
  }

  // ----- the steps

  /** The pool of an update works on the shared table. */
  function View(v: Service, pool: State): State {
    pool.(table := v.table)
  }

  datatype Event =
    | Arrive(kind: Kind)
    | Acquire(i: nat) | Reject(i: nat)
    | AskLatest(i: nat, answer: Option<int>) | ListIds(i: nat, ok: bool)
    | PoolStep(i: nat, step: Step) | PoolDone(i: nat)
    | Truncate(i: nat, ok: bool)
    | Release(i: nat)

  /** The answers each call gets, and the configured number of workers. */
  datatype Setting = Setting(world: nat -> World, concurrency: nat)

  predicate Possible(x: Setting, v: Service, e: Event) {
    match e
    case Arrive(_) => true
    case Acquire(i) => i < |v.calls| && v.calls[i].Fresh? && !v.running
    case Reject(i) => i < |v.calls| && v.calls[i].Fresh? && v.running
    case AskLatest(i, _) => i < |v.calls| && v.calls[i].Asking?
    case ListIds(i, _) => i < |v.calls| && v.calls[i].Listing?
    case PoolStep(i, step) =>
      i < |v.calls| && v.calls[i].Pooling? && Enabled(x.world(i), View(v, v.calls[i].pool), step)
    case PoolDone(i) => i < |v.calls| && v.calls[i].Pooling? && v.calls[i].pool.dispatcher.Returned?
    case Truncate(i, _) => i < |v.calls| && v.calls[i].Dropping?
    case Release(i) => i < |v.calls| && v.calls[i].Leaving?
  }

  /** What a pool step writes into the table. */
  function RowWritten(pool: State, step: Step): Option<Comic> {
    if step.Work? && step.w < |pool.workers| && step.act.Store? && step.act.written && pool.workers[step.w].Storing?
    then Some(pool.workers[step.w].row) else None
  }

  function Journalled(v: Service, i: nat, row: Option<Comic>): seq<Entry> {
    if row.Some? then v.journal + [Entry(i, |v.owners| - 1, Wrote(row.value))] else v.journal
  }

  function After(x: Setting, v: Service, e: Event): Service
    requires Possible(x, v, e)
  {
    match e
    case Arrive(kind) => v.(calls := v.calls + [Fresh(kind)])
    case Acquire(i) =>
      v.(running := true, owners := v.owners + [i],
         calls := v.calls[i := if v.calls[i].kind.UpdateCall? then Asking else Dropping])
    case Reject(i) => v.(calls := v.calls[i := Over(AlreadyExists)])
    case AskLatest(i, answer) =>
      v.(calls := v.calls[i := if answer.Some? then Listing(answer.value) else Leaving(Failure)])
    case ListIds(i, ok) =>
      var call := if ok then Pooling(Start(v.table, v.calls[i].latest, x.concurrency)) else Leaving(Failure);
      v.(calls := v.calls[i := call])
    case PoolStep(i, step) =>
      var pool := Apply(x.world(i), View(v, v.calls[i].pool), step);
      v.(table := pool.table, calls := v.calls[i := Pooling(pool)],
         journal := Journalled(v, i, RowWritten(v.calls[i].pool, step)))
    case PoolDone(i) =>
      var pool := v.calls[i].pool;
      v.(calls := v.calls[i := Leaving(if pool.dispatcher.result == Success then Ok else Failure)],
         history := v.history + [Op(i, |v.owners| - 1, Updated(View(v, pool)))])
    case Truncate(i, ok) =>
      if ok then
        v.(table := map[], calls := v.calls[i := Leaving(Ok)], history := v.history + [Op(i, |v.owners| - 1, Emptied)],
           journal := v.journal + [Entry(i, |v.owners| - 1, Truncated)])
      else v.(calls := v.calls[i := Leaving(Failure)])
    case Release(i) => v.(running := false, calls := v.calls[i := Over(v.calls[i].reply)])
  }

  function Opening(table: Table): Service {
    Service(false, table, [], [], [], [])
  }

  ghost predicate Runs(x: Setting, v: Service, events: seq<Event>, v': Service)
    decreases |events|
  {
    if events == [] then v' == v
    else Possible(x, v, events[0]) && Runs(x, After(x, v, events[0]), events[1..], v')
  }

  // ----- mutual exclusion

  /** The last owner holds the flag while it is up, and nobody else ever does. */
  ghost predicate Exclusive(v: Service) {
    && (v.running ==> v.owners != [])
    && (forall o :: o in v.owners ==> o < |v.calls| && !v.calls[o].Fresh?)
    && (forall i :: 0 <= i < |v.calls| ==>
          (Holds(v.calls[i]) <==> v.running && i == v.owners[|v.owners| - 1]))
    && NoDuplicates(v.owners)
  }

  lemma EventKeepsOwners(x: Setting, v: Service, e: Event)
    requires Exclusive(v) && Possible(x, v, e)
    ensures
      var v' := After(x, v, e);
      && NoDuplicates(v'.owners)
      && (forall o :: o in v'.owners ==> o < |v'.calls| && !v'.calls[o].Fresh?)
  {
    if e.Acquire? {
      assert e.i !in v.owners;
    }
  }

  lemma EventKeepsExclusive(x: Setting, v: Service, e: Event)
    requires Exclusive(v) && Possible(x, v, e)
    ensures Exclusive(After(x, v, e))
  {
    EventKeepsOwners(x, v, e);
  }

  // ----- the journal

  function Play(t: Table, journal: seq<Entry>): Table {
    if journal == [] then t
    else
      var before := Play(t, journal[..|journal| - 1]);
      match journal[|journal| - 1].change
      case Wrote(row) => before[row.id := row]
      case Truncated => map[]
  }

  /** Each change was made by the call that had the flag at the time, and the changes of a run with
      the flag come after those of all earlier ones. */
  ghost predicate Attributed(v: Service) {
    && (forall a :: 0 <= a < |v.journal| ==>
          0 <= v.journal[a].turn < |v.owners| && v.owners[v.journal[a].turn] == v.journal[a].call)
    && (forall a, b :: 0 <= a < b < |v.journal| ==> v.journal[a].turn <= v.journal[b].turn)
  }

  ghost predicate TruncatedBefore(journal: seq<Entry>, turn: int) {
    forall a :: 0 <= a < |journal| && journal[a].change.Truncated? ==> journal[a].turn < turn
  }

  /** A truncation is the last change of its run. */
  ghost predicate TruncationsLast(v: Service) {
    && (forall a, b :: 0 <= a < b < |v.journal| && v.journal[a].change.Truncated? ==>
          v.journal[a].turn < v.journal[b].turn)
    && (forall i :: 0 <= i < |v.calls| && Holds(v.calls[i]) && !v.calls[i].Leaving? ==>
          TruncatedBefore(v.journal, |v.owners| - 1))
  }

  ghost predicate Accounted(t: Table, v: Service) {
    v.table == Play(t, v.journal)
  }

  lemma EventKeepsAttributed(x: Setting, v: Service, e: Event)
    requires Exclusive(v) && Attributed(v) && Possible(x, v, e)
    ensures Attributed(After(x, v, e))
  {
    var v' := After(x, v, e);
    if |v.journal| < |v'.journal| {
      assert Holds(v.calls[e.i]);
    }
  }

  lemma EventKeepsTruncations(x: Setting, v: Service, e: Event)
    requires Exclusive(v) && Attributed(v) && TruncationsLast(v) && Possible(x, v, e)
    ensures TruncationsLast(After(x, v, e))
  {
    var v' := After(x, v, e);
    if e.Acquire? {
      assert TruncatedBefore(v'.journal, |v'.owners| - 1);
    } else if e.PoolStep? || e.Truncate? {
      assert Holds(v.calls[e.i]) && TruncatedBefore(v.journal, |v.owners| - 1);
      assert forall i :: 0 <= i < |v.calls| && i != e.i ==> !Holds(v.calls[i]);
    }
  }

  lemma PoolStepWrites(world: World, s: State, step: Step)
    requires Enabled(world, s, step)
    ensures Apply(world, s, step).table == Write(s.table, RowWritten(s, step))
  {
  }

  lemma PlayMore(t: Table, journal: seq<Entry>, entry: Entry)
    ensures Play(t, journal + [entry]) ==
            match entry.change case Wrote(row) => Play(t, journal)[row.id := row] case Truncated => map[]
  {
    assert (journal + [entry])[..|journal|] == journal;
  }

  lemma EventKeepsAccounted(x: Setting, t: Table, v: Service, e: Event)
    requires Exclusive(v) && Accounted(t, v) && Possible(x, v, e)
    ensures Accounted(t, After(x, v, e))
  {
    match e
    case PoolStep(i, step) =>
      PoolStepWrites(x.world(i), View(v, v.calls[i].pool), step);
      var row := RowWritten(v.calls[i].pool, step);
      if row.Some? {
        PlayMore(t, v.journal, Entry(i, |v.owners| - 1, Wrote(row.value)));
      }
    case Truncate(i, ok) =>
      if ok {
        PlayMore(t, v.journal, Entry(i, |v.owners| - 1, Truncated));
      }
    case _ =>
  }

  // ----- the pools

  /** The pool of an update that is under way, on the shared table, is in a state that a lone run from
      the listed table can reach. */
  ghost predicate PoolRuns(x: Setting, v: Service, i: nat)
    requires i < |v.calls|
  {
    v.calls[i].Pooling? ==>
      var pool := v.calls[i].pool;
      Reachable(x.world(i), pool.base, pool.latest, x.concurrency, View(v, pool))
  }

  ghost predicate PoolsRun(x: Setting, v: Service) {
    forall i :: 0 <= i < |v.calls| ==> PoolRuns(x, v, i)
  }

  lemma ReachableStep(world: World, base: Table, latest: int, concurrency: nat, s: State, step: Step)
    requires concurrency >= 1 && Reachable(world, base, latest, concurrency, s) && Enabled(world, s, step)
    ensures Reachable(world, base, latest, concurrency, Apply(world, s, step))
  {
    var steps :| Executes(world, Start(base, latest, concurrency), steps, s);
    Then(world, Start(base, latest, concurrency), steps, s, step);
  }

  lemma StartReachable(world: World, base: Table, latest: int, concurrency: nat)
    ensures Reachable(world, base, latest, concurrency, Start(base, latest, concurrency))
  {
    assert Executes(world, Start(base, latest, concurrency), [], Start(base, latest, concurrency));
  }

  /** While one call holds the flag no event of another call touches the table. */
  lemma OthersLeaveTable(x: Setting, v: Service, e: Event, i: nat)
    requires Exclusive(v) && Possible(x, v, e) && i < |v.calls| && Holds(v.calls[i])
    requires (e.PoolStep? || e.Truncate?) ==> e.i != i
    ensures After(x, v, e).table == v.table
  {
  }

  lemma EventKeepsPools(x: Setting, v: Service, e: Event)
    requires x.concurrency >= 1 && Exclusive(v) && PoolsRun(x, v) && Possible(x, v, e)
    ensures PoolsRun(x, After(x, v, e))
  {
    var v' := After(x, v, e);
    forall i | 0 <= i < |v'.calls| && v'.calls[i].Pooling? ensures PoolRuns(x, v', i) {
      if e.PoolStep? && e.i == i {
        var pool := v.calls[i].pool;
        assert PoolRuns(x, v, i);
        ReachableStep(x.world(i), pool.base, pool.latest, x.concurrency, View(v, pool), e.step);
        assert View(v', v'.calls[i].pool) == Apply(x.world(i), View(v, pool), e.step);
      } else if e.ListIds? && e.i == i {
        StartReachable(x.world(i), v.table, v.calls[i].latest, x.concurrency);
        assert View(v', v'.calls[i].pool) == Start(v.table, v.calls[i].latest, x.concurrency);
      } else {
        assert v.calls[i] == v'.calls[i] && Holds(v.calls[i]) && PoolRuns(x, v, i);
        OthersLeaveTable(x, v, e, i);
      }
    }
  }

  // ----- the serial meaning of a service

  /** The table after some pieces of work. */
  function TableAfter(t: Table, history: seq<Op>): Table {
    if history == [] then t
    else match history[|history| - 1].effect
      case Updated(pool) => pool.table
      case Emptied => map[]
  }

  /** The piece of work is that of a call made alone on the table `before`: an update ended in a state
      that a lone run on that table can return in. */
  ghost predicate Lone(x: Setting, before: Table, op: Op) {
    op.effect.Updated? ==>
      var pool := op.effect.pool;
      Reachable(x.world(op.call), before, pool.latest, x.concurrency, pool) && pool.dispatcher.Returned?
  }

  ghost predicate AllLone(x: Setting, t: Table, history: seq<Op>) {
    forall a :: 0 <= a < |history| ==> Lone(x, TableAfter(t, history[..a]), history[a])
  }

  /** Every piece of work was done by the call that had the flag, one piece per holding, in order. */
  ghost predicate InFlagOrder(v: Service) {
    && (forall a :: 0 <= a < |v.history| ==>
          0 <= v.history[a].turn < |v.owners| && v.owners[v.history[a].turn] == v.history[a].call)
    && (forall a, b :: 0 <= a < b < |v.history| ==> v.history[a].turn < v.history[b].turn)
  }

  ghost predicate OpsBefore(history: seq<Op>, turn: int) {
    forall a :: 0 <= a < |history| ==> history[a].turn < turn
  }

  /** While a call is at work its piece is not in the history yet. */
  ghost predicate WorkAhead(v: Service) {
    forall i :: 0 <= i < |v.calls| && Holds(v.calls[i]) && !v.calls[i].Leaving? ==>
      OpsBefore(v.history, |v.owners| - 1)
  }

  lemma EventKeepsFlagOrder(x: Setting, v: Service, e: Event)
    requires Exclusive(v) && InFlagOrder(v) && WorkAhead(v) && Possible(x, v, e)
    ensures InFlagOrder(After(x, v, e))
  {
    if e.PoolDone? || e.Truncate? {
      assert Holds(v.calls[e.i]) && OpsBefore(v.history, |v.owners| - 1);
    }
  }

  lemma EventKeepsWorkAhead(x: Setting, v: Service, e: Event)
    requires Exclusive(v) && InFlagOrder(v) && WorkAhead(v) && Possible(x, v, e)
    ensures WorkAhead(After(x, v, e))
  {
    var v' := After(x, v, e);
    if e.Acquire? {
      assert OpsBefore(v'.history, |v'.owners| - 1);
    } else if e.PoolDone? || e.Truncate? {
      assert Holds(v.calls[e.i]);
      assert forall i :: 0 <= i < |v.calls| && i != e.i ==> !Holds(v.calls[i]);
    }
  }

  /** A pool that is under way started from what the earlier calls left. */
  ghost predicate PoolBased(before: Table, call: Call) {
    call.Pooling? ==> call.pool.base == before
  }

  ghost predicate NoPool(v: Service) {
    forall i :: 0 <= i < |v.calls| ==> !v.calls[i].Pooling?
  }

  ghost predicate Serialised(x: Setting, t: Table, v: Service) {
    && AllLone(x, t, v.history)
    && (NoPool(v) ==> v.table == TableAfter(t, v.history))
    && (forall i :: 0 <= i < |v.calls| ==> PoolBased(TableAfter(t, v.history), v.calls[i]))
  }

  lemma LoneAppend(x: Setting, t: Table, history: seq<Op>, op: Op)
    requires AllLone(x, t, history) && Lone(x, TableAfter(t, history), op)
    ensures AllLone(x, t, history + [op])
  {
    var longer := history + [op];
    forall a | 0 <= a < |longer| ensures Lone(x, TableAfter(t, longer[..a]), longer[a]) {
      assert longer[..a] == history[..a];
      assert a == |history| ==> history[..a] == history;
      assert a < |history| ==> Lone(x, TableAfter(t, history[..a]), history[a]);
    }
  }

  /** Outside its pool step no call's work depends on where the others are. */
  lemma HolderAlone(v: Service, i: nat)
    requires Exclusive(v) && i < |v.calls| && Holds(v.calls[i])
    ensures forall j :: 0 <= j < |v.calls| && j != i ==> !v.calls[j].Pooling?
    ensures !v.calls[i].Pooling? ==> NoPool(v)
  {
    assert forall j :: 0 <= j < |v.calls| && v.calls[j].Pooling? ==> Holds(v.calls[j]);
  }

  lemma PoolDoneKeepsSerial(x: Setting, t: Table, v: Service, i: nat)
    requires Exclusive(v) && PoolsRun(x, v) && Possible(x, v, PoolDone(i)) && Serialised(x, t, v)
    ensures Serialised(x, t, After(x, v, PoolDone(i)))
  {
    HolderAlone(v, i);
    assert PoolRuns(x, v, i) && PoolBased(TableAfter(t, v.history), v.calls[i]);
    LoneAppend(x, t, v.history, Op(i, |v.owners| - 1, Updated(View(v, v.calls[i].pool))));
  }

  lemma TruncateKeepsSerial(x: Setting, t: Table, v: Service, i: nat, ok: bool)
    requires Exclusive(v) && Possible(x, v, Truncate(i, ok)) && Serialised(x, t, v)
    ensures Serialised(x, t, After(x, v, Truncate(i, ok)))
  {
    HolderAlone(v, i);
    LoneAppend(x, t, v.history, Op(i, |v.owners| - 1, Emptied));
  }

  lemma PoolStepKeepsSerial(x: Setting, t: Table, v: Service, i: nat, step: Step)
    requires Exclusive(v) && Possible(x, v, PoolStep(i, step)) && Serialised(x, t, v)
    ensures Serialised(x, t, After(x, v, PoolStep(i, step)))
  {
    HolderAlone(v, i);
    var v' := After(x, v, PoolStep(i, step));
    assert v'.calls[i].Pooling?;
    assert PoolBased(TableAfter(t, v.history), v.calls[i]);
  }

  lemma ListIdsKeepsSerial(x: Setting, t: Table, v: Service, i: nat, ok: bool)
    requires Exclusive(v) && Possible(x, v, ListIds(i, ok)) && Serialised(x, t, v)
    ensures Serialised(x, t, After(x, v, ListIds(i, ok)))
  {
    HolderAlone(v, i);
    var v' := After(x, v, ListIds(i, ok));
    assert v'.calls[i].Pooling? <==> ok;
  }

  lemma OthersKeepSerial(x: Setting, t: Table, v: Service, e: Event)
    requires Possible(x, v, e) && Serialised(x, t, v)
    requires e.Arrive? || e.Acquire? || e.Reject? || e.AskLatest? || e.Release?
    ensures Serialised(x, t, After(x, v, e))
  {
    var v' := After(x, v, e);
    assert forall i :: 0 <= i < |v.calls| && v.calls[i].Pooling? ==> v'.calls[i] == v.calls[i];
    assert forall i :: 0 <= i < |v'.calls| && v'.calls[i].Pooling? ==> i < |v.calls| && v.calls[i] == v'.calls[i];
    assert forall i :: 0 <= i < |v.calls| ==> PoolBased(TableAfter(t, v.history), v.calls[i]);
  }

  lemma EventKeepsSerial(x: Setting, t: Table, v: Service, e: Event)
    requires Exclusive(v) && PoolsRun(x, v) && Possible(x, v, e) && Serialised(x, t, v)
    ensures Serialised(x, t, After(x, v, e))
  {
    match e
    case PoolStep(i, step) => PoolStepKeepsSerial(x, t, v, i, step);
    case PoolDone(i) => PoolDoneKeepsSerial(x, t, v, i);
    case Truncate(i, ok) => TruncateKeepsSerial(x, t, v, i, ok);
    case ListIds(i, ok) => ListIdsKeepsSerial(x, t, v, i, ok);
    case _ => OthersKeepSerial(x, t, v, e);
  }

  // ----- when the work can be named in advance

  /** The update was not cancelled and its schedule could not show: one worker, or no two of its missing
      ids write different rows under one key. */
  ghost predicate Determined(x: Setting, before: Table, op: Op) {
    op.effect.Updated? ==>
      && !op.effect.pool.cancelled
      && (x.concurrency == 1 || ConflictFree(x.world(op.call), Missing(op.effect.pool.latest, before.Keys)))
  }

  ghost predicate AllDetermined(x: Setting, t: Table, history: seq<Op>) {
    forall a :: 0 <= a < |history| ==> Determined(x, TableAfter(t, history[..a]), history[a])
  }

  /** The work done one call after another, every update one missing id after another. */
  function Serial(x: Setting, t: Table, history: seq<Op>): Table {
    if history == [] then t
    else
      var before := Serial(x, t, history[..|history| - 1]);
      var op := history[|history| - 1];
      match op.effect
      case Updated(pool) => Sequential(x.world(op.call), before, Missing(pool.latest, before.Keys))
      case Emptied => map[]
  }

  lemma {:induction false} DeterminedIsSerial(x: Setting, t: Table, history: seq<Op>)
    requires x.concurrency >= 1 && AllLone(x, t, history) && AllDetermined(x, t, history)
    ensures TableAfter(t, history) == Serial(x, t, history)
  {
    if history == [] {
    } else {
      var n := |history| - 1;
      var front, op := history[..n], history[n];
      assert forall a :: 0 <= a < n ==> front[..a] == history[..a];
      DeterminedIsSerial(x, t, front);
      assert Lone(x, TableAfter(t, front), op) && Determined(x, TableAfter(t, front), op);
      if op.effect.Updated? {
        var pool := op.effect.pool;
        ReachableInv(x.world(op.call), TableAfter(t, front), pool.latest, x.concurrency, pool);
        CompleteRunIsSequential(x.world(op.call), pool);
      }
    }
  }

  // ----- the theorems about every run

  ghost predicate Good(x: Setting, t: Table, v: Service) {
    && Exclusive(v) && Attributed(v) && TruncationsLast(v) && InFlagOrder(v) && WorkAhead(v)
    && Accounted(t, v) && PoolsRun(x, v) && Serialised(x, t, v)
  }

  lemma EventKeepsGood(x: Setting, t: Table, v: Service, e: Event)
    requires x.concurrency >= 1 && Good(x, t, v) && Possible(x, v, e)
    ensures Good(x, t, After(x, v, e))
  {
    EventKeepsExclusive(x, v, e);
    EventKeepsAttributed(x, v, e);
    EventKeepsTruncations(x, v, e);
    EventKeepsFlagOrder(x, v, e);
    EventKeepsWorkAhead(x, v, e);
    EventKeepsAccounted(x, t, v, e);
    EventKeepsPools(x, v, e);
    EventKeepsSerial(x, t, v, e);
  }

  lemma {:induction false} RunKeepsGood(x: Setting, t: Table, v: Service, events: seq<Event>, v': Service)
    requires x.concurrency >= 1 && Good(x, t, v) && Runs(x, v, events, v')
    ensures Good(x, t, v')
    decreases |events|
  {
    if events == [] {
    } else {
      EventKeepsGood(x, t, v, events[0]);
      RunKeepsGood(x, t, After(x, v, events[0]), events[1..], v');
    }
  }

  ghost predicate Occurs(x: Setting, t: Table, v: Service) {
    exists events :: Runs(x, Opening(t), events, v)
  }

  lemma OccursGood(x: Setting, t: Table, v: Service)
    requires x.concurrency >= 1 && Occurs(x, t, v)
    ensures Good(x, t, v)
  {
    var events :| Runs(x, Opening(t), events, v);
    RunKeepsGood(x, t, Opening(t), events, v);
  }

  /** The flag is up exactly while one call holds it, and then only that one does. So at most one
      pool exists, and none when the flag is down. */
  lemma OneHolder(x: Setting, t: Table, v: Service, i: nat, j: nat)
    requires x.concurrency >= 1 && Occurs(x, t, v) && i < |v.calls| && j < |v.calls|
    ensures v.running <==> exists k :: 0 <= k < |v.calls| && Holds(v.calls[k])
    ensures Holds(v.calls[i]) && Holds(v.calls[j]) ==> i == j
  {
    OccursGood(x, t, v);
    if v.running {
      var o := v.owners[|v.owners| - 1];
      assert o in v.owners;
      assert Holds(v.calls[o]);
    }
  }

  /** A call is turned away only while another one holds the flag, and taking it needs nobody to. */
  lemma TurnedAwayIffHeld(x: Setting, t: Table, v: Service, i: nat)
    requires x.concurrency >= 1 && Occurs(x, t, v) && i < |v.calls| && v.calls[i].Fresh?
    ensures Possible(x, v, Reject(i)) <==> exists k :: 0 <= k < |v.calls| && k != i && Holds(v.calls[k])
    ensures Possible(x, v, Acquire(i)) <==> forall k :: 0 <= k < |v.calls| ==> !Holds(v.calls[k])
  {
    OneHolder(x, t, v, i, i);
  }

  // ----- what each call was told and answers

  /** The event is a move of call `i` itself. */
  predicate IsMoveOf(e: Event, i: nat) {
    match e
    case Arrive(_) => false
    case Acquire(o) => o == i
    case Reject(o) => o == i
    case AskLatest(o, _) => o == i
    case ListIds(o, _) => o == i
    case PoolStep(o, _) => o == i
    case PoolDone(o) => o == i
    case Truncate(o, _) => o == i
    case Release(o) => o == i
  }

  function Arrivals(events: seq<Event>): seq<Kind> {
    if events == [] then []
    else Arrivals(events[..|events| - 1])
         + match events[|events| - 1] case Arrive(kind) => [kind] case _ => []
  }

  /** The calls that took the flag, in order. */
  function Takers(events: seq<Event>): seq<nat> {
    if events == [] then []
    else Takers(events[..|events| - 1]) + match events[|events| - 1] case Acquire(i) => [i] case _ => []
  }

  /** What happened to call `i`, apart from the steps of its pool. */
  function Story(events: seq<Event>, i: nat): seq<Event> {
    if events == [] then []
    else
      var e := events[|events| - 1];
      Story(events[..|events| - 1], i) + if IsMoveOf(e, i) && !e.PoolStep? then [e] else []
  }

  /** The pool of call `i` ended like this. */
  ghost predicate Ended(history: seq<Op>, i: nat, latest: int, success: bool) {
    exists a :: 0 <= a < |history| && history[a].call == i && history[a].effect.Updated?
                && history[a].effect.pool.latest == latest
                && (success <==> history[a].effect.pool.dispatcher == Returned(Success))
  }

  /** The story of a call that is done except for the release of the flag. */
  ghost predicate Finished(kind: Kind, reply: Reply, story: seq<Event>, i: nat, history: seq<Op>) {
    match kind
    case DropCall =>
      || (reply == Ok && story == [Acquire(i), Truncate(i, true)])
      || (reply == Failure && story == [Acquire(i), Truncate(i, false)])
    case UpdateCall =>
      || (reply == Failure && story == [Acquire(i), AskLatest(i, None)])
      || (reply == Failure && exists n :: story == [Acquire(i), AskLatest(i, Some(n)), ListIds(i, false)])
      || (reply != AlreadyExists
          && exists n :: story == [Acquire(i), AskLatest(i, Some(n)), ListIds(i, true), PoolDone(i)]
                         && Ended(history, i, n, reply == Ok))
  }

  /** Where a call is follows from its kind and its story. */
  ghost predicate Told(kind: Kind, call: Call, story: seq<Event>, i: nat, history: seq<Op>) {
    match call
    case Fresh(k) => k == kind && story == []
    case Asking => kind == UpdateCall && story == [Acquire(i)]
    case Listing(n) => kind == UpdateCall && story == [Acquire(i), AskLatest(i, Some(n))]
    case Pooling(pool) =>
      kind == UpdateCall && story == [Acquire(i), AskLatest(i, Some(pool.latest)), ListIds(i, true)]
    case Dropping => kind == DropCall && story == [Acquire(i)]
    case Leaving(reply) => Finished(kind, reply, story, i, history)
    case Over(reply) =>
      || (reply == AlreadyExists && story == [Reject(i)])
      || (story != [] && story[|story| - 1] == Release(i) && Finished(kind, reply, story[..|story| - 1], i, history))
  }

  /** A piece of work follows from the story of its call. */
  ghost predicate Sourced(op: Op, kinds: seq<Kind>, story: seq<Event>) {
    && op.call < |kinds|
    && match op.effect
       case Updated(pool) =>
         && kinds[op.call] == UpdateCall
         && [Acquire(op.call), AskLatest(op.call, Some(pool.latest)), ListIds(op.call, true), PoolDone(op.call)]
            <= story
       case Emptied =>
         kinds[op.call] == DropCall && [Acquire(op.call), Truncate(op.call, true)] <= story
  }

  ghost predicate Explained(events: seq<Event>, v: Service) {
    && |v.calls| == |Arrivals(events)| && v.owners == Takers(events)
    && (forall i :: 0 <= i < |v.calls| ==> Told(Arrivals(events)[i], v.calls[i], Story(events, i), i, v.history))
    && (forall i :: i >= |v.calls| ==> Story(events, i) == [])
    && (forall a :: 0 <= a < |v.history| ==> Sourced(v.history[a], Arrivals(events), Story(events, v.history[a].call)))
  }

  lemma EndedStill(history: seq<Op>, op: Op, i: nat, latest: int, success: bool)
    requires Ended(history, i, latest, success)
    ensures Ended(history + [op], i, latest, success)
  {
    var a :| 0 <= a < |history| && history[a].call == i && history[a].effect.Updated?
             && history[a].effect.pool.latest == latest
             && (success <==> history[a].effect.pool.dispatcher == Returned(Success));
    assert (history + [op])[a] == history[a];
  }

  lemma ToldStill(kind: Kind, call: Call, story: seq<Event>, i: nat, history: seq<Op>, op: Op)
    requires Told(kind, call, story, i, history)
    ensures Told(kind, call, story, i, history + [op])
  {
    forall n, success | Ended(history, i, n, success) ensures Ended(history + [op], i, n, success) {
      EndedStill(history, op, i, n, success);
    }
  }

  lemma PoolDoneTold(x: Setting, v: Service, i: nat, kind: Kind, story: seq<Event>)
    requires Possible(x, v, PoolDone(i)) && Told(kind, v.calls[i], story, i, v.history)
    ensures
      var v' := After(x, v, PoolDone(i));
      Told(kind, v'.calls[i], story + [PoolDone(i)], i, v'.history)
  {
    var v' := After(x, v, PoolDone(i));
    var n := v.calls[i].pool.latest;
    assert v'.history[|v.history|] == Op(i, |v.owners| - 1, Updated(View(v, v.calls[i].pool)));
    assert Ended(v'.history, i, n, v'.calls[i].reply == Ok);
    assert story + [PoolDone(i)] == [Acquire(i), AskLatest(i, Some(n)), ListIds(i, true), PoolDone(i)];
  }

  lemma KeepsPlan(world: World, s: State, step: Step)
    requires Enabled(world, s, step)
    ensures Apply(world, s, step).latest == s.latest
  {
  }

  /** The move of a call carries its story on. */
  lemma MoveTold(x: Setting, v: Service, e: Event, i: nat, kind: Kind, story: seq<Event>)
    requires Possible(x, v, e) && i < |v.calls| && IsMoveOf(e, i) && Told(kind, v.calls[i], story, i, v.history)
    ensures
      var v' := After(x, v, e);
      Told(kind, v'.calls[i], story + if e.PoolStep? then [] else [e], i, v'.history)
  {
    match e
    case PoolStep(_, step) =>
      assert story + [] == story;
      KeepsPlan(x.world(i), View(v, v.calls[i].pool), step);
    case PoolDone(_) => PoolDoneTold(x, v, i, kind, story);
    case Truncate(_, ok) => assert story + [e] == [Acquire(i), Truncate(i, ok)];
    case ListIds(_, ok) =>
      assert story + [e] == [Acquire(i), AskLatest(i, Some(v.calls[i].latest)), ListIds(i, ok)];
    case Release(_) => assert (story + [e])[..|story|] == story;
    case AskLatest(_, _) => assert story + [e] == [Acquire(i), e];
    case Acquire(_) => assert story + [e] == [e];
    case Reject(_) => assert story + [e] == [e];
    case Arrive(_) =>
  }

  lemma StoryEnd(events: seq<Event>, e: Event, i: nat)
    ensures Story(events + [e], i) == Story(events, i) + if IsMoveOf(e, i) && !e.PoolStep? then [e] else []
    ensures Arrivals(events + [e]) == Arrivals(events) + match e case Arrive(kind) => [kind] case _ => []
    ensures Takers(events + [e]) == Takers(events) + match e case Acquire(o) => [o] case _ => []
  {
    assert (events + [e])[..|events|] == events;
  }

  lemma CallsExplained(x: Setting, events: seq<Event>, v: Service, e: Event, i: nat)
    requires Explained(events, v) && Possible(x, v, e) && i < |After(x, v, e).calls|
    ensures
      var v' := After(x, v, e);
      Told(Arrivals(events + [e])[i], v'.calls[i], Story(events + [e], i), i, v'.history)
  {
    var v' := After(x, v, e);
    StoryEnd(events, e, i);
    if i == |v.calls| {
      assert Story(events, i) == [];
    } else {
      var kind, story := Arrivals(events)[i], Story(events, i);
      assert Told(kind, v.calls[i], story, i, v.history);
      if IsMoveOf(e, i) {
        MoveTold(x, v, e, i, kind, story);
      } else {
        assert story + [] == story;
        assert v'.calls[i] == v.calls[i];
        if v'.history != v.history {
          ToldStill(kind, v.calls[i], story, i, v.history, v'.history[|v.history|]);
        }
      }
    }
  }

  lemma OldOpSourced(events: seq<Event>, e: Event, op: Op)
    requires Sourced(op, Arrivals(events), Story(events, op.call))
    ensures Sourced(op, Arrivals(events + [e]), Story(events + [e], op.call))
  {
    StoryEnd(events, e, op.call);
  }

  lemma NewOpSourced(x: Setting, events: seq<Event>, v: Service, e: Event)
    requires Explained(events, v) && Possible(x, v, e) && After(x, v, e).history != v.history
    ensures
      var op := After(x, v, e).history[|v.history|];
      Sourced(op, Arrivals(events + [e]), Story(events + [e], op.call))
  {
    var i := e.i;
    StoryEnd(events, e, i);
    assert Told(Arrivals(events)[i], v.calls[i], Story(events, i), i, v.history);
  }

  lemma OpsExplained(x: Setting, events: seq<Event>, v: Service, e: Event, a: nat)
    requires Explained(events, v) && Possible(x, v, e) && a < |After(x, v, e).history|
    ensures
      var op := After(x, v, e).history[a];
      Sourced(op, Arrivals(events + [e]), Story(events + [e], op.call))
  {
    if a < |v.history| {
      OldOpSourced(events, e, v.history[a]);
    } else {
      NewOpSourced(x, events, v, e);
    }
  }

  lemma EventExplained(x: Setting, events: seq<Event>, v: Service, e: Event)
    requires Explained(events, v) && Possible(x, v, e)
    ensures Explained(events + [e], After(x, v, e))
  {
    var v' := After(x, v, e);
    StoryEnd(events, e, 0);
    forall i | 0 <= i < |v'.calls|
      ensures Told(Arrivals(events + [e])[i], v'.calls[i], Story(events + [e], i), i, v'.history)
    {
      CallsExplained(x, events, v, e, i);
    }
    forall i | i >= |v'.calls| ensures Story(events + [e], i) == [] {
      StoryEnd(events, e, i);
    }
    forall a | 0 <= a < |v'.history|
      ensures Sourced(v'.history[a], Arrivals(events + [e]), Story(events + [e], v'.history[a].call))
    {
      OpsExplained(x, events, v, e, a);
    }
  }

  lemma {:induction false} RunExplained(x: Setting, past: seq<Event>, v: Service, events: seq<Event>, v': Service)
    requires Explained(past, v) && Runs(x, v, events, v')
    ensures Explained(past + events, v')
    decreases |events|
  {
    if events == [] {
      assert past + events == past;
    } else {
      EventExplained(x, past, v, events[0]);
      RunExplained(x, past + [events[0]], After(x, v, events[0]), events[1..], v');
      assert past + events == past + [events[0]] + events[1..];
    }
  }

  lemma {:induction false} StoryHolds(events: seq<Event>, i: nat, e: Event)
    ensures e in Story(events, i) <==> e in events && IsMoveOf(e, i) && !e.PoolStep?
  {
    if events == [] {
    } else {
      var front, last := events[..|events| - 1], events[|events| - 1];
      StoryHolds(front, i, e);
      assert events == front + [last];
    }
  }

  /** The calls took the flag in the order of the history, every update that is in its pool or past it
      works up to the last number that its call was told, and updates and drops are told apart. */
  lemma PoolsWorkToAnswer(x: Setting, t: Table, events: seq<Event>, v: Service)
    requires Runs(x, Opening(t), events, v)
    ensures v.owners == Takers(events) && |v.calls| == |Arrivals(events)|
    ensures forall i :: 0 <= i < |v.calls| && v.calls[i].Pooling? ==>
              Arrivals(events)[i] == UpdateCall && AskLatest(i, Some(v.calls[i].pool.latest)) in events
    ensures forall a :: 0 <= a < |v.history| && v.history[a].effect.Updated? ==>
              && v.history[a].call < |Arrivals(events)| && Arrivals(events)[v.history[a].call] == UpdateCall
              && AskLatest(v.history[a].call, Some(v.history[a].effect.pool.latest)) in events
    ensures forall a :: 0 <= a < |v.history| && v.history[a].effect.Emptied? ==>
              && v.history[a].call < |Arrivals(events)| && Arrivals(events)[v.history[a].call] == DropCall
              && Truncate(v.history[a].call, true) in events
  {
    RunExplained(x, [], Opening(t), events, v);
    assert [] + events == events;
    forall i | 0 <= i < |v.calls| && v.calls[i].Pooling?
      ensures Arrivals(events)[i] == UpdateCall && AskLatest(i, Some(v.calls[i].pool.latest)) in events
    {
      assert Told(Arrivals(events)[i], v.calls[i], Story(events, i), i, v.history);
      assert Story(events, i)[1] == AskLatest(i, Some(v.calls[i].pool.latest));
      StoryHolds(events, i, Story(events, i)[1]);
    }
    forall a | 0 <= a < |v.history|
      ensures v.history[a].call < |Arrivals(events)|
      ensures
        var op := v.history[a];
        match op.effect
        case Updated(pool) =>
          Arrivals(events)[op.call] == UpdateCall && AskLatest(op.call, Some(pool.latest)) in events
        case Emptied => Arrivals(events)[op.call] == DropCall && Truncate(op.call, true) in events
    {
      var op := v.history[a];
      assert Sourced(op, Arrivals(events), Story(events, op.call));
      StoryHolds(events, op.call, Story(events, op.call)[1]);
    }
  }

  /** The update of call `i` succeeded. */
  ghost predicate Succeeded(history: seq<Op>, i: nat) {
    exists a :: 0 <= a < |history| && history[a].call == i && history[a].effect.Updated?
                && history[a].effect.pool.dispatcher == Returned(Success)
  }

  lemma OneOpEach(v: Service, a: nat, b: nat)
    requires Exclusive(v) && InFlagOrder(v) && a < |v.history| && b < |v.history|
    requires v.history[a].call == v.history[b].call
    ensures a == b
  {
    assert v.owners[v.history[a].turn] == v.owners[v.history[b].turn];
  }

  lemma SucceededIff(v: Service, i: nat, latest: int, success: bool)
    requires Exclusive(v) && InFlagOrder(v) && Ended(v.history, i, latest, success)
    ensures Succeeded(v.history, i) <==> success
  {
    var a :| 0 <= a < |v.history| && v.history[a].call == i && v.history[a].effect.Updated?
             && v.history[a].effect.pool.latest == latest
             && (success <==> v.history[a].effect.pool.dispatcher == Returned(Success));
    if b :| 0 <= b < |v.history| && v.history[b].call == i && v.history[b].effect.Updated?
            && v.history[b].effect.pool.dispatcher == Returned(Success) {
      OneOpEach(v, a, b);
    }
  }

  lemma FinishedMeans(v: Service, kinds: seq<Kind>, reply: Reply, core: seq<Event>, story: seq<Event>, i: nat)
    requires Exclusive(v) && InFlagOrder(v) && i < |kinds| && Finished(kinds[i], reply, core, i, v.history)
    requires story == core || story == core + [Release(i)]
    requires forall a :: 0 <= a < |v.history| && v.history[a].call == i ==> Sourced(v.history[a], kinds, story)
    ensures Reject(i) !in story && reply != AlreadyExists
    ensures reply == Ok <==> Truncate(i, true) in story || Succeeded(v.history, i)
  {
    assert forall e :: e in story ==> e in core || e == Release(i);
    if Succeeded(v.history, i) {
      assert kinds[i] == UpdateCall && |story| >= 4 && story[3] == PoolDone(i);
    }
    if kinds[i] == DropCall {
      assert core[1] in core && core[1] in story;
    } else if n :| core == [Acquire(i), AskLatest(i, Some(n)), ListIds(i, true), PoolDone(i)]
                   && Ended(v.history, i, n, reply == Ok) {
      SucceededIff(v, i, n, reply == Ok);
    }
  }

  lemma SourcedByStory(v: Service, events: seq<Event>, i: nat)
    requires Explained(events, v)
    ensures forall a :: 0 <= a < |v.history| && v.history[a].call == i ==>
              Sourced(v.history[a], Arrivals(events), Story(events, i))
  {
  }

  lemma RepliesTold(v: Service, events: seq<Event>, i: nat)
    requires Exclusive(v) && InFlagOrder(v) && Explained(events, v)
    requires i < |v.calls| && (v.calls[i].Leaving? || v.calls[i].Over?)
    ensures v.calls[i].reply == AlreadyExists <==> Reject(i) in Story(events, i)
    ensures v.calls[i].reply == Ok <==> Truncate(i, true) in Story(events, i) || Succeeded(v.history, i)
  {
    var kinds, call, story := Arrivals(events), v.calls[i], Story(events, i);
    assert Told(kinds[i], call, story, i, v.history);
    SourcedByStory(v, events, i);
    if story == [Reject(i)] {
      assert !Succeeded(v.history, i);
    } else if call.Leaving? {
      FinishedMeans(v, kinds, call.reply, story, story, i);
    } else {
      FinishedMeans(v, kinds, call.reply, story[..|story| - 1], story, i);
    }
  }

  /** What a reply means: the call was turned away, or its truncation or its pool succeeded, or neither. */
  lemma RepliesMean(x: Setting, t: Table, events: seq<Event>, v: Service, i: nat)
    requires x.concurrency >= 1 && Runs(x, Opening(t), events, v)
    requires i < |v.calls| && (v.calls[i].Leaving? || v.calls[i].Over?)
    ensures v.calls[i].reply == AlreadyExists <==> Reject(i) in events
    ensures v.calls[i].reply == Ok <==> Truncate(i, true) in events || Succeeded(v.history, i)
  {
    RunExplained(x, [], Opening(t), events, v);
    assert [] + events == events;
    OccursGood(x, t, v);
    RepliesTold(v, events, i);
    StoryHolds(events, i, Reject(i));
    StoryHolds(events, i, Truncate(i, true));
  }

  // ----- the flag clears

  function Phase(call: Call): nat {
    match call
    case Fresh(_) => 5
    case Asking => 4
    case Listing(_) => 3
    case Pooling(_) => 2
    case Dropping => 2
    case Leaving(_) => 1
    case Over(_) => 0
  }

  function PoolLeft(call: Call): nat {
    match call case Pooling(pool) => Measure(pool) case _ => 0
  }

  /** The call has come closer to its end: it is in a later phase or further on in its pool. */
  predicate Closer(call': Call, call: Call) {
    Phase(call') < Phase(call) || (Phase(call') == Phase(call) && PoolLeft(call') < PoolLeft(call))
  }

  /** Whatever the call is answered, the model has it. */
  lemma AnyAnswer(x: Setting, v: Service, i: nat)
    requires i < |v.calls|
    ensures v.calls[i].Asking? ==> forall answer :: Possible(x, v, AskLatest(i, answer))
    ensures v.calls[i].Listing? ==> forall ok :: Possible(x, v, ListIds(i, ok))
    ensures v.calls[i].Dropping? ==> forall ok :: Possible(x, v, Truncate(i, ok))
  {
  }

  /** Whoever holds the flag can go on by itself, without a cancellation and without the other calls. */
  lemma HolderCanMove(x: Setting, t: Table, v: Service, i: nat) returns (e: Event)
    requires x.concurrency >= 1 && Occurs(x, t, v) && i < |v.calls| && Holds(v.calls[i])
    ensures IsMoveOf(e, i) && Possible(x, v, e) && !(e.PoolStep? && e.step.Cancel?)
  {
    OccursGood(x, t, v);
    match v.calls[i]
    case Asking => e := AskLatest(i, None);
    case Listing(_) => e := ListIds(i, false);
    case Pooling(pool) =>
      assert PoolRuns(x, v, i);
      if pool.dispatcher.Returned? {
        e := PoolDone(i);
      } else {
        var step := NeverStuck(x.world(i), pool.base, pool.latest, x.concurrency, View(v, pool));
        e := PoolStep(i, step);
      }
    case Dropping => e := Truncate(i, true);
    case Leaving(_) => e := Release(i);
  }

  /** Every move of a call brings it closer to its end, and no other event sets it back. */
  lemma MovesComeCloser(x: Setting, v: Service, e: Event, i: nat)
    requires Possible(x, v, e) && i < |v.calls|
    ensures IsMoveOf(e, i) ==> Closer(After(x, v, e).calls[i], v.calls[i])
    ensures !IsMoveOf(e, i) ==> After(x, v, e).calls[i] == v.calls[i]
  {
    if e.PoolStep? && e.i == i {
      StepDecreases(x.world(i), View(v, v.calls[i].pool), e.step);
    }
  }

  lemma {:induction false} RunsThen(x: Setting, a: Service, events: seq<Event>, v: Service, e: Event)
    requires Runs(x, a, events, v) && Possible(x, v, e)
    ensures Runs(x, a, events + [e], After(x, v, e))
    decreases |events|
  {
    if events == [] {
      assert Runs(x, After(x, v, e), [], After(x, v, e));
    } else {
      RunsThen(x, After(x, a, events[0]), events[1..], v, e);
      assert (events + [e])[1..] == events[1..] + [e];
    }
  }

  lemma OccursAfter(x: Setting, t: Table, v: Service, e: Event)
    requires Occurs(x, t, v) && Possible(x, v, e)
    ensures Occurs(x, t, After(x, v, e))
  {
    var events :| Runs(x, Opening(t), events, v);
    RunsThen(x, Opening(t), events, v, e);
  }

  ghost predicate AllMovesOf(events: seq<Event>, i: nat) {
    forall a :: 0 <= a < |events| ==> IsMoveOf(events[a], i)
  }

  /** The flag always clears: from every state in which it is up, the call that holds it can end by its
      own moves alone, and then the flag is down. */
  lemma {:induction false} FlagClears(x: Setting, t: Table, v: Service, i: nat)
    returns (events: seq<Event>, v': Service)
    requires x.concurrency >= 1 && Occurs(x, t, v) && i < |v.calls| && Holds(v.calls[i])
    ensures Runs(x, v, events, v') && AllMovesOf(events, i)
    ensures !v'.running && i < |v'.calls| && v'.calls[i].Over?
    decreases Phase(v.calls[i]), PoolLeft(v.calls[i])
  {
    var e := HolderCanMove(x, t, v, i);
    var mid := After(x, v, e);
    MovesComeCloser(x, v, e, i);
    if e.Release? {
      events, v' := [e], mid;
      assert Runs(x, mid, [], mid);
    } else {
      OccursAfter(x, t, v, e);
      var rest;
      rest, v' := FlagClears(x, t, mid, i);
      events := [e] + rest;
      assert events[1..] == rest;
    }
  }

  // ----- what the holder of the flag does to the table

  /** When an update leaves its pool, and so before the flag clears, every worker has exited. */
  lemma WorkersGoneBeforeRelease(x: Setting, t: Table, v: Service, i: nat)
    requires x.concurrency >= 1 && Occurs(x, t, v) && Possible(x, v, PoolDone(i))
    ensures AllExited(v.calls[i].pool.workers)
  {
    OccursGood(x, t, v);
    var pool := v.calls[i].pool;
    assert PoolRuns(x, v, i);
    ReachableInv(x.world(i), pool.base, pool.latest, x.concurrency, View(v, pool));
  }

  /** No write escapes its run. The table is what the journal says; every change was made by the call
      that held the flag then, and whatever is written after a drop truncated the table was written by
      a call that took the flag after the drop did. */
  lemma NoWriteEscapes(x: Setting, t: Table, v: Service)
    requires x.concurrency >= 1 && Occurs(x, t, v)
    ensures v.table == Play(t, v.journal)
    ensures NoDuplicates(v.owners)
    ensures forall a :: 0 <= a < |v.journal| ==>
              0 <= v.journal[a].turn < |v.owners| && v.owners[v.journal[a].turn] == v.journal[a].call
    ensures forall a, b :: 0 <= a < b < |v.journal| && v.journal[a].change.Truncated? ==>
              v.journal[a].turn < v.journal[b].turn && v.journal[a].call != v.journal[b].call
  {
    OccursGood(x, t, v);
  }

  /** Concurrent calls behave like calls made one after another. In every run, cancelled or not, what
      the calls did to the table is a list of pieces of work, one per holding of the flag and in the
      order in which the flag was taken; each update among them ended in a state that a lone run on the
      table left by the pieces before it can return in; and whenever no pool is at work the table is
      the one after the last piece. So all that holds of a lone update holds of each of them. */
  lemma ServiceIsSerial(x: Setting, t: Table, v: Service)
    requires x.concurrency >= 1 && Occurs(x, t, v)
    ensures AllLone(x, t, v.history)
    ensures NoPool(v) ==> v.table == TableAfter(t, v.history)
    ensures NoDuplicates(v.owners) && forall a :: 0 <= a < |v.history| ==>
              0 <= v.history[a].turn < |v.owners| && v.owners[v.history[a].turn] == v.history[a].call
    ensures forall a, b :: 0 <= a < b < |v.history| ==> v.history[a].turn < v.history[b].turn
  {
    OccursGood(x, t, v);
  }

  /** If no update so far was cancelled or had conflicting answers for the ids it found missing, then
      the table is, whenever no pool is at work, what the calls leave when each update does its missing
      ids one by one in order. */
  lemma ServiceIsSequential(x: Setting, t: Table, v: Service)
    requires x.concurrency >= 1 && Occurs(x, t, v) && AllDetermined(x, t, v.history) && NoPool(v)
    ensures v.table == Serial(x, t, v.history)
  {
    ServiceIsSerial(x, t, v);
    DeterminedIsSerial(x, t, v.history);
  }
}
