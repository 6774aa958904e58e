/** What one `Update` leaves for the next: cancelled runs, the meaning of a nil result, and the table
    that repeated updates settle on. */
module Convergence {
  import opened Catalog
  import opened Pool
  import opened PoolSafety
  import opened Schedules

  // ----- what a nil result means

  /** When `Update` reports success, every missing id has been sent: the finished jobs and those left
      in the channel are the missing ids. Nothing is left when nothing was cancelled. */
  lemma SuccessAccountsForJobs(world: World, base: Table, latest: int, concurrency: nat, s: State)
    requires concurrency >= 1 && Reachable(world, base, latest, concurrency, s)
    requires s.dispatcher == Returned(Success)
    ensures multiset(DoneIds(s.done)) + multiset(s.queue) == multiset(Missing(latest, base.Keys))
    ensures multiset(DoneIds(s.done)) == multiset(Missing(latest, base.Keys)) <==> s.queue == []
    ensures !s.cancelled ==> s.queue == []
  {
    ReachableInv(world, base, latest, concurrency, s);
    assert s.workers[0] == Exited;
    var missing := Missing(latest, base.Keys);
    assert s.taken + s.queue == missing by {
      assert s.taken + s.queue + [] == s.taken + s.queue;
    }
    forall id ensures multiset(missing)[id] == multiset(DoneIds(s.done))[id] + multiset(s.queue)[id] {
      HeldNothing(s.workers, id);
      assert Times(id, s.taken) == Held(s.workers, id) + Times(id, DoneIds(s.done));
      SplitCounts(missing, s.taken, s.queue, [], id);
    }
    if s.queue != [] {
      assert multiset(s.queue)[s.queue[0]] > 0;
    }
  }

  /** A success of `Update`, cancelled or not, means that every missing id was done. */
  ghost predicate SuccessMeansDone(world: World, base: Table, latest: int, concurrency: nat) {
    forall s | Reachable(world, base, latest, concurrency, s) && s.dispatcher == Returned(Success)
      :: multiset(DoneIds(s.done)) == multiset(Missing(latest, base.Keys))
  }

  lemma {:induction false} SkipRest(world: World, s: State) returns (steps: seq<Step>, s': State)
    requires s.dispatcher.Sending? && s.next <= s.latest + 1
    requires forall id :: s.next <= id <= s.latest ==> id in s.base
    ensures Executes(world, s, steps, s') && s' == s.(next := s.latest + 1)
    decreases s.latest + 1 - s.next
  {
    if s.next > s.latest {
      steps, s' := [], s;
    } else {
      var mid := Apply(world, s, Skip);
      ExecutesOne(world, s, Skip);
      var rest;
      rest, s' := SkipRest(world, mid);
      steps := [Skip] + rest;
      ExecutesConcat(world, s, [Skip], mid, rest, s');
    }
  }

  /** With the last job in the channel and all workers idle, a cancellation right after the close lets
      every worker leave, and `Update` still reports success. */
  lemma LeaveBehind(world: World, s: State) returns (steps: seq<Step>, s': State)
    requires s.dispatcher.Sending? && !s.cancelled && s.next > s.latest
    requires forall w :: 0 <= w < |s.workers| ==> s.workers[w] == Idle
    ensures Executes(world, s, steps, s')
    ensures s'.dispatcher == Returned(Success) && s'.queue == s.queue && s'.table == s.table
  {
    var shut := Apply(world, s, Close);
    ExecutesOne(world, s, Close);
    var struck := Apply(world, shut, Cancel);
    Then(world, s, [Close], shut, Cancel);
    var exits, gone := ExitAll(world, struck, 0);
    ExecutesConcat(world, s, [Close] + [Cancel], struck, exits, gone);
    s' := Apply(world, gone, Return);
    steps := [Close] + [Cancel] + exits + [Return];
    Then(world, s, [Close] + [Cancel] + exits, gone, Return);
  }

  /** When nothing after `last` is missing, the missing ids are those before it and `last`. */
  lemma {:induction false} UnsentUpTo(next: int, last: int, latest: int, have: set<int>)
    requires next <= last <= latest && last !in have && forall id :: last < id <= latest ==> id in have
    ensures Unsent(next, latest, have) == Unsent(next, last - 1, have) + [last]
    decreases latest - last
  {
    if last == latest {
      UnsentEnd(next, latest, have);
    } else {
      UnsentEnd(next, latest, have);
      UnsentUpTo(next, last, latest - 1, have);
    }
  }

  lemma LastMissing(latest: int, have: set<int>) returns (last: int)
    requires Missing(latest, have) != []
    ensures 1 <= last <= latest && last !in have && forall id :: last < id <= latest ==> id in have
    ensures Missing(latest, have) == Unsent(1, last - 1, have) + [last]
  {
    var missing := Missing(latest, have);
    last := missing[|missing| - 1];
    UnsentExact(1, latest, have);
    assert last in missing;
    forall id | last < id <= latest ensures id in have {
      assert id in have || id in missing;
    }
    UnsentUpTo(1, last, latest, have);
  }

  /** Whatever the world and the number of workers, every update with a missing id has a run that
      reports success, leaves the last missing id in the channel and stores only the others. */
  lemma SuccessMayLoseLast(world: World, base: Table, latest: int, concurrency: nat) returns (s: State)
    requires concurrency >= 1 && Missing(latest, base.Keys) != []
    ensures Reachable(world, base, latest, concurrency, s) && s.dispatcher == Returned(Success)
    ensures
      var missing := Missing(latest, base.Keys);
      var n := |missing| - 1;
      s.queue == [missing[n]] && s.table == Sequential(world, base, missing[..n])
  {
    var last := LastMissing(latest, base.Keys);
    var s0 := Start(base, latest, concurrency);
    var p1, s1 := DoRange(world, s0, 0, last);
    var s2 := Apply(world, s1, Send);
    Then(world, s0, p1, s1, Send);
    var p3, s3 := SkipRest(world, s2);
    ExecutesConcat(world, s0, p1 + [Send], s2, p3, s3);
    var p4, s4 := LeaveBehind(world, s3);
    ExecutesConcat(world, s0, p1 + [Send] + p3, s3, p4, s4);
    s := s4;
  }

  /** A success means that everything was done exactly when there was nothing to do. */
  lemma SuccessMeansDoneIff(world: World, base: Table, latest: int, concurrency: nat)
    requires concurrency >= 1
    ensures SuccessMeansDone(world, base, latest, concurrency) <==> Missing(latest, base.Keys) == []
  {
    if Missing(latest, base.Keys) == [] {
      forall s | Reachable(world, base, latest, concurrency, s) && s.dispatcher == Returned(Success)
        ensures multiset(DoneIds(s.done)) == multiset(Missing(latest, base.Keys))
      {
        SuccessAccountsForJobs(world, base, latest, concurrency, s);
        assert multiset(DoneIds(s.done)) <= multiset(Missing(latest, base.Keys));
      }
    } else {
      var s := SuccessMayLoseLast(world, base, latest, concurrency);
      SuccessAccountsForJobs(world, base, latest, concurrency, s);
    }
  }

  // ----- how far a cancelled update may get

  /** After the cancellation the dispatcher gives up at a missing id and the idle workers leave. */
  lemma GiveUp(world: World, s: State) returns (steps: seq<Step>, s': State)
    requires s.dispatcher.Sending? && s.cancelled && s.next <= s.latest && s.next !in s.base
    requires forall w :: 0 <= w < |s.workers| ==> s.workers[w] == Idle
    ensures Executes(world, s, steps, s')
    ensures s'.dispatcher == Returned(Cancelled) && s'.cancelled && s'.table == s.table
  {
    var shut := Apply(world, s, SeeCancel);
    ExecutesOne(world, s, SeeCancel);
    var exits, gone := ExitAll(world, shut, 0);
    ExecutesConcat(world, s, [SeeCancel], shut, exits, gone);
    s' := Apply(world, gone, Return);
    steps := [SeeCancel] + exits + [Return];
    Then(world, s, [SeeCancel] + exits, gone, Return);
  }

  /** An update cancelled right after its start may give up at any missing id, having stored what
      precedes it. */
  lemma MayGiveUpAt(world: World, base: Table, latest: int, concurrency: nat, id: int) returns (s: State)
    requires concurrency >= 1 && id in Missing(latest, base.Keys)
    ensures Reachable(world, base, latest, concurrency, s) && s.dispatcher == Returned(Cancelled)
    ensures s.table == Sequential(world, base, Missing(id - 1, base.Keys))
  {
    UnsentExact(1, latest, base.Keys);
    var s0 := Start(base, latest, concurrency);
    var s1 := Apply(world, s0, Cancel);
    ExecutesOne(world, s0, Cancel);
    var p2, s2 := DoRange(world, s1, 0, id);
    ExecutesConcat(world, s0, [Cancel], s1, p2, s2);
    var p3, s3 := GiveUp(world, s2);
    ExecutesConcat(world, s0, [Cancel] + p2, s2, p3, s3);
    s := s3;
  }

  /** It may also do everything and report success, because Go picks freely among what is ready. */
  lemma MayFinishCancelled(world: World, base: Table, latest: int, concurrency: nat) returns (s: State)
    requires concurrency >= 1
    ensures Reachable(world, base, latest, concurrency, s) && s.dispatcher == Returned(Success) && s.cancelled
    ensures s.table == Sequential(world, base, Missing(latest, base.Keys))
  {
    var s0 := Start(base, latest, concurrency);
    var s1 := Apply(world, s0, Cancel);
    ExecutesOne(world, s0, Cancel);
    var p2: seq<Step>, s2 := [], s1;
    if latest >= 0 {
      p2, s2 := DoRange(world, s1, 0, latest + 1);
    }
    ExecutesConcat(world, s0, [Cancel], s1, p2, s2);
    var p3, s3 := WindUp(world, s2);
    ExecutesConcat(world, s0, [Cancel] + p2, s2, p3, s3);
    s := s3;
  }

  /** The first worker holds job `id`, at its fetch or ready to store, and the context is cancelled. */
  lemma HeldWhenCancelled(world: World, base: Table, latest: int, concurrency: nat, id: int, storing: bool)
    returns (s: State)
    requires concurrency >= 1 && id in Missing(latest, base.Keys) && (storing ==> !world.get(id).Failed?)
    ensures Reachable(world, base, latest, concurrency, s) && s.cancelled && s.workers != []
    ensures if storing then s.workers[0].Storing? && s.workers[0].id == id else s.workers[0] == Fetching(id)
  {
    UnsentExact(1, latest, base.Keys);
    var s0 := Start(base, latest, concurrency);
    var p, s1 := DoRange(world, s0, 0, id);
    var p2, s2 := HandOver(world, s1, 0);
    ExecutesConcat(world, s0, p, s1, p2, s2);
    p, s := p + p2, s2;
    while storing && !s.workers[0].Storing?
      invariant Executes(world, s0, p, s) && s.dispatcher.Sending? && !s.cancelled && s.workers != []
      invariant s.workers[0] == Fetching(id) || (storing && Busy(s.workers[0]) && s.workers[0].id == id)
      decreases WorkLeft(s.workers[0])
    {
      var step := Work(0, NextAct(world, s.workers[0]));
      Then(world, s0, p, s, step);
      p, s := p + [step], Apply(world, s, step);
    }
    Then(world, s0, p, s, Cancel);
    s := Apply(world, s, Cancel);
  }

  /** After a cancellation the fetch of any missing id may fail, and so may its store, whatever the
      site and the database would have answered: the job is over and has stored nothing. */
  lemma CallsMayFail(world: World, base: Table, latest: int, concurrency: nat, id: int, storing: bool)
    returns (before: State, after: State)
    requires concurrency >= 1 && id in Missing(latest, base.Keys) && (storing ==> !world.get(id).Failed?)
    ensures Reachable(world, base, latest, concurrency, before) && before.workers != []
    ensures if storing then before.workers[0].Storing? && before.workers[0].id == id
            else before.workers[0] == Fetching(id)
    ensures Reachable(world, base, latest, concurrency, after) && after.workers == before.workers[0 := Idle]
    ensures after.done == before.done + [Job(id, None)] && after.table == before.table
  {
    before := HeldWhenCancelled(world, base, latest, concurrency, id, storing);
    var steps :| Executes(world, Start(base, latest, concurrency), steps, before);
    var step := Work(0, if storing then Store(false) else Get(Failed));
    Then(world, Start(base, latest, concurrency), steps, before, step);
    after := Apply(world, before, step);
  }

  // ----- the channel

  /** With nobody taking jobs the dispatcher can fill the channel. */
  lemma {:induction false} FillUp(world: World, s: State, n: nat) returns (steps: seq<Step>, s': State)
    requires s.dispatcher.Sending? && |s.queue| <= n <= 2 * |s.workers|
    requires n <= |s.queue| + |Unsent(s.next, s.latest, s.base.Keys)|
    ensures Executes(world, s, steps, s') && |s'.queue| == n
    decreases s.latest + 1 - s.next
  {
    if |s.queue| == n {
      steps, s' := [], s;
    } else {
      var step := if s.next in s.base then Skip else Send;
      var mid := Apply(world, s, step);
      ExecutesOne(world, s, step);
      var rest;
      rest, s' := FillUp(world, mid, n);
      steps := [step] + rest;
      ExecutesConcat(world, s, [step], mid, rest, s');
    }
  }

  /** The channel takes two jobs for each of at most 64 workers, and any number up to that is in the
      channel in some run if so many ids are missing. */
  lemma ChannelCapacity(world: World, base: Table, latest: int, concurrency: nat, n: nat)
    requires concurrency >= 1
    ensures (exists s | Reachable(world, base, latest, concurrency, s) :: |s.queue| == n)
            <==> n <= 2 * (if concurrency > 64 then 64 else concurrency) && n <= |Missing(latest, base.Keys)|
  {
    var missing := Missing(latest, base.Keys);
    forall s | Reachable(world, base, latest, concurrency, s)
      ensures |s.queue| <= 2 * (if concurrency > 64 then 64 else concurrency) && |s.queue| <= |missing|
    {
      FetchedOnce(world, base, latest, concurrency, s);
      ReachableInv(world, base, latest, concurrency, s);
    }
    if n <= 2 * (if concurrency > 64 then 64 else concurrency) && n <= |missing| {
      var steps, s := FillUp(world, Start(base, latest, concurrency), n);
    }
  }

  // ----- what any run leaves of the table

  /** A finished job wrote a row with number `k`. */
  ghost predicate Wrote(done: seq<Job>, k: int) {
    exists i :: 0 <= i < |done| && done[i].wrote.Some? && done[i].wrote.value.id == k
  }

  lemma {:induction false} ReplayKeys(t: Table, done: seq<Job>, k: int)
    ensures k in Replay(t, done) <==> k in t || Wrote(done, k)
    ensures !Wrote(done, k) && k in t ==> Replay(t, done)[k] == t[k]
    ensures Wrote(done, k) ==>
              && Replay(t, done)[k].id == k
              && exists i :: 0 <= i < |done| && done[i].wrote == Some(Replay(t, done)[k])
  {
    if done == [] {
    } else {
      var front, last := done[..|done| - 1], done[|done| - 1];
      ReplayKeys(t, front, k);
      assert Wrote(done, k) <==> Wrote(front, k) || (last.wrote.Some? && last.wrote.value.id == k) by {
        if Wrote(front, k) {
          var i :| 0 <= i < |front| && front[i].wrote.Some? && front[i].wrote.value.id == k;
          assert done[i] == front[i];
        }
        if Wrote(done, k) {
          var i :| 0 <= i < |done| && done[i].wrote.Some? && done[i].wrote.value.id == k;
          assert i < |front| ==> front[i] == done[i];
        }
      }
    }
  }

  lemma {:induction false} ReplayKeyed(t: Table, done: seq<Job>)
    requires Keyed(t)
    ensures Keyed(Replay(t, done))
  {
    if done == [] {
    } else {
      ReplayKeyed(t, done[..|done| - 1]);
    }
  }

  lemma {:induction false} ReplayOnlyAdds(t: Table, done: seq<Job>)
    ensures t.Keys <= Replay(t, done).Keys
  {
    if done == [] {
    } else {
      ReplayOnlyAdds(t, done[..|done| - 1]);
    }
  }

  /** Cancelled or not, and whatever the site answers, an update never removes a number. */
  lemma UpdateKeepsKeys(world: World, base: Table, latest: int, concurrency: nat, s: State)
    requires concurrency >= 1 && Reachable(world, base, latest, concurrency, s)
    ensures base.Keys <= s.table.Keys
  {
    ReachableInv(world, base, latest, concurrency, s);
    ReplayOnlyAdds(base, s.done);
  }

  lemma DoneWasMissing(world: World, base: Table, latest: int, concurrency: nat, s: State, i: nat)
    requires concurrency >= 1 && Reachable(world, base, latest, concurrency, s) && i < |s.done|
    ensures s.done[i].id in Missing(latest, base.Keys) && HonestJob(world, s.cancelled, s.done[i])
  {
    var id := s.done[i].id;
    ReachableInv(world, base, latest, concurrency, s);
    JobsConserved(world, base, latest, concurrency, s, id);
    assert DoneIds(s.done)[i] == id;
    UnsentExact(1, latest, base.Keys);
  }

  /** What an update leaves under a number, whatever the site answers and cancelled or not: the row
      stored before, or else a row that a finished job wrote, whose missing id may be another number. */
  lemma UpdateWrites(world: World, base: Table, latest: int, concurrency: nat, s: State, k: int)
    requires concurrency >= 1 && Reachable(world, base, latest, concurrency, s)
    ensures k in s.table <==> k in base || Wrote(s.done, k)
    ensures k in base && !Wrote(s.done, k) ==> s.table[k] == base[k]
    ensures Wrote(s.done, k) ==>
              && s.table[k].id == k
              && exists id :: id in Missing(latest, base.Keys) && MayWrite(world, s.cancelled, id, s.table[k])
    ensures Keyed(base) ==> Keyed(s.table)
  {
    ReachableInv(world, base, latest, concurrency, s);
    ReplayKeys(base, s.done, k);
    if Keyed(base) {
      ReplayKeyed(base, s.done);
    }
    if Wrote(s.done, k) {
      var i :| 0 <= i < |s.done| && s.done[i].wrote == Some(s.table[k]);
      DoneWasMissing(world, base, latest, concurrency, s, i);
    }
  }

  // ----- when stored rows are kept

  ghost predicate KeepsRows(base: Table, t: Table) {
    forall k :: k in base ==> k in t && t[k] == base[k]
  }

  /** No job may write a row that differs from a stored one with its number. */
  ghost predicate NoClash(world: World, base: Table, latest: int, cancelled: bool) {
    forall id, row | id in Missing(latest, base.Keys) && MayWrite(world, cancelled, id, row)
      :: row.id in base ==> row == base[row.id]
  }

  /** The first worker fetches, perhaps the context is cancelled, and the worker normalises and stores. */
  lemma WriteOut(world: World, s: State, cancelled: bool, row: Comic) returns (steps: seq<Step>, s': State)
    requires Ready(s) && !s.cancelled && s.workers[0].Fetching? && world.get(s.workers[0].id).Fetched?
    requires MayWrite(world, cancelled, s.workers[0].id, row)
    ensures Executes(world, s, steps, s') && s'.cancelled == cancelled
    ensures row.id in s'.table && s'.table[row.id] == row
  {
    var get := Work(0, Get(world.get(s.workers[0].id)));
    var got := Apply(world, s, get);
    ExecutesOne(world, s, get);
    var p, mid := [get], got;
    if cancelled {
      mid := Apply(world, got, Cancel);
      Then(world, s, p, got, Cancel);
      p := p + [Cancel];
    }
    var normalise := Work(0, Normalise(row));
    var ready := Apply(world, mid, normalise);
    Then(world, s, p, mid, normalise);
    s' := Apply(world, ready, Work(0, Store(true)));
    steps := p + [normalise] + [Work(0, Store(true))];
    Then(world, s, p + [normalise], ready, Work(0, Store(true)));
  }

  /** Any row that a missing id may write is in the table at some moment of some run. When `cancelled`
      is set, the cancellation comes after the fetch. */
  lemma WriteHappens(world: World, base: Table, latest: int, concurrency: nat, cancelled: bool, id: int, row: Comic)
    returns (s: State)
    requires concurrency >= 1 && id in Missing(latest, base.Keys) && world.get(id).Fetched?
    requires MayWrite(world, cancelled, id, row)
    ensures Reachable(world, base, latest, concurrency, s) && s.cancelled == cancelled
    ensures row.id in s.table && s.table[row.id] == row
  {
    UnsentExact(1, latest, base.Keys);
    var s0 := Start(base, latest, concurrency);
    var p1, s1 := DoRange(world, s0, 0, id);
    var p2, s2 := HandOver(world, s1, 0);
    ExecutesConcat(world, s0, p1, s1, p2, s2);
    var p3, s3 := WriteOut(world, s2, cancelled, row);
    ExecutesConcat(world, s0, p1 + p2, s2, p3, s3);
    s := s3;
  }

  lemma ClashShows(world: World, base: Table, latest: int, concurrency: nat, cancelled: bool) returns (s: State)
    requires concurrency >= 1 && !NoClash(world, base, latest, cancelled)
    ensures Reachable(world, base, latest, concurrency, s) && s.cancelled == cancelled && !KeepsRows(base, s.table)
  {
    UnsentExact(1, latest, base.Keys);
    var id, row :| id in Missing(latest, base.Keys) && MayWrite(world, cancelled, id, row)
                   && row.id in base && row != base[row.id];
    s := WriteHappens(world, base, latest, concurrency, cancelled, id, row);
  }

  /** The stored rows are as they were in all states of all runs, the cancelled ones included if
      `cancelled` is set, if and only if no missing id may be answered with a stored number and a
      row that differs from the stored one. */
  lemma KeepsRowsIff(world: World, base: Table, latest: int, concurrency: nat, cancelled: bool)
    requires concurrency >= 1
    ensures
      (forall s | Reachable(world, base, latest, concurrency, s) && (s.cancelled ==> cancelled)
         :: KeepsRows(base, s.table))
      <==> NoClash(world, base, latest, cancelled)
  {
    if NoClash(world, base, latest, cancelled) {
      forall s, k | Reachable(world, base, latest, concurrency, s) && (s.cancelled ==> cancelled) && k in base
        ensures k in s.table && s.table[k] == base[k]
      {
        UpdateWrites(world, base, latest, concurrency, s, k);
        if Wrote(s.done, k) {
          var id :| id in Missing(latest, base.Keys) && MayWrite(world, s.cancelled, id, s.table[k]);
          assert MayWrite(world, cancelled, id, s.table[k]);
        }
      }
    } else {
      var s := ClashShows(world, base, latest, concurrency, cancelled);
    }
  }

  /** Job `id` stored a row. */
  ghost predicate Stored(done: seq<Job>, id: int) {
    exists i :: 0 <= i < |done| && done[i].id == id && done[i].wrote.Some?
  }

  /** If the site answers the missing ids with their own numbers, a job writes under its own number. */
  lemma WroteOwn(world: World, base: Table, latest: int, concurrency: nat, s: State, k: int)
    requires concurrency >= 1 && Reachable(world, base, latest, concurrency, s)
    requires AnswersItsId(world, Missing(latest, base.Keys))
    ensures Wrote(s.done, k) <==> Stored(s.done, k)
    ensures Wrote(s.done, k) ==> k in Missing(latest, base.Keys)
  {
    forall i | 0 <= i < |s.done| && s.done[i].wrote.Some?
      ensures s.done[i].wrote.value.id == s.done[i].id && s.done[i].id in Missing(latest, base.Keys)
    {
      DoneWasMissing(world, base, latest, concurrency, s, i);
    }
  }

  /** If the site answers the missing ids with their own numbers, then an update, cancelled or not,
      keeps every stored row as it is and adds only rows of finished missing ids, each under its own
      number. A row it adds is the placeholder or the answered comic, of which a cancellation may have
      emptied some fields. */
  lemma UpdateOnlyAdds(world: World, base: Table, latest: int, concurrency: nat, s: State, k: int)
    requires concurrency >= 1 && Reachable(world, base, latest, concurrency, s)
    requires AnswersItsId(world, Missing(latest, base.Keys))
    ensures k in base ==> k in s.table && s.table[k] == base[k]
    ensures k in s.table <==> k in base || Stored(s.done, k)
    ensures Stored(s.done, k) ==>
              1 <= k <= latest && k !in base && k in s.table && MayWrite(world, s.cancelled, k, s.table[k])
    ensures Keyed(base) ==> Keyed(s.table)
  {
    UpdateWrites(world, base, latest, concurrency, s, k);
    WroteOwn(world, base, latest, concurrency, s, k);
    UnsentExact(1, latest, base.Keys);
  }

  // ----- what is left for the next update

  /** The next update attempts exactly the missing ids under which this one wrote no row: those it did
      not store itself, if the site answers with the numbers asked for. */
  lemma NextRunAttempts(world: World, base: Table, latest: int, concurrency: nat, s: State, id: int)
    requires concurrency >= 1 && Reachable(world, base, latest, concurrency, s)
    ensures id in Missing(latest, s.table.Keys) <==> id in Missing(latest, base.Keys) && !Wrote(s.done, id)
    ensures AnswersItsId(world, Missing(latest, base.Keys)) ==>
              (id in Missing(latest, s.table.Keys) <==> id in Missing(latest, base.Keys) && !Stored(s.done, id))
  {
    UnsentExact(1, latest, s.table.Keys);
    UnsentExact(1, latest, base.Keys);
    UpdateWrites(world, base, latest, concurrency, s, id);
    if AnswersItsId(world, Missing(latest, base.Keys)) {
      WroteOwn(world, base, latest, concurrency, s, id);
    }
  }

  /** Some job of `ids` leaves a row under `k`. */
  ghost predicate Covers(world: World, ids: seq<int>, k: int) {
    exists j :: j in ids && WritesTo(world, j, k)
  }

  lemma CoversOwn(world: World, ids: seq<int>, k: int)
    requires AnswersItsId(world, ids)
    ensures Covers(world, ids, k) <==> k in ids && Outcome(world, k).Some?
  {
    assert forall j :: j in ids && Outcome(world, j).Some? ==> WritesTo(world, j, j);
  }

  lemma CompleteWrites(world: World, base: Table, latest: int, concurrency: nat, s: State, k: int)
    requires concurrency >= 1 && Complete(world, base, latest, concurrency, s)
    ensures Wrote(s.done, k) <==> Covers(world, Missing(latest, base.Keys), k)
  {
    var missing := Missing(latest, base.Keys);
    ReachableInv(world, base, latest, concurrency, s);
    CompleteRun(world, s);
    if Wrote(s.done, k) {
      var i :| 0 <= i < |s.done| && s.done[i].wrote.Some? && s.done[i].wrote.value.id == k;
      DoneWasMissing(world, base, latest, concurrency, s, i);
      assert WritesTo(world, s.done[i].id, k);
    }
    if j :| j in missing && WritesTo(world, j, k) {
      assert j in multiset(DoneIds(s.done));
      var i :| 0 <= i < |s.done| && DoneIds(s.done)[i] == j;
      assert HonestJob(world, false, s.done[i]);
    }
  }

  /** After a complete run these are the missing ids whose number no missing id's row has: if the site
      answers with the numbers asked for, those whose fetch or store failed. */
  lemma NextRunRetries(world: World, base: Table, latest: int, concurrency: nat, s: State, id: int)
    requires concurrency >= 1 && Complete(world, base, latest, concurrency, s)
    ensures
      var missing := Missing(latest, base.Keys);
      && (id in Missing(latest, s.table.Keys) <==> id in missing && !Covers(world, missing, id))
      && (AnswersItsId(world, missing) ==>
            (id in Missing(latest, s.table.Keys) <==> id in missing && Outcome(world, id) == None))
  {
    NextRunAttempts(world, base, latest, concurrency, s, id);
    CompleteWrites(world, base, latest, concurrency, s, id);
    if AnswersItsId(world, Missing(latest, base.Keys)) {
      CoversOwn(world, Missing(latest, base.Keys), id);
    }
  }

  lemma DoneWasTaken(taken: seq<int>, workers: seq<Worker>, done: seq<Job>)
    requires HeldOrDone(taken, workers, done) && done != []
    ensures taken != []
  {
    var id := done[0].id;
    assert DoneIds(done)[0] == id;
    assert Times(id, taken) == Held(workers, id) + Times(id, DoneIds(done));
  }

  /** No later update of the table takes a job or changes it, whatever the world answers then. */
  ghost predicate AtRest(latest: int, t: Table) {
    forall world, workers: nat, s | workers >= 1 && Reachable(world, t, latest, workers, s)
      :: s.taken == [] && s.table == t
  }

  lemma NothingTaken(world: World, t: Table, latest: int, workers: nat, s: State)
    requires workers >= 1 && Reachable(world, t, latest, workers, s) && Missing(latest, t.Keys) == []
    ensures s.taken == [] && s.table == t
  {
    ReachableInv(world, t, latest, workers, s);
    assert s.taken == [];
    if s.done != [] {
      DoneWasTaken(s.taken, s.workers, s.done);
    }
  }

  lemma SomethingTaken(world: World, t: Table, latest: int, id: int) returns (s: State)
    requires id in Missing(latest, t.Keys)
    ensures Reachable(world, t, latest, 1, s) && s.taken != []
  {
    UnsentExact(1, latest, t.Keys);
    var s0 := Start(t, latest, 1);
    var p1, s1 := DoRange(world, s0, 0, id);
    var s2 := Apply(world, s1, Send);
    Then(world, s0, p1, s1, Send);
    s := Apply(world, s2, Take(0));
    Then(world, s0, p1 + [Send], s2, Take(0));
  }

  lemma AtRestIff(latest: int, t: Table)
    ensures AtRest(latest, t) <==> Missing(latest, t.Keys) == []
  {
    if Missing(latest, t.Keys) == [] {
      forall world, workers: nat, s | workers >= 1 && Reachable(world, t, latest, workers, s)
        ensures s.taken == [] && s.table == t
      {
        NothingTaken(world, t, latest, workers, s);
      }
    } else {
      var s := SomethingTaken(SharedNumber(0, 0, 0), t, latest, Missing(latest, t.Keys)[0]);
    }
  }

  lemma RestCount(latest: nat, t: Table)
    requires Missing(latest, t.Keys) == []
    ensures |t| == latest <==> forall k :: k in t ==> 1 <= k <= latest
  {
    UnsentExact(1, latest, t.Keys);
    var range := Interval(1, latest);
    assert range <= t.Keys by {
      assert forall k :: k in range && k !in t.Keys ==> k in Missing(latest, t.Keys);
    }
    assert |t.Keys - range| == |t.Keys| - |range|;
    if k :| k in t && !(1 <= k <= latest) {
      assert k in t.Keys - range;
    } else {
      assert t.Keys == range;
    }
  }

  /** After a complete run no later run with the same last number takes a job or changes the table,
      whatever the world answers then, if and only if each missing id is the number of a row that a
      missing id left. The table then holds as many rows as the last number unless some row has a
      number beyond the range. */
  lemma Settled(world: World, base: Table, latest: nat, concurrency: nat, s: State)
    requires concurrency >= 1 && Complete(world, base, latest, concurrency, s)
    ensures
      var missing := Missing(latest, base.Keys);
      AtRest(latest, s.table) <==> forall id :: id in missing ==> Covers(world, missing, id)
    ensures AtRest(latest, s.table) ==> (|s.table| == latest <==> forall k :: k in s.table ==> 1 <= k <= latest)
  {
    var missing := Missing(latest, base.Keys);
    var left := Missing(latest, s.table.Keys);
    AtRestIff(latest, s.table);
    if left == [] {
      forall id | id in missing ensures Covers(world, missing, id) {
        NextRunRetries(world, base, latest, concurrency, s, id);
      }
      RestCount(latest, s.table);
    } else {
      NextRunRetries(world, base, latest, concurrency, s, left[0]);
    }
  }

  /** If the site answers with the numbers asked for, a complete run that stored every missing id, as
      a comic or as a placeholder, settles the table, and a table that held only numbers up to the
      last one then holds exactly that many rows. */
  lemma SettledOwn(world: World, base: Table, latest: nat, concurrency: nat, s: State)
    requires concurrency >= 1 && Complete(world, base, latest, concurrency, s)
    requires AnswersItsId(world, Missing(latest, base.Keys))
    ensures AtRest(latest, s.table) <==> forall id :: id in Missing(latest, base.Keys) ==> Outcome(world, id).Some?
    ensures AtRest(latest, s.table) && (forall k :: k in base ==> 1 <= k <= latest) ==> |s.table| == latest
  {
    var missing := Missing(latest, base.Keys);
    Settled(world, base, latest, concurrency, s);
    forall id ensures Covers(world, missing, id) <==> id in missing && Outcome(world, id).Some? {
      CoversOwn(world, missing, id);
    }
    forall k | k in s.table ensures k in base || 1 <= k <= latest {
      UpdateOnlyAdds(world, base, latest, concurrency, s, k);
    }
  }

  // ----- the rows a complete update can leave

  /** `row` is the row of a missing id with number `k`, or the stored one if there is none. */
  ghost predicate Candidate(world: World, base: Table, latest: int, k: int, row: Comic) {
    var missing := Missing(latest, base.Keys);
    if Covers(world, missing, k) then
      exists j :: j in missing && WritesTo(world, j, k) && Outcome(world, j) == Some(row)
    else k in base && base[k] == row
  }

  lemma CompleteLeavesCandidate(world: World, base: Table, latest: int, concurrency: nat, s: State, k: int)
    requires concurrency >= 1 && Complete(world, base, latest, concurrency, s)
    ensures k in s.table <==> k in base || Covers(world, Missing(latest, base.Keys), k)
    ensures k in s.table ==> Candidate(world, base, latest, k, s.table[k])
  {
    UpdateWrites(world, base, latest, concurrency, s, k);
    CompleteWrites(world, base, latest, concurrency, s, k);
    if Wrote(s.done, k) {
      var id :| id in Missing(latest, base.Keys) && MayWrite(world, s.cancelled, id, s.table[k]);
      assert Outcome(world, id) == Some(s.table[k]);
      assert WritesTo(world, id, k);
    }
  }

  ghost predicate HasRow(t: Table, k: int, row: Comic) {
    k in t && t[k] == row
  }

  lemma CandidateHappens(world: World, base: Table, latest: int, concurrency: nat, k: int, row: Comic)
    returns (s: State)
    requires concurrency >= 2 && Candidate(world, base, latest, k, row)
    ensures Complete(world, base, latest, concurrency, s) && HasRow(s.table, k, row)
  {
    var missing := Missing(latest, base.Keys);
    if Covers(world, missing, k) {
      var j :| j in missing && WritesTo(world, j, k) && Outcome(world, j) == Some(row);
      s := HeldBack(world, base, latest, concurrency, j);
    } else {
      s := LoneRun(world, base, latest, concurrency);
      CompleteLeavesCandidate(world, base, latest, concurrency, s, k);
    }
  }

  /** A complete update can leave `row` under `k` if and only if the row is a candidate or, when there
      is one worker, what doing the missing ids in order leaves. */
  lemma PossibleRowIff(world: World, base: Table, latest: int, concurrency: nat, k: int, row: Comic)
    requires concurrency >= 1
    ensures (exists s | Complete(world, base, latest, concurrency, s) :: HasRow(s.table, k, row))
            <==> if concurrency == 1 then HasRow(Sequential(world, base, Missing(latest, base.Keys)), k, row)
                 else Candidate(world, base, latest, k, row)
  {
    if concurrency == 1 {
      ScheduleIndependentIff(world, base, latest, concurrency);
      var s := LoneRun(world, base, latest, concurrency);
      return;
    }
    if s :| Complete(world, base, latest, concurrency, s) && HasRow(s.table, k, row) {
      CompleteLeavesCandidate(world, base, latest, concurrency, s, k);
    }
    if Candidate(world, base, latest, k, row) {
      var s := CandidateHappens(world, base, latest, concurrency, k, row);
    }
  }

  // ----- the stored rows, read off the answers

  /** The tokens the normaliser answers for a text, or none if it fails, or none after a cancellation. */
  ghost predicate TokensOf(world: World, text: string, tokens: seq<string>, cancelled: bool) {
    world.norm(text) == Some(tokens) || (tokens == [] && (world.norm(text) == None || cancelled))
  }

  /** Job `id` was answered with a comic or with its absence, and this is the row for it. */
  ghost predicate RowAnswered(world: World, id: int, row: Comic, cancelled: bool) {
    && world.stores(id)
    && match world.get(id)
       case Fetched(info) =>
         && row.id == info.id && row.url == info.url
         && TokensOf(world, info.title, row.title, cancelled)
         && TokensOf(world, info.alt, row.alt, cancelled)
         && TokensOf(world, info.description, row.words, cancelled)
       case NotFound => row.id == id && row.url == "" && row.title == [] && row.alt == [] && row.words == []
       case Failed => false
  }

  lemma MayWriteAnswered(world: World, cancelled: bool, id: int, row: Comic)
    ensures MayWrite(world, cancelled, id, row) <==> RowAnswered(world, id, row, cancelled)
  {
  }

  /** For every site, cancelled or not: a row in the table is the one stored before or the row for the
      answer to some id from 1 to the last that was not stored. */
  lemma RowsAreAnswers(world: World, base: Table, latest: int, concurrency: nat, s: State, k: int)
    requires concurrency >= 1 && Reachable(world, base, latest, concurrency, s) && k in s.table
    ensures
      || (k in base && s.table[k] == base[k])
      || exists id :: 1 <= id <= latest && id !in base && s.table[k].id == k
                      && RowAnswered(world, id, s.table[k], s.cancelled)
  {
    UpdateWrites(world, base, latest, concurrency, s, k);
    UnsentExact(1, latest, base.Keys);
    if Wrote(s.done, k) {
      var id :| id in Missing(latest, base.Keys) && MayWrite(world, s.cancelled, id, s.table[k]);
      MayWriteAnswered(world, s.cancelled, id, s.table[k]);
    }
  }

  lemma PlaceholderHappens(world: World, base: Table, latest: int, concurrency: nat, id: int) returns (s: State)
    requires concurrency >= 1 && id in Missing(latest, base.Keys)
    requires world.get(id).NotFound? && world.stores(id)
    ensures Reachable(world, base, latest, concurrency, s) && id in s.table && s.table[id] == Comic(id, "", [], [], [])
  {
    UnsentExact(1, latest, base.Keys);
    var s0 := Start(base, latest, concurrency);
    var p1, s1 := DoRange(world, s0, 0, id);
    var p2, s2 := DoJob(world, s1, 0);
    ExecutesConcat(world, s0, p1, s1, p2, s2);
    s := s2;
  }

  /** And every such row is stored in some run. */
  lemma AnswersAreStored(world: World, base: Table, latest: int, concurrency: nat, cancelled: bool, id: int, row: Comic)
    returns (s: State)
    requires concurrency >= 1 && 1 <= id <= latest && id !in base && RowAnswered(world, id, row, cancelled)
    ensures Reachable(world, base, latest, concurrency, s) && row.id in s.table && s.table[row.id] == row
  {
    UnsentExact(1, latest, base.Keys);
    MayWriteAnswered(world, cancelled, id, row);
    if world.get(id).Fetched? {
      s := WriteHappens(world, base, latest, concurrency, cancelled, id, row);
    } else {
      s := PlaceholderHappens(world, base, latest, concurrency, id);
    }
  }

  /** After a complete update by a site that answers the missing ids with their own numbers, a missing
      id has a row exactly when the database stored it and the fetch did not fail, and the row is the
      one for the answer: the number and address of the comic, and the tokens of its title, its
      alternative text and its description, each in its own field; or an empty row for a number that
      does not exist. */
  lemma StoredExactly(world: World, base: Table, latest: int, concurrency: nat, s: State, id: int)
    requires concurrency >= 1 && Complete(world, base, latest, concurrency, s)
    requires forall j :: 1 <= j <= latest && j !in base && world.get(j).Fetched? ==> world.get(j).info.id == j
    requires 1 <= id <= latest && id !in base
    ensures id in s.table <==> world.stores(id) && !world.get(id).Failed?
    ensures id in s.table ==>
              var row := s.table[id];
              match world.get(id)
              case Fetched(info) =>
                && row.id == id && row.url == info.url
                && row.title == (match world.norm(info.title) case Some(ts) => ts case None => [])
                && row.alt == (match world.norm(info.alt) case Some(ts) => ts case None => [])
                && row.words == (match world.norm(info.description) case Some(ts) => ts case None => [])
              case NotFound => row == Comic(id, "", [], [], [])
              case Failed => false
  {
    UnsentExact(1, latest, base.Keys);
    CompleteLeavesCandidate(world, base, latest, concurrency, s, id);
    CoversOwn(world, Missing(latest, base.Keys), id);
  }

  lemma {:induction false} LastOfSequential(world: World, t: Table, ids: seq<int>, i: nat)
    requires i < |ids| && Outcome(world, ids[i]).Some?
    requires forall j :: i < j < |ids| ==> !WritesTo(world, ids[j], Outcome(world, ids[i]).value.id)
    ensures
      var row := Outcome(world, ids[i]).value;
      HasRow(Sequential(world, t, ids), row.id, row)
  {
    if i == |ids| - 1 {
    } else {
      LastOfSequential(world, t, ids[..|ids| - 1], i);
    }
  }

  /** With one worker the row for the largest id wins. */
  lemma LargestIdWins(world: World, base: Table, latest: int, s: State, id: int, row: Comic)
    requires Complete(world, base, latest, 1, s)
    requires 1 <= id <= latest && id !in base && RowAnswered(world, id, row, false)
    requires forall j, other | id < j <= latest && j !in base && RowAnswered(world, j, other, false)
               :: other.id != row.id
    ensures row.id in s.table && s.table[row.id] == row
  {
    var missing := Missing(latest, base.Keys);
    UnsentExact(1, latest, base.Keys);
    ScheduleIndependentIff(world, base, latest, 1);
    MayWriteAnswered(world, false, id, row);
    var i :| 0 <= i < |missing| && missing[i] == id;
    forall j | i < j < |missing| ensures !WritesTo(world, missing[j], row.id) {
      assert missing[i] < missing[j] && missing[j] in missing;
      if WritesTo(world, missing[j], row.id) {
        MayWriteAnswered(world, false, missing[j], Outcome(world, missing[j]).value);
      }
    }
    LastOfSequential(world, base, missing, i);
  }
}
