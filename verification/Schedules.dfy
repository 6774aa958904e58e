/** When the scheduling of the workers cannot be seen in the table: exactly when there is one worker
    or no two jobs write different rows under one key. */
module Schedules {
  import opened Catalog
  import opened Pool
  import opened PoolSafety

  predicate WritesTo(world: World, id: int, k: int) {
    Outcome(world, id).Some? && Outcome(world, id).value.id == k
  }

  /** No two jobs leave different rows under the same key. */
  ghost predicate ConflictFree(world: World, ids: seq<int>) {
    forall i, j, k | i in ids && j in ids && WritesTo(world, i, k) && WritesTo(world, j, k)
      :: Outcome(world, i) == Outcome(world, j)
  }

  /** `s` ends an update that was not cancelled. */
  ghost predicate Complete(world: World, base: Table, latest: int, concurrency: nat, s: State) {
    Reachable(world, base, latest, concurrency, s) && s.dispatcher.Returned? && !s.cancelled
  }

  /** Every complete run leaves the table of the one-by-one reference. */
  ghost predicate ScheduleIndependent(world: World, base: Table, latest: int, concurrency: nat) {
    forall s | Complete(world, base, latest, concurrency, s)
      :: s.table == Sequential(world, base, Missing(latest, base.Keys))
  }

  // ----- what a complete run leaves

  lemma {:induction false} ReplayIsSequential(world: World, t: Table, done: seq<Job>)
    requires forall i :: 0 <= i < |done| ==> HonestJob(world, false, done[i])
    ensures Replay(t, done) == Sequential(world, t, DoneIds(done))
  {
    if done == [] {
    } else {
      ReplayIsSequential(world, t, done[..|done| - 1]);
      assert DoneIds(done)[..|done| - 1] == DoneIds(done[..|done| - 1]);
    }
  }

  /** An uncancelled run that returns reports success, has finished exactly the missing ids, and
      leaves what doing them one by one in the order of their completion leaves. */
  lemma CompleteRun(world: World, s: State)
    requires Inv(world, s) && s.dispatcher.Returned? && !s.cancelled
    ensures s.dispatcher == Returned(Success)
    ensures multiset(DoneIds(s.done)) == multiset(Missing(s.latest, s.base.Keys))
    ensures s.table == Sequential(world, s.base, DoneIds(s.done))
    ensures |s.workers| == 1 ==> DoneIds(s.done) == Missing(s.latest, s.base.Keys)
  {
    assert s.workers[0] == Exited;
    assert s.queue == [] && Unsent(s.next, s.latest, s.base.Keys) == [];
    assert s.taken == Missing(s.latest, s.base.Keys);
    forall id ensures multiset(DoneIds(s.done))[id] == multiset(s.taken)[id] {
      HeldNothing(s.workers, id);
      assert Times(id, s.taken) == Held(s.workers, id) + Times(id, DoneIds(s.done));
    }
    ReplayIsSequential(world, s.base, s.done);
  }

  lemma {:induction false} SequentialAt(world: World, t: Table, ids: seq<int>, k: int)
    requires ConflictFree(world, ids)
    ensures forall id | id in ids && WritesTo(world, id, k)
              :: k in Sequential(world, t, ids) && Sequential(world, t, ids)[k] == Outcome(world, id).value
    ensures (forall id | id in ids :: !WritesTo(world, id, k)) ==>
              (if k in t then k in Sequential(world, t, ids) && Sequential(world, t, ids)[k] == t[k]
               else k !in Sequential(world, t, ids))
  {
    if ids == [] {
    } else {
      var front, last := ids[..|ids| - 1], ids[|ids| - 1];
      assert ids == front + [last];
      SequentialAt(world, t, front, k);
      assert last in ids;
      if !WritesTo(world, last, k) {
        var before := Sequential(world, t, front);
        assert k in before <==> k in Write(before, Outcome(world, last));
      }
    }
  }

  /** Jobs that do not conflict may be done in any order. */
  lemma SequentialPermuted(world: World, t: Table, p: seq<int>, q: seq<int>)
    requires ConflictFree(world, p) && multiset(p) == multiset(q)
    ensures Sequential(world, t, p) == Sequential(world, t, q)
  {
    forall id ensures id in p <==> id in q {
      assert id in multiset(p) <==> id in multiset(q);
    }
    var a, b := Sequential(world, t, p), Sequential(world, t, q);
    forall k ensures k in a <==> k in b
             ensures k in a ==> a[k] == b[k] {
      SequentialAt(world, t, p, k);
      SequentialAt(world, t, q, k);
    }
  }

  // ----- building runs

  lemma Then(world: World, a: State, p: seq<Step>, b: State, step: Step)
    requires Executes(world, a, p, b) && Enabled(world, b, step)
    ensures Executes(world, a, p + [step], Apply(world, b, step))
  {
    ExecutesOne(world, b, step);
    ExecutesConcat(world, a, p, b, [step], Apply(world, b, step));
  }

  /** What a busy worker will have written when it is idle again. */
  function Eventual(world: World, worker: Worker): Option<Comic>
    requires Busy(worker)
  {
    if !world.stores(worker.id) then None
    else match worker
      case Fetching(id) => Intended(world, id)
      case Normalising(_, info) => Some(RowOf(world, info))
      case Storing(_, row) => Some(row)
  }

  lemma {:induction false} WorkOff(world: World, s: State, w: nat) returns (steps: seq<Step>, s': State)
    requires w < |s.workers| && Busy(s.workers[w])
    ensures Executes(world, s, steps, s')
    ensures s' == s.(workers := s.workers[w := Idle], table := Write(s.table, Eventual(world, s.workers[w])),
                     done := s'.done)
    decreases WorkLeft(s.workers[w])
  {
    var act := NextAct(world, s.workers[w]);
    var mid := Apply(world, s, Work(w, act));
    ExecutesOne(world, s, Work(w, act));
    if mid.workers[w].Idle? {
      steps, s' := [Work(w, act)], mid;
    } else {
      var rest;
      rest, s' := WorkOff(world, mid, w);
      steps := [Work(w, act)] + rest;
      ExecutesConcat(world, s, [Work(w, act)], mid, rest, s');
    }
  }

  /** The dispatcher is in its loop and the channel is empty. */
  predicate Ready(s: State) {
    s.dispatcher.Sending? && s.queue == [] && s.workers != []
  }

  /** Hands the next missing id to worker `w`. */
  lemma HandOver(world: World, s: State, w: nat) returns (steps: seq<Step>, s': State)
    requires Ready(s) && s.next <= s.latest && s.next !in s.base && w < |s.workers| && s.workers[w].Idle?
    ensures Executes(world, s, steps, s')
    ensures s' == s.(next := s.next + 1, workers := s.workers[w := Fetching(s.next)], taken := s'.taken)
  {
    var mid := Apply(world, s, Send);
    ExecutesOne(world, s, Send);
    s' := Apply(world, mid, Take(w));
    steps := [Send] + [Take(w)];
    Then(world, s, [Send], mid, Take(w));
  }

  lemma SequentialEnd(world: World, t: Table, ids: seq<int>, id: int)
    ensures Sequential(world, t, ids + [id]) == Write(Sequential(world, t, ids), Outcome(world, id))
    ensures Sequential(world, t, ids + []) == Sequential(world, t, ids)
  {
    assert (ids + [id])[..|ids|] == ids;
    assert ids + [] == ids;
  }

  lemma DoJob(world: World, s: State, w: nat) returns (steps: seq<Step>, s': State)
    requires Ready(s) && s.next <= s.latest && s.next !in s.base && w < |s.workers| && s.workers[w].Idle?
    ensures Executes(world, s, steps, s')
    ensures s' == s.(next := s.next + 1, table := Write(s.table, Outcome(world, s.next)),
                     taken := s'.taken, done := s'.done)
  {
    var give, given := HandOver(world, s, w);
    var work;
    work, s' := WorkOff(world, given, w);
    steps := give + work;
    ExecutesConcat(world, s, give, given, work, s');
    assert s'.workers == s.workers;
  }

  lemma {:induction false} UnsentEnd(next: int, latest: int, have: set<int>)
    requires next <= latest
    ensures Unsent(next, latest, have) == Unsent(next, latest - 1, have) + if latest in have then [] else [latest]
    decreases latest - next
  {
    if next == latest {
    } else {
      UnsentEnd(next + 1, latest, have);
    }
  }

  /** Worker `w` alone does everything before `stop` while the others wait. */
  lemma {:induction false} DoRange(world: World, s: State, w: nat, stop: int) returns (steps: seq<Step>, s': State)
    requires Ready(s) && s.next <= stop <= s.latest + 1 && w < |s.workers| && s.workers[w].Idle?
    ensures Executes(world, s, steps, s')
    ensures s' == s.(next := stop, table := Sequential(world, s.table, Unsent(s.next, stop - 1, s.base.Keys)),
                     taken := s'.taken, done := s'.done)
    decreases stop - s.next
  {
    if s.next == stop {
      steps, s' := [], s;
    } else {
      var front, mid := DoRange(world, s, w, stop - 1);
      var ids := Unsent(s.next, stop - 2, s.base.Keys);
      UnsentEnd(s.next, stop - 1, s.base.Keys);
      SequentialEnd(world, s.table, ids, stop - 1);
      if stop - 1 in s.base {
        s' := Apply(world, mid, Skip);
        steps := front + [Skip];
        Then(world, s, front, mid, Skip);
      } else {
        var job;
        job, s' := DoJob(world, mid, w);
        steps := front + job;
        ExecutesConcat(world, s, front, mid, job, s');
      }
    }
  }

  lemma {:induction false} ExitAll(world: World, s: State, k: nat) returns (steps: seq<Step>, s': State)
    requires (s.cancelled || (s.closed && s.queue == [])) && k <= |s.workers|
    requires forall w :: 0 <= w < |s.workers| ==> s.workers[w] == if w < k then Exited else Idle
    ensures Executes(world, s, steps, s')
    ensures s' == s.(workers := s'.workers) && AllExited(s'.workers)
    decreases |s.workers| - k
  {
    if k == |s.workers| {
      steps, s' := [], s;
    } else {
      var mid := Apply(world, s, Exit(k));
      ExecutesOne(world, s, Exit(k));
      var rest;
      rest, s' := ExitAll(world, mid, k + 1);
      steps := [Exit(k)] + rest;
      ExecutesConcat(world, s, [Exit(k)], mid, rest, s');
    }
  }

  lemma WindUp(world: World, s: State) returns (steps: seq<Step>, s': State)
    requires Ready(s) && s.next > s.latest
    requires forall w :: 0 <= w < |s.workers| ==> s.workers[w].Idle?
    ensures Executes(world, s, steps, s')
    ensures s'.dispatcher == Returned(Success) && s'.cancelled == s.cancelled && s'.table == s.table
  {
    var shut := Apply(world, s, Close);
    ExecutesOne(world, s, Close);
    var exits, gone := ExitAll(world, shut, 0);
    ExecutesConcat(world, s, [Close], shut, exits, gone);
    s' := Apply(world, gone, Return);
    steps := [Close] + exits + [Return];
    Then(world, s, [Close] + exits, gone, Return);
  }

  /** With two workers or more the first can sit on job `i` until the second has done all the others,
      so that the row of `i` is written last. */
  lemma HeldBack(world: World, base: Table, latest: int, concurrency: nat, i: int) returns (s: State)
    requires concurrency >= 2 && i in Missing(latest, base.Keys) && Outcome(world, i).Some?
    ensures Complete(world, base, latest, concurrency, s)
    ensures
      var row := Outcome(world, i).value;
      row.id in s.table && s.table[row.id] == row
  {
    UnsentExact(1, latest, base.Keys);
    var s0 := Start(base, latest, concurrency);
    var p1, s1 := DoRange(world, s0, 1, i);
    var p2, s2 := HandOver(world, s1, 0);
    ExecutesConcat(world, s0, p1, s1, p2, s2);
    var p3, s3 := DoRange(world, s2, 1, latest + 1);
    ExecutesConcat(world, s0, p1 + p2, s2, p3, s3);
    var p4, s4 := WorkOff(world, s3, 0);
    ExecutesConcat(world, s0, p1 + p2 + p3, s3, p4, s4);
    var p5, s5 := WindUp(world, s4);
    ExecutesConcat(world, s0, p1 + p2 + p3 + p4, s4, p5, s5);
    s := s5;
  }

  /** One worker, or one of several, may do everything while the others wait. */
  lemma LoneRun(world: World, base: Table, latest: int, concurrency: nat) returns (s: State)
    requires concurrency >= 1
    ensures Complete(world, base, latest, concurrency, s)
    ensures s.table == Sequential(world, base, Missing(latest, base.Keys))
  {
    var s0 := Start(base, latest, concurrency);
    var p1: seq<Step>, s1 := [], s0;
    if latest >= 0 {
      p1, s1 := DoRange(world, s0, 0, latest + 1);
    }
    var p2, s2 := WindUp(world, s1);
    ExecutesConcat(world, s0, p1, s1, p2, s2);
    s := s2;
  }

  lemma {:induction false} LastWriter(world: World, t: Table, ids: seq<int>, k: int) returns (j: int)
    requires exists id :: id in ids && WritesTo(world, id, k)
    ensures j in ids && WritesTo(world, j, k)
    ensures k in Sequential(world, t, ids) && Sequential(world, t, ids)[k] == Outcome(world, j).value
  {
    var front, last := ids[..|ids| - 1], ids[|ids| - 1];
    assert ids == front + [last];
    if WritesTo(world, last, k) {
      j := last;
    } else {
      j := LastWriter(world, t, front, k);
    }
  }

  // ----- the theorem

  /** An uncancelled run that returns leaves the sequential table when its schedule cannot show. */
  lemma CompleteRunIsSequential(world: World, s: State)
    requires Inv(world, s) && s.dispatcher.Returned? && !s.cancelled
    requires |s.workers| == 1 || ConflictFree(world, Missing(s.latest, s.base.Keys))
    ensures s.table == Sequential(world, s.base, Missing(s.latest, s.base.Keys))
  {
    CompleteRun(world, s);
    if |s.workers| != 1 {
      SequentialPermuted(world, s.base, Missing(s.latest, s.base.Keys), DoneIds(s.done));
    }
  }

  lemma ConflictShows(world: World, base: Table, latest: int, concurrency: nat)
    requires concurrency >= 2 && !ConflictFree(world, Missing(latest, base.Keys))
    ensures !ScheduleIndependent(world, base, latest, concurrency)
  {
    var ids := Missing(latest, base.Keys);
    var a, b, k :| a in ids && b in ids && WritesTo(world, a, k) && WritesTo(world, b, k)
                   && Outcome(world, a) != Outcome(world, b);
    var j := LastWriter(world, base, ids, k);
    var i := if Outcome(world, a) == Outcome(world, j) then b else a;
    var s := HeldBack(world, base, latest, concurrency, i);
    assert s.table[k] != Sequential(world, base, ids)[k];
  }

  /** The final table of uncancelled runs is that of the missing ids done one by one in order, for
      every schedule, if and only if there is one worker or no two missing ids write different rows
      under one key. */
  lemma ScheduleIndependentIff(world: World, base: Table, latest: int, concurrency: nat)
    requires concurrency >= 1
    ensures ScheduleIndependent(world, base, latest, concurrency)
            <==> concurrency == 1 || ConflictFree(world, Missing(latest, base.Keys))
  {
    if concurrency == 1 || ConflictFree(world, Missing(latest, base.Keys)) {
      forall s | Complete(world, base, latest, concurrency, s)
        ensures s.table == Sequential(world, base, Missing(latest, base.Keys))
      {
        ReachableInv(world, base, latest, concurrency, s);
        CompleteRunIsSequential(world, s);
      }
    } else {
      ConflictShows(world, base, latest, concurrency);
    }
  }

  /** The comic site answers for the numbers it is asked for. The program does not check it. */
  ghost predicate AnswersItsId(world: World, ids: seq<int>) {
    forall id :: id in ids && world.get(id).Fetched? ==> world.get(id).info.id == id
  }

  lemma AnswersItsIdConflictFree(world: World, ids: seq<int>)
    requires AnswersItsId(world, ids)
    ensures ConflictFree(world, ids)
  {
    forall i, k | i in ids && WritesTo(world, i, k) ensures k == i {
    }
  }

  /** A site that answers two ids with one number and different addresses. */
  function SharedNumber(a: int, b: int, number: int): World {
    World(id => if id == a then Fetched(Info(number, "a", "", "", ""))
                else if id == b then Fetched(Info(number, "b", "", "", "")) else NotFound,
          text => Some([]), id => true)
  }

  /** The schedule is immaterial whatever the site answers if and only if there is one worker or at
      most one job. */
  lemma AnySiteIff(base: Table, latest: int, concurrency: nat)
    requires concurrency >= 1
    ensures (forall world :: ScheduleIndependent(world, base, latest, concurrency))
            <==> concurrency == 1 || |Missing(latest, base.Keys)| <= 1
  {
    var missing := Missing(latest, base.Keys);
    if concurrency == 1 || |missing| <= 1 {
      forall world ensures ScheduleIndependent(world, base, latest, concurrency) {
        assert |missing| <= 1 ==> ConflictFree(world, missing);
        ScheduleIndependentIff(world, base, latest, concurrency);
      }
    } else {
      var a, b := missing[0], missing[1];
      UnsentExact(1, latest, base.Keys);
      var world := SharedNumber(a, b, 3);
      assert WritesTo(world, a, 3) && WritesTo(world, b, 3);
      ScheduleIndependentIff(world, base, latest, concurrency);
    }
  }
}
