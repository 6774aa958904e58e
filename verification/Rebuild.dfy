/** The two background loops that rebuild the index: one on a ticker, one on database events. Both
    read the table before they take the index lock, so their reads and installs interleave. */
module Rebuild {
  import opened Catalog
  import opened Ranking
  import opened Index
  import opened Search

  // ----- each loop by itself

  /** What wakes a loop: the end of its context (or, for the subscriber, of its channel), or a reason
      to rebuild, with what the database answers to the read. */
  datatype Wake = Done | Fire(read: Option<seq<Comic>>)

  function ReadsOf(wakes: seq<Wake>): seq<Option<seq<Comic>>> {
    if wakes == [] || wakes[0].Done? then [] else [wakes[0].read] + ReadsOf(wakes[1..])
  }

  /** What an index holds after some rebuild attempts: the last list that was read without error. */
  function LastGood(built: seq<Comic>, answers: seq<Option<seq<Comic>>>): seq<Comic>
    decreases answers
  {
    if answers == [] then built
    else LastGood(match answers[0] case Some(list) => list case None => built, answers[1..])
  }

  method SubscriberLoop(svc: Service, wakes: seq<Wake>)
    requires svc.Valid()
    modifies svc.index
    ensures svc.Valid()
    ensures svc.index.built == LastGood(old(svc.index.built), ReadsOf(wakes))
  {
    ghost var goal := LastGood(svc.index.built, ReadsOf(wakes));
    var i := 0;
    while i < |wakes|
      invariant 0 <= i <= |wakes| && svc.Valid()
      invariant goal == LastGood(svc.index.built, ReadsOf(wakes[i..]))
    {
      if wakes[i].Done? {
        return;
      }
      var ok := svc.RebuildIndex(wakes[i].read);
      assert ReadsOf(wakes[i..]) == [wakes[i].read] + ReadsOf(wakes[i + 1..]);
      i := i + 1;
    }
  }

  /** The ticker loop first builds once, then once per tick. */
  method TickerLoop(svc: Service, first: Option<seq<Comic>>, wakes: seq<Wake>)
    requires svc.Valid()
    modifies svc.index
    ensures svc.Valid()
    ensures svc.index.built == LastGood(old(svc.index.built), [first] + ReadsOf(wakes))
  {
    assert ([first] + ReadsOf(wakes))[1..] == ReadsOf(wakes);
    var ok := svc.RebuildIndex(first);
    SubscriberLoop(svc, wakes);
  }

  /** The wake-ups of a loop that ends at number `n`, or goes on to the last if none ends it. */
  predicate EndsAt(wakes: seq<Wake>, n: nat) {
    n <= |wakes| && (forall j :: 0 <= j < n ==> wakes[j].Fire?) && (n < |wakes| ==> wakes[n] == Done)
  }

  /** If no read succeeds the index stays as it is. */
  lemma {:induction false} LoopKeeps(built: seq<Comic>, wakes: seq<Wake>, n: nat)
    requires EndsAt(wakes, n) && forall j :: 0 <= j < n ==> wakes[j] == Fire(None)
    ensures LastGood(built, ReadsOf(wakes)) == built
  {
    if n == 0 {
    } else {
      LoopKeeps(built, wakes[1..], n - 1);
    }
  }

  /** A loop rebuilds at every wake-up before its end, whose last successful read the index then holds. */
  lemma {:induction false} LoopExact(built: seq<Comic>, wakes: seq<Wake>, n: nat, k: nat)
    requires EndsAt(wakes, n) && k < n && wakes[k].read.Some?
    requires forall j :: k < j < n ==> wakes[j] == Fire(None)
    ensures LastGood(built, ReadsOf(wakes)) == wakes[k].read.value
    decreases k
  {
    var next := match wakes[0].read case Some(list) => list case None => built;
    if k == 0 {
      LoopKeeps(next, wakes[1..], n - 1);
    } else {
      LoopExact(next, wakes[1..], n - 1, k - 1);
    }
  }

  // ----- both loops together

  datatype Who = Ticker | Subscriber

  /** A rebuilder waits, holds what it read from snapshot number `age`, or has stopped. */
  datatype Task = Idle | Holding(read: seq<Comic>, age: nat) | Stopped

  /** `history` holds every content the table has had, the current one last. `built` is the list the
      index was last built from and `source` the snapshot it was read from, `None` at first. */
  datatype State = State(history: seq<Table>, built: seq<Comic>, source: Option<nat>, ticker: Task, subscriber: Task)
  {
    function Of(who: Who): Task {
      match who case Ticker => ticker case Subscriber => subscriber
    }

    function Put(who: Who, task: Task): State {
      match who case Ticker => this.(ticker := task) case Subscriber => this.(subscriber := task)
    }

    function Current(): Table
      requires history != []
    {
      history[|history| - 1]
    }

    /** The table the index shows. */
    function Shown(): Table {
      if source.Some? && source.value < |history| then history[source.value] else map[]
    }
  }

  ghost predicate Init(s: State) {
    && |s.history| == 1 && Keyed(s.Current())
    && s.built == [] && s.source == None && s.ticker == Idle && s.subscriber == Idle
  }

  ghost predicate TableChanges(s: State, s': State) {
    && |s'.history| == |s.history| + 1 && s'.history[..|s.history|] == s.history && Keyed(s'.Current())
    && s' == s.(history := s'.history)
  }

  ghost predicate Reads(s: State, s': State, who: Who) {
    && s.history != [] && s.Of(who).Idle? && s'.Of(who).Holding?
    && s'.Of(who).age == |s.history| - 1 && Enumerates(s'.Of(who).read, s.Current())
    && s' == s.Put(who, s'.Of(who))
  }

  predicate FailsToRead(s: State, s': State, who: Who) {
    s.Of(who).Idle? && s' == s
  }

  predicate Installs(s: State, s': State, who: Who) {
    && s.Of(who).Holding?
    && s' == s.(built := s.Of(who).read, source := Some(s.Of(who).age)).Put(who, Idle)
  }

  predicate Stops(s: State, s': State, who: Who) {
    s.Of(who).Idle? && s' == s.Put(who, Stopped)
  }

  ghost predicate RebuilderStep(s: State, s': State, who: Who) {
    Reads(s, s', who) || FailsToRead(s, s', who) || Installs(s, s', who) || Stops(s, s', who)
  }

  ghost predicate Next(s: State, s': State) {
    TableChanges(s, s') || RebuilderStep(s, s', Ticker) || RebuilderStep(s, s', Subscriber)
  }

  ghost predicate IsRun(run: seq<State>) {
    run != [] && forall i :: 0 <= i < |run| - 1 ==> Next(run[i], run[i + 1])
  }

  ghost predicate HoldsSnapshot(s: State, task: Task) {
    task.Holding? ==> task.age < |s.history| && Enumerates(task.read, s.history[task.age])
  }

  /** The index is the initial empty one or the build of one whole snapshot of the table. */
  ghost predicate Safe(s: State) {
    && s.history != []
    && (forall i :: 0 <= i < |s.history| ==> Keyed(s.history[i]))
    && (s.source.None? ==> s.built == [])
    && (s.source.Some? ==> s.source.value < |s.history|)
    && Enumerates(s.built, s.Shown())
    && HoldsSnapshot(s, s.ticker) && HoldsSnapshot(s, s.subscriber)
  }

  lemma NextKeepsSafe(s: State, s': State)
    requires Safe(s) && Next(s, s')
    ensures Safe(s')
    ensures s.history <= s'.history
  {
    if TableChanges(s, s') {
      forall i | 0 <= i < |s.history| ensures s'.history[i] == s.history[i] {
        assert s'.history[..|s.history|][i] == s.history[i];
      }
    }
  }

  lemma {:induction false} RunIsSafe(run: seq<State>, i: nat)
    requires IsRun(run) && Init(run[0]) && i < |run|
    ensures Safe(run[i])
  {
    if i == 0 {
    } else {
      RunIsSafe(run, i - 1);
      NextKeepsSafe(run[i - 1], run[i]);
    }
  }

  /** A search in a run, with its first locked section in state `i` and its second in a later state
      `j`, answers from whole past tables: exactly the comics of the table shown in `j` that match,
      as far as the comic of the same id in the table shown in `i` matched too. */
  lemma SearchSeesSnapshots(run: seq<State>, i: nat, j: nat, tokens: seq<string>)
    requires IsRun(run) && Init(run[0]) && i <= j < |run|
    ensures
      var early, late := run[i].Shown(), run[j].Shown();
      forall c :: c in RankTable(Torn(run[i].built, run[j].built, tokens), tokens) <==>
        && c.id in late && late[c.id] == c && Score(c, tokens) > 0
        && c.id in early && Score(early[c.id], tokens) > 0
  {
    RunIsSafe(run, i);
    RunIsSafe(run, j);
    ListGivesTable(run[j].built, run[j].Shown());
    TornExact(run[i].built, run[j].built, tokens);
  }

  // ----- when the index stays up to date

  ghost predicate ShowsCurrent(s: State)
    requires s.history != []
  {
    Enumerates(s.built, s.Current())
  }

  /** No rebuilder holds rows that differ from the current table. */
  ghost predicate NothingStale(s: State)
    requires s.history != []
  {
    && (s.ticker.Holding? ==> Enumerates(s.ticker.read, s.Current()))
    && (s.subscriber.Holding? ==> Enumerates(s.subscriber.read, s.Current()))
  }

  /** A run during which the table does not change. */
  ghost predicate IsQuietRun(run: seq<State>) {
    IsRun(run) && forall i :: 0 <= i < |run| ==> run[i].history == run[0].history
  }

  lemma QuietStep(s: State, s': State)
    requires Safe(s) && Next(s, s') && s'.history == s.history
    requires ShowsCurrent(s) && NothingStale(s)
    ensures ShowsCurrent(s') && NothingStale(s')
  {
  }

  lemma {:induction false} QuietKeepsCurrent(run: seq<State>, i: nat)
    requires IsQuietRun(run) && i < |run| && Safe(run[0]) && ShowsCurrent(run[0]) && NothingStale(run[0])
    ensures Safe(run[i]) && ShowsCurrent(run[i]) && NothingStale(run[i])
  {
    if i == 0 {
    } else {
      QuietKeepsCurrent(run, i - 1);
      assert Next(run[i - 1], run[i]);
      NextKeepsSafe(run[i - 1], run[i]);
      QuietStep(run[i - 1], run[i]);
    }
  }

  lemma InstallGivesRun(s: State, who: Who) returns (run: seq<State>)
    requires s.Of(who).Holding?
    ensures IsQuietRun(run) && run[0] == s && |run| == 2 && run[1].built == s.Of(who).read
  {
    var s' := s.(built := s.Of(who).read, source := Some(s.Of(who).age)).Put(who, Idle);
    assert Installs(s, s', who);
    run := [s, s'];
  }

  /** The index shows the current table from now until the next change exactly when it shows it now
      and no pending rebuild holds rows of a different content. In particular it may fall back: an
      older read installed later replaces a newer build. */
  lemma StaysCurrentIff(s: State)
    requires Safe(s)
    ensures (forall run, i :: IsQuietRun(run) && run[0] == s && 0 <= i < |run| ==> ShowsCurrent(run[i]))
            <==> ShowsCurrent(s) && NothingStale(s)
  {
    if ShowsCurrent(s) && NothingStale(s) {
      forall run, i | IsQuietRun(run) && run[0] == s && 0 <= i < |run| ensures ShowsCurrent(run[i]) {
        QuietKeepsCurrent(run, i);
      }
    } else if !ShowsCurrent(s) {
      var run := [s];
      assert IsQuietRun(run) && run[0] == s;
    } else {
      var who := if s.ticker.Holding? && !Enumerates(s.ticker.read, s.Current()) then Ticker else Subscriber;
      var run := InstallGivesRun(s, who);
      assert !ShowsCurrent(run[1]);
    }
  }

  /** From the start of the service, for any two different contents `old` and `new` of the table: the
      ticker reads, the table changes, the subscriber reads and installs, and then the ticker installs
      what it read before. The index shows the new table and then falls back to the old one. */
  lemma IndexMayGoBack(old': Table, new': Table) returns (run: seq<State>)
    requires Keyed(old') && Keyed(new') && old' != new'
    ensures IsRun(run) && |run| == 6 && Init(run[0]) && run[0].Current() == old'
    ensures run[4].history == run[5].history == [old', new']
    ensures ShowsCurrent(run[4]) && !ShowsCurrent(run[5]) && run[5].Shown() == old'
  {
    var before, after := Listing(old'), Listing(new');
    var s0 := State([old'], [], None, Idle, Idle);
    var s1 := s0.(ticker := Holding(before, 0));
    var s2 := s1.(history := [old', new']);
    var s3 := s2.(subscriber := Holding(after, 1));
    var s4 := s3.(built := after, source := Some(1), subscriber := Idle);
    var s5 := s4.(built := before, source := Some(0), ticker := Idle);
    assert Reads(s0, s1, Ticker);
    assert TableChanges(s1, s2) by {
      assert s2.history[..1] == s1.history;
    }
    assert Reads(s2, s3, Subscriber);
    assert Installs(s3, s4, Subscriber);
    assert Installs(s4, s5, Ticker);
    run := [s0, s1, s2, s3, s4, s5];
    if Enumerates(before, new') {
      ListGivesTable(before, old');
      ListGivesTable(before, new');
    }
  }

  /** Once a rebuild that read the current table installs while the other rebuilder holds no older
      read, the index shows the table in every later state of every run until the table changes. */
  lemma InstallSettles(s: State, who: Who, other: Who, run: seq<State>, i: nat)
    requires Safe(s) && who != other
    requires s.Of(who).Holding? && s.Of(who).age == |s.history| - 1
    requires s.Of(other).Holding? ==> s.Of(other).age == |s.history| - 1
    requires IsQuietRun(run) && i < |run| && Installs(s, run[0], who)
    ensures ShowsCurrent(run[i])
  {
    assert Next(s, run[0]);
    NextKeepsSafe(s, run[0]);
    QuietKeepsCurrent(run, i);
  }
}
