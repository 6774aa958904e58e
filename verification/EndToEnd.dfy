/** What the parts guarantee together, from a comic's text to a search that finds it. */
module EndToEnd {
  import opened Catalog
  import W = Words
  import opened Ranking
  import opened Dominance
  import opened Index
  import opened Search
  import opened Pool
  import opened PoolSafety
  import opened Schedules
  import opened Convergence

  /** For normalised phrases of up to 13 tokens every ranking is ordered by coverage first: no comic
      stands before one that covers more of the phrase. */
  lemma CoverageRanksFirst(l: W.Language, phrase: string, t: Table, i: nat, j: nat)
    requires Keyed(t) && |W.NormOf(l, phrase)| <= 13
    requires i < j < |RankTable(t, W.NormOf(l, phrase))|
    ensures
      var tokens := W.NormOf(l, phrase);
      var ranking := RankTable(t, tokens);
      |Covered(tokens, ranking[i])| >= |Covered(tokens, ranking[j])|
  {
    var tokens := W.NormOf(l, phrase);
    var ranking := RankTable(t, tokens);
    W.DedupeIff(W.Kept(l, W.Runs(W.Lower(l, phrase))), tokens);
    RankTableExact(t, tokens);
    if |Covered(tokens, ranking[i])| < |Covered(tokens, ranking[j])| {
      DominatesWithin(tokens, ranking[j], ranking[i]);
    }
  }

  // ----- the bound of 13 tokens on what users ask and see

  /** The phrase "1 11 111 ..." of n numbers. */
  function NumberPhrase(n: nat): string {
    if n == 0 then "" else NumberPhrase(n - 1) + " " + Ones(n)
  }

  /** What the proof needs of lower-casing: it leaves the digit 1 alone and makes no letter or digit
      of a space. */
  predicate LowersPlainly(l: W.Language) {
    l.lower('1') == '1' && !W.AlphaNum(l.lower(' '))
  }

  lemma {:induction false} DedupeDistinct(s: seq<string>)
    requires NoDuplicates(s)
    ensures W.Dedupe(s) == s
  {
    if s == [] {
    } else {
      DedupeDistinct(s[..|s| - 1]);
      assert s == s[..|s| - 1] + [s[|s| - 1]];
    }
  }

  lemma NormOnes(l: W.Language, n: nat)
    requires LowersPlainly(l) && n > 0
    ensures W.NormOf(l, Ones(n)) == [Ones(n)]
  {
    assert W.Lower(l, Ones(n)) == Ones(n);
    assert Ones(n) + "" == Ones(n) && "" + Ones(n) == Ones(n);
    W.SplitRun(Ones(n), "", "");
    assert W.Runs(Ones(n)) == [Ones(n)];
    assert W.Kept(l, [Ones(n)]) == [Ones(n)];
    DedupeDistinct([Ones(n)]);
  }

  lemma DedupeNumbered(n: nat)
    requires n > 0
    ensures W.Dedupe(Numbered(n - 1) + [Ones(n)]) == Numbered(n)
  {
    assert Numbered(n) == Numbered(n - 1) + [Ones(n)];
    NumberedDistinct(n);
    DedupeDistinct(Numbered(n));
  }

  lemma NormSpaced(l: W.Language, p: string, q: string)
    requires LowersPlainly(l)
    ensures W.NormOf(l, p + " " + q) == W.Dedupe(W.NormOf(l, p) + W.NormOf(l, q))
  {
    assert W.Lower(l, " ") == [l.lower(' ')];
    W.NormIsHomomorphic(l, p, " ", q);
  }

  lemma NormNothing(l: W.Language)
    ensures W.NormOf(l, "") == []
  {
    assert W.Lower(l, "") == "";
  }

  /** Numbers stay what they are, for every stemmer and stop-word list. */
  lemma {:induction false} NormNumberPhrase(l: W.Language, n: nat)
    requires LowersPlainly(l)
    ensures W.NormOf(l, NumberPhrase(n)) == Numbered(n)
  {
    if n == 0 {
      NormNothing(l);
    } else {
      NormNumberPhrase(l, n - 1);
      NormOnes(l, n);
      NormSpaced(l, NumberPhrase(n - 1), Ones(n));
      DedupeNumbered(n);
    }
  }

  ghost predicate CoverageFirst(ranking: seq<Comic>, tokens: seq<string>) {
    forall i, j :: 0 <= i < j < |ranking| ==> |Covered(tokens, ranking[i])| >= |Covered(tokens, ranking[j])|
  }

  /** Every ranking of every table for a phrase of n normalised tokens puts breadth first. */
  ghost predicate CoverageRanksFirstFor(l: W.Language, n: nat) {
    forall phrase: string, t: Table | |W.NormOf(l, phrase)| == n && Keyed(t)
      :: CoverageFirst(RankTable(t, W.NormOf(l, phrase)), W.NormOf(l, phrase))
  }

  /** A table of two comics: one holds 14 of the tokens in its words, the other 13 everywhere. */
  function TwoComics(tokens: seq<string>): Table
    requires |tokens| >= 14
  {
    map[1 := Comic(1, "", [], [], tokens[..14]), 2 := Comic(2, "", tokens[..13], tokens[..13], tokens[..13])]
  }

  lemma NarrowerScoresHigher(tokens: seq<string>)
    requires |tokens| >= 14 && NoDuplicates(tokens) && "" !in tokens
    ensures
      var wide, narrow := TwoComics(tokens)[1], TwoComics(tokens)[2];
      && Score(narrow, tokens) > Score(wide, tokens) > 0
      && |Covered(tokens, narrow)| < |Covered(tokens, wide)|
  {
    PrefixScores(tokens, 14);
    PrefixScores(tokens, 13);
  }

  lemma StandsBefore(t: Table, tokens: seq<string>, c: Comic, d: Comic) returns (i: nat, j: nat)
    requires Keyed(t) && c.id in t && t[c.id] == c && d.id in t && t[d.id] == d
    requires Score(c, tokens) > Score(d, tokens) > 0
    ensures i < j < |RankTable(t, tokens)|
    ensures RankTable(t, tokens)[i] == c && RankTable(t, tokens)[j] == d
  {
    RankTableExact(t, tokens);
    var ranking := RankTable(t, tokens);
    assert c in ranking && d in ranking;
    i :| 0 <= i < |ranking| && ranking[i] == c;
    j :| 0 <= j < |ranking| && ranking[j] == d;
    if j < i {
      RankTableOrder(t, tokens, j, i);
    }
  }

  lemma NarrowerRanksFirst(tokens: seq<string>)
    requires |tokens| >= 14 && NoDuplicates(tokens) && "" !in tokens
    ensures Keyed(TwoComics(tokens)) && !CoverageFirst(RankTable(TwoComics(tokens), tokens), tokens)
  {
    var t := TwoComics(tokens);
    NarrowerScoresHigher(tokens);
    var i, j := StandsBefore(t, tokens, t[2], t[1]);
  }

  /** Breadth comes first in every ranking for phrases of n normalised tokens if and only if n is at
      most 13: for every longer n there are a phrase and a table whose ranking puts a comic that
      covers 13 tokens before one that covers 14. */
  lemma CoverageRanksFirstIff(l: W.Language, n: nat)
    requires LowersPlainly(l)
    ensures CoverageRanksFirstFor(l, n) <==> n <= 13
  {
    if n <= 13 {
      forall phrase: string, t: Table | |W.NormOf(l, phrase)| == n && Keyed(t)
        ensures CoverageFirst(RankTable(t, W.NormOf(l, phrase)), W.NormOf(l, phrase))
      {
        var tokens := W.NormOf(l, phrase);
        var ranking := RankTable(t, tokens);
        forall i, j | 0 <= i < j < |ranking|
          ensures |Covered(tokens, ranking[i])| >= |Covered(tokens, ranking[j])|
        {
          CoverageRanksFirst(l, phrase, t, i, j);
        }
      }
    } else {
      var phrase := NumberPhrase(n);
      NormNumberPhrase(l, n);
      NumberedDistinct(n);
      NarrowerRanksFirst(Numbered(n));
      assert |W.NormOf(l, phrase)| == n;
    }
  }

  // ----- from an update to a search

  /** The table after a complete update holds the old numbers and those of the rows that the missing
      ids left, and under each number one of the rows it may hold. If the site answers the missing ids
      with their own numbers, it holds the old rows as they were and exactly the stored outcomes. */
  lemma TableAfterUpdate(world: World, base: Table, latest: int, concurrency: nat, s: State, k: int)
    requires concurrency >= 1 && Complete(world, base, latest, concurrency, s)
    ensures k in s.table <==> k in base || Covers(world, Missing(latest, base.Keys), k)
    ensures k in s.table ==> Candidate(world, base, latest, k, s.table[k])
    ensures AnswersItsId(world, Missing(latest, base.Keys)) ==>
              && (k in base ==> s.table[k] == base[k])
              && (k in s.table <==> k in base || (1 <= k <= latest && Outcome(world, k).Some?))
              && (k !in base && k in s.table ==> Outcome(world, k) == Some(s.table[k]))
  {
    var missing := Missing(latest, base.Keys);
    CompleteLeavesCandidate(world, base, latest, concurrency, s, k);
    if AnswersItsId(world, missing) {
      CoversOwn(world, missing, k);
      UnsentExact(1, latest, base.Keys);
    }
  }

  lemma {:induction false} KeptNonEmpty(l: W.Language, ws: seq<string>)
    requires "" !in ws
    ensures "" !in W.Kept(l, ws)
  {
    if ws == [] {
    } else {
      var front, w := ws[..|ws| - 1], ws[|ws| - 1];
      assert ws == front + [w];
      assert "" !in front;
      KeptNonEmpty(l, front);
    }
  }

  lemma NormNonEmpty(l: W.Language, text: string)
    ensures "" !in W.NormOf(l, text)
  {
    var runs := W.Runs(W.Lower(l, text));
    W.SplitYieldsRuns(W.Lower(l, text), W.AlphaNum, "");
    KeptNonEmpty(l, runs);
    W.DedupeKeepsElements(W.Kept(l, runs));
  }

  /** The updater's normaliser is `Norm`, except that it may fail on some texts. */
  ghost predicate UsesNorm(world: World, l: W.Language) {
    forall text :: world.norm(text).Some? ==> world.norm(text).value == W.NormOf(l, text)
  }

  /** The text could be normalised and shares a token with the phrase. */
  ghost predicate SharesToken(world: World, l: W.Language, phrase: string, text: string) {
    world.norm(text).Some? && exists t :: t in W.NormOf(l, phrase) && t in W.NormOf(l, text)
  }

  /** A stored comic matches a phrase when a token of the phrase is one of its texts' tokens. */
  lemma MatchIffShares(l: W.Language, world: World, info: Info, phrase: string)
    requires UsesNorm(world, l)
    ensures Score(RowOf(world, info), W.NormOf(l, phrase)) > 0 <==>
              || SharesToken(world, l, phrase, info.title) || SharesToken(world, l, phrase, info.alt)
              || SharesToken(world, l, phrase, info.description)
  {
    var c, tokens := RowOf(world, info), W.NormOf(l, phrase);
    NormNonEmpty(l, phrase);
    ScorePositiveIff(c, tokens);
    if t :| t in tokens && (t in c.title || t in c.alt || t in c.words) {
      assert Matches(t, c);
      assert t in Covered(tokens, c);
    }
    if t :| t in Covered(tokens, c) {
      assert t in tokens && (t in c.title || t in c.alt || t in c.words);
    }
  }

  lemma PlaceholderScoresZero(id: int, tokens: seq<string>)
    ensures Score(Placeholder(id), tokens) == 0
  {
    ScorePositiveIff(Placeholder(id), tokens);
  }

  /** A comic with this number is among the ranked hits of an index built from `list`. */
  ghost predicate IsHit(list: seq<Comic>, tokens: seq<string>, id: int) {
    exists c :: c in RankTable(Torn(list, list, tokens), tokens) && c.id == id
  }

  lemma HitIff(list: seq<Comic>, t: Table, tokens: seq<string>, id: int)
    requires Enumerates(list, t)
    ensures IsHit(list, tokens, id) <==> id in t && Score(t[id], tokens) > 0
  {
    ListGivesTable(list, t);
    UntornRanksDocs(list, tokens);
    RankTableExact(t, tokens);
    if id in t && Score(t[id], tokens) > 0 {
      assert t[id] in RankTable(t, tokens);
    }
  }

  /** The site had comic `j`, and one of its texts shares a token with the phrase. */
  ghost predicate Matching(world: World, l: W.Language, phrase: string, j: int) {
    && world.get(j).Fetched?
    && (|| SharesToken(world, l, phrase, world.get(j).info.title)
        || SharesToken(world, l, phrase, world.get(j).info.alt)
        || SharesToken(world, l, phrase, world.get(j).info.description))
  }

  lemma OutcomeScores(world: World, l: W.Language, phrase: string, j: int)
    requires UsesNorm(world, l) && Outcome(world, j).Some?
    ensures Score(Outcome(world, j).value, W.NormOf(l, phrase)) > 0 <==> Matching(world, l, phrase, j)
  {
    PlaceholderScoresZero(j, W.NormOf(l, phrase));
    if world.get(j).Fetched? {
      MatchIffShares(l, world, world.get(j).info, phrase);
    }
  }

  /** Whichever of the rows that may end under number `id` does, it matches the phrase: all missing ids
      whose rows have that number match, or there are none and the stored row does. */
  ghost predicate SurelyMatches(world: World, l: W.Language, base: Table, latest: int, phrase: string, id: int) {
    var missing := Missing(latest, base.Keys);
    if Covers(world, missing, id) then
      forall j :: j in missing && WritesTo(world, j, id) ==> Matching(world, l, phrase, j)
    else id in base && Score(base[id], W.NormOf(l, phrase)) > 0
  }

  /** One of the rows that may end under number `id` matches the phrase. */
  ghost predicate MayMatch(world: World, l: W.Language, base: Table, latest: int, phrase: string, id: int) {
    var missing := Missing(latest, base.Keys);
    if Covers(world, missing, id) then
      exists j :: j in missing && WritesTo(world, j, id) && Matching(world, l, phrase, j)
    else id in base && Score(base[id], W.NormOf(l, phrase)) > 0
  }

  lemma CandidatesScore(l: W.Language, world: World, base: Table, latest: int, phrase: string, id: int, row: Comic)
    requires UsesNorm(world, l) && Candidate(world, base, latest, id, row)
    ensures SurelyMatches(world, l, base, latest, phrase, id) ==> Score(row, W.NormOf(l, phrase)) > 0
    ensures Score(row, W.NormOf(l, phrase)) > 0 ==> MayMatch(world, l, base, latest, phrase, id)
  {
    var missing := Missing(latest, base.Keys);
    if Covers(world, missing, id) {
      var j :| j in missing && WritesTo(world, j, id) && Outcome(world, j) == Some(row);
      OutcomeScores(world, l, phrase, j);
    }
  }

  /** After a complete update and a rebuild from its table a comic is a hit if all rows that may end
      under its number match, and only if one of them does. */
  lemma FoundAfterUpdate(l: W.Language, world: World, base: Table, latest: int, concurrency: nat, s: State,
                         list: seq<Comic>, phrase: string, id: int)
    requires concurrency >= 1 && Complete(world, base, latest, concurrency, s)
    requires UsesNorm(world, l) && Enumerates(list, s.table)
    ensures SurelyMatches(world, l, base, latest, phrase, id) ==> IsHit(list, W.NormOf(l, phrase), id)
    ensures IsHit(list, W.NormOf(l, phrase), id) ==> MayMatch(world, l, base, latest, phrase, id)
  {
    HitIff(list, s.table, W.NormOf(l, phrase), id);
    CompleteLeavesCandidate(world, base, latest, concurrency, s, id);
    if id in s.table {
      CandidatesScore(l, world, base, latest, phrase, id, s.table[id]);
    }
  }

  /** A comic is a hit after every complete update. */
  ghost predicate AlwaysFound(world: World, base: Table, latest: int, concurrency: nat, tokens: seq<string>, id: int) {
    forall s, list | Complete(world, base, latest, concurrency, s) && Enumerates(list, s.table)
      :: IsHit(list, tokens, id)
  }

  lemma FoundAfterLoneWorker(world: World, base: Table, latest: int, tokens: seq<string>, id: int)
    requires Keyed(base)
    ensures
      var t := Sequential(world, base, Missing(latest, base.Keys));
      AlwaysFound(world, base, latest, 1, tokens, id) <==> id in t && Score(t[id], tokens) > 0
  {
    ScheduleIndependentIff(world, base, latest, 1);
    var s := LoneRun(world, base, latest, 1);
    UpdateWrites(world, base, latest, 1, s, id);
    HitIff(Listing(s.table), s.table, tokens, id);
    forall s', list | Complete(world, base, latest, 1, s') && Enumerates(list, s'.table)
      ensures IsHit(list, tokens, id) <==> id in s.table && Score(s.table[id], tokens) > 0
    {
      HitIff(list, s'.table, tokens, id);
    }
  }

  lemma SomeRunMisses(l: W.Language, world: World, base: Table, latest: int, concurrency: nat, phrase: string, id: int)
    returns (s: State)
    requires concurrency >= 2 && UsesNorm(world, l) && !SurelyMatches(world, l, base, latest, phrase, id)
    ensures Complete(world, base, latest, concurrency, s)
    ensures id in s.table ==> Score(s.table[id], W.NormOf(l, phrase)) == 0
  {
    var missing := Missing(latest, base.Keys);
    if Covers(world, missing, id) {
      var j :| j in missing && WritesTo(world, j, id) && !Matching(world, l, phrase, j);
      OutcomeScores(world, l, phrase, j);
      s := HeldBack(world, base, latest, concurrency, j);
    } else {
      s := LoneRun(world, base, latest, concurrency);
      CompleteLeavesCandidate(world, base, latest, concurrency, s, id);
    }
  }

  /** A comic is a hit after every complete update, whatever the schedule, if and only if all rows that
      may end under its number match the phrase. With one worker only the row matters that doing the
      missing ids in order leaves. */
  lemma AlwaysFoundIff(l: W.Language, world: World, base: Table, latest: int, concurrency: nat, phrase: string, id: int)
    requires concurrency >= 1 && UsesNorm(world, l) && Keyed(base)
    ensures
      var tokens := W.NormOf(l, phrase);
      var t := Sequential(world, base, Missing(latest, base.Keys));
      AlwaysFound(world, base, latest, concurrency, tokens, id)
      <==> if concurrency == 1 then id in t && Score(t[id], tokens) > 0
           else SurelyMatches(world, l, base, latest, phrase, id)
  {
    if concurrency == 1 {
      FoundAfterLoneWorker(world, base, latest, W.NormOf(l, phrase), id);
    } else if SurelyMatches(world, l, base, latest, phrase, id) {
      forall s, list | Complete(world, base, latest, concurrency, s) && Enumerates(list, s.table)
        ensures IsHit(list, W.NormOf(l, phrase), id)
      {
        FoundAfterUpdate(l, world, base, latest, concurrency, s, list, phrase, id);
      }
    } else {
      var s := SomeRunMisses(l, world, base, latest, concurrency, phrase, id);
      UpdateWrites(world, base, latest, concurrency, s, id);
      HitIff(Listing(s.table), s.table, W.NormOf(l, phrase), id);
    }
  }

  /** End to end, for a site that answers the missing ids with their own numbers: after a complete
      update whose table an index was built from, a comic whose number was missing is among the
      ranked hits of a phrase exactly when the site had it, the database stored it and its texts
      share a normalised token with the phrase. */
  lemma FoundAfterUpdateIff(l: W.Language, world: World, base: Table, latest: int, concurrency: nat, s: State,
                            list: seq<Comic>, phrase: string, id: int)
    requires concurrency >= 1 && Complete(world, base, latest, concurrency, s)
    requires AnswersItsId(world, Missing(latest, base.Keys)) && UsesNorm(world, l)
    requires Enumerates(list, s.table) && 1 <= id <= latest && id !in base
    ensures IsHit(list, W.NormOf(l, phrase), id) <==> world.stores(id) && Matching(world, l, phrase, id)
  {
    var missing := Missing(latest, base.Keys);
    FoundAfterUpdate(l, world, base, latest, concurrency, s, list, phrase, id);
    UnsentExact(1, latest, base.Keys);
    CoversOwn(world, missing, id);
    assert Outcome(world, id).Some? ==> WritesTo(world, id, id);
  }
}
