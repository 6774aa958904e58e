/** How far breadth of coverage outweighs the field weights. */
module Dominance {
  import opened Catalog
  import opened Ranking

  function WeightedCounts(tokens: seq<string>, c: Comic): nat {
    WEIGHT_TITLE * Count(tokens, c.title) + WEIGHT_ALT * Count(tokens, c.alt) + WEIGHT_WORDS * Count(tokens, c.words)
  }

  lemma CoveredGrows(tokens: seq<string>, c: Comic)
    requires NoDuplicates(tokens) && tokens != []
    ensures
      var n := |tokens| - 1;
      |Covered(tokens, c)| == |Covered(tokens[..n], c)| + if Matches(tokens[n], c) then 1 else 0
  {
    var n := |tokens| - 1;
    CoveredStep(tokens, n, c);
    assert tokens[..n + 1] == tokens;
    assert tokens[n] !in Covered(tokens[..n], c);
  }

  lemma WeightsGrow(tokens: seq<string>, c: Comic)
    requires tokens != []
    ensures
      var n := |tokens| - 1;
      var worth := WeightedCounts(tokens, c) - WeightedCounts(tokens[..n], c);
      if Matches(tokens[n], c) then 1 <= worth <= 9 else worth == 0
  {
  }

  lemma {:induction false} WeightsPerToken(tokens: seq<string>, c: Comic)
    requires NoDuplicates(tokens)
    ensures |Covered(tokens, c)| <= WeightedCounts(tokens, c) <= 9 * |Covered(tokens, c)|
  {
    if tokens == [] {
    } else {
      WeightsPerToken(tokens[..|tokens| - 1], c);
      CoveredGrows(tokens, c);
      WeightsGrow(tokens, c);
    }
  }

  /** In a query without repetitions a covered token is worth at least 101 and at most 109. */
  lemma ScorePerToken(tokens: seq<string>, c: Comic)
    requires NoDuplicates(tokens)
    ensures 101 * |Covered(tokens, c)| <= Score(c, tokens) <= 109 * |Covered(tokens, c)|
  {
    WeightsPerToken(tokens, c);
  }

  lemma {:induction false} CountNothing(tokens: seq<string>)
    ensures Count(tokens, []) == 0
  {
    if tokens == [] {
    } else {
      CountNothing(tokens[..|tokens| - 1]);
    }
  }

  /** One match is worth most in the title, less in the alternative text, least in the words. */
  lemma FieldWorth(t: string, id: int, url: string)
    requires t != ""
    ensures Score(Comic(id, url, [t], [], []), [t]) == 105
    ensures Score(Comic(id, url, [], [t], []), [t]) == 103
    ensures Score(Comic(id, url, [], [], [t]), [t]) == 101
  {
    var c, d, e := Comic(id, url, [t], [], []), Comic(id, url, [], [t], []), Comic(id, url, [], [], [t]);
    assert Covered([t], c) == Covered([t], d) == Covered([t], e) == {t};
    assert [t][..0] == [];
    CountStep([t], 0, [t]);
    assert [t][..1] == [t];
    CountNothing([t]);
  }

  /** Whatever the comics hold, covering more of an n-token query always scores higher. */
  ghost predicate CoverageDominates(n: nat) {
    forall tokens: seq<string>, c: Comic, d: Comic ::
      |tokens| == n && NoDuplicates(tokens) && |Covered(tokens, c)| > |Covered(tokens, d)|
      ==> Score(c, tokens) > Score(d, tokens)
  }

  lemma CoveredAtMost(tokens: seq<string>, c: Comic)
    ensures |Covered(tokens, c)| <= |tokens|
  {
    if tokens != [] {
      var n := |tokens| - 1;
      CoveredAtMost(tokens[..n], c);
      CoveredStep(tokens, n, c);
      assert tokens[..n + 1] == tokens;
    }
  }

  lemma DominatesWithin(tokens: seq<string>, c: Comic, d: Comic)
    requires |tokens| <= 13 && NoDuplicates(tokens) && |Covered(tokens, c)| > |Covered(tokens, d)|
    ensures Score(c, tokens) > Score(d, tokens)
  {
    CoveredAtMost(tokens, c);
    ScorePerToken(tokens, c);
    ScorePerToken(tokens, d);
  }

  function Ones(n: nat): string {
    seq(n, i requires 0 <= i < n => '1')
  }

  /** n different tokens, "1", "11" and so on: digits, which a query keeps as they are. */
  function Numbered(n: nat): seq<string> {
    seq(n, i requires 0 <= i < n => Ones(i + 1))
  }

  lemma NumberedDistinct(n: nat)
    ensures NoDuplicates(Numbered(n)) && "" !in Numbered(n)
  {
    forall i, j | 0 <= i < j < n ensures Numbered(n)[i] != Numbered(n)[j] {
      assert |Ones(i + 1)| != |Ones(j + 1)|;
    }
  }

  lemma {:induction false} CountOfPrefix(tokens: seq<string>, k: nat, field: seq<string>)
    requires k <= |field| && NoDuplicates(tokens) && "" !in tokens
    requires |field| <= |tokens| && field == tokens[..|field|]
    ensures Count(tokens[..k], field) == k
  {
    if k == 0 {
    } else {
      CountStep(tokens, k - 1, field);
      CountOfPrefix(tokens, k - 1, field);
      assert tokens[k - 1] == field[k - 1];
    }
  }

  lemma {:induction false} CountBeyondPrefix(tokens: seq<string>, k: nat, field: seq<string>)
    requires |field| <= k <= |tokens| && NoDuplicates(tokens) && "" !in tokens
    requires field == tokens[..|field|]
    ensures Count(tokens[..k], field) == |field|
  {
    if k == |field| {
      CountOfPrefix(tokens, k, field);
    } else {
      CountStep(tokens, k - 1, field);
      CountBeyondPrefix(tokens, k - 1, field);
      assert tokens[k - 1] !in field;
    }
  }

  /** A comic holding the first `k` query tokens in `words` only, and one holding them everywhere. */
  lemma PrefixScores(tokens: seq<string>, k: nat)
    requires 0 < k <= |tokens| && NoDuplicates(tokens) && "" !in tokens
    ensures Score(Comic(1, "", [], [], tokens[..k]), tokens) == 101 * k
    ensures Score(Comic(2, "", tokens[..k], tokens[..k], tokens[..k]), tokens) == 109 * k
    ensures |Covered(tokens, Comic(1, "", [], [], tokens[..k]))| == k
    ensures |Covered(tokens, Comic(2, "", tokens[..k], tokens[..k], tokens[..k]))| == k
  {
    var field := tokens[..k];
    var c, d := Comic(1, "", [], [], field), Comic(2, "", field, field, field);
    assert tokens[..|tokens|] == tokens;
    CountBeyondPrefix(tokens, |tokens|, field);
    CountNothing(tokens);
    SizeOfDistinct(field);
    assert Covered(tokens, c) == set x | x in field;
    assert Covered(tokens, d) == set x | x in field;
  }

  /** Coverage dominates the weights for queries of up to 13 tokens and for no longer ones: from 14
      on, 14 matches in `words` (1414) lose to 13 matches in all three fields (1417). */
  lemma CoverageDominatesIff(n: nat)
    ensures CoverageDominates(n) <==> n <= 13
  {
    if n <= 13 {
      forall tokens: seq<string>, c: Comic, d: Comic
        | |tokens| == n && NoDuplicates(tokens) && |Covered(tokens, c)| > |Covered(tokens, d)|
        ensures Score(c, tokens) > Score(d, tokens)
      {
        DominatesWithin(tokens, c, d);
      }
    } else {
      var tokens := Numbered(n);
      NumberedDistinct(n);
      PrefixScores(tokens, 14);
      PrefixScores(tokens, 13);
      var c := Comic(1, "", [], [], tokens[..14]);
      var d := Comic(2, "", tokens[..13], tokens[..13], tokens[..13]);
      assert |Covered(tokens, c)| > |Covered(tokens, d)|;
      assert Score(c, tokens) < Score(d, tokens);
    }
  }
}
