/** Scoring a comic against a query and ranking the hits, shared by both search paths. */
module Ranking {
  import opened Catalog

  const COVERED := 100
  const WEIGHT_TITLE := 5
  const WEIGHT_ALT := 3
  const WEIGHT_WORDS := 1

  // ----- the meaning of a score

  /** A token counts as found in a field when it occurs there; the empty token never counts. */
  predicate Found(t: string, field: seq<string>) {
    t != "" && t in field
  }

  predicate Matches(t: string, c: Comic) {
    Found(t, c.title) || Found(t, c.alt) || Found(t, c.words)
  }

  /** The number of query positions whose token is found in `field`. */
  function Count(tokens: seq<string>, field: seq<string>): nat {
    if tokens == [] then 0
    else Count(tokens[..|tokens| - 1], field) + if Found(tokens[|tokens| - 1], field) then 1 else 0
  }

  function Covered(tokens: seq<string>, c: Comic): set<string> {
    set t | t in tokens && Matches(t, c)
  }

  function Score(c: Comic, tokens: seq<string>): nat {
    if Covered(tokens, c) == {} then 0
    else COVERED * |Covered(tokens, c)| + WEIGHT_TITLE * Count(tokens, c.title)
         + WEIGHT_ALT * Count(tokens, c.alt) + WEIGHT_WORDS * Count(tokens, c.words)
  }

  /** Higher score first, then lower id. */
  predicate Before(a: Comic, b: Comic, tokens: seq<string>) {
    Score(a, tokens) > Score(b, tokens) || (Score(a, tokens) == Score(b, tokens) && a.id < b.id)
  }

  function Hits(comics: seq<Comic>, tokens: seq<string>): seq<Comic> {
    if comics == [] then []
    else Hits(comics[..|comics| - 1], tokens)
         + if Score(comics[|comics| - 1], tokens) > 0 then [comics[|comics| - 1]] else []
  }

  ghost predicate Ordered(list: seq<Comic>, tokens: seq<string>) {
    forall i, j :: 0 <= i < j < |list| ==> !Before(list[j], list[i], tokens)
  }

  /** What any correct sort of the hits may leave behind. */
  ghost predicate Arrangement(list: seq<Comic>, comics: seq<Comic>, tokens: seq<string>) {
    multiset(list) == multiset(Hits(comics, tokens)) && Ordered(list, tokens)
  }

  /** The cut at `limit`. The program compares the length after truncating it to 32 bits. */
  function Cut(list: seq<Comic>, limit: nat): seq<Comic> {
    if |list| % U32 > limit then list[..limit] else list
  }

  /** The places of the query whose token is in the field. */
  function Places(tokens: seq<string>, field: seq<string>): set<int> {
    set i | 0 <= i < |tokens| && tokens[i] != "" && tokens[i] in field
  }

  lemma PlacesGrow(front: seq<string>, t: string, field: seq<string>)
    ensures Places(front + [t], field) == Places(front, field) + if t != "" && t in field then {|front|} else {}
  {
    var tokens := front + [t];
    assert forall i :: 0 <= i < |front| ==> tokens[i] == front[i];
  }

  lemma {:induction false} CountExact(tokens: seq<string>, field: seq<string>)
    ensures Count(tokens, field) == |Places(tokens, field)|
  {
    if tokens == [] {
    } else {
      var front, t := tokens[..|tokens| - 1], tokens[|tokens| - 1];
      CountExact(front, field);
      PlacesGrow(front, t, field);
      assert tokens == front + [t];
      assert |front| !in Places(front, field);
    }
  }

  /** A comic scores 100 for every different non-empty query token that one of its fields holds, and 5, 3
      and 1 for every place of the query whose token its title, its alternative text and its words
      hold. Without a common token it scores nothing. */
  lemma ScoreExact(c: Comic, tokens: seq<string>)
    ensures
      var covered := set t | t in tokens && t != "" && (t in c.title || t in c.alt || t in c.words);
      var title := set i | 0 <= i < |tokens| && tokens[i] != "" && tokens[i] in c.title;
      var alt := set i | 0 <= i < |tokens| && tokens[i] != "" && tokens[i] in c.alt;
      var words := set i | 0 <= i < |tokens| && tokens[i] != "" && tokens[i] in c.words;
      Score(c, tokens) == if covered == {} then 0 else 100 * |covered| + 5 * |title| + 3 * |alt| + |words|
  {
    CountExact(tokens, c.title);
    CountExact(tokens, c.alt);
    CountExact(tokens, c.words);
    assert Covered(tokens, c) == set t | t in tokens && t != "" && (t in c.title || t in c.alt || t in c.words);
  }

  // ----- the program

  datatype Scored = Scored(comic: Comic, score: int)

  /** What Go answers for `m[v]`: false when the key is missing. */
  predicate Member(m: map<string, bool>, v: string) {
    v in m && m[v]
  }

  lemma SetStep(m: map<string, bool>, arr: seq<string>, i: nat)
    requires i < |arr|
    requires forall v :: Member(m, v) <==> Found(v, arr[..i])
    ensures
      var m' := if arr[i] == "" then m else m[arr[i] := true];
      forall v :: Member(m', v) <==> Found(v, arr[..i + 1])
  {
    var m' := if arr[i] == "" then m else m[arr[i] := true];
    assert arr[..i + 1] == arr[..i] + [arr[i]];
    forall v ensures Member(m', v) <==> Found(v, arr[..i + 1]) {
      assert Member(m, v) <==> Found(v, arr[..i]);
    }
  }

  method MakeSet(arr: seq<string>) returns (m: map<string, bool>)
    ensures forall v :: Member(m, v) <==> Found(v, arr)
  {
    m := map[];
    for i := 0 to |arr|
      invariant forall v :: Member(m, v) <==> Found(v, arr[..i])
    {
      SetStep(m, arr, i);
      if arr[i] == "" {
        continue;
      }
      m := m[arr[i] := true];
    }
    assert arr[..|arr|] == arr;
  }

  lemma CountStep(tokens: seq<string>, i: nat, field: seq<string>)
    requires i < |tokens|
    ensures Count(tokens[..i + 1], field) == Count(tokens[..i], field) + if Found(tokens[i], field) then 1 else 0
  {
    assert tokens[..i + 1][..i] == tokens[..i];
  }

  lemma CoveredStep(tokens: seq<string>, i: nat, c: Comic)
    requires i < |tokens|
    ensures Covered(tokens[..i + 1], c) ==
            Covered(tokens[..i], c) + if Matches(tokens[i], c) then {tokens[i]} else {}
  {
    assert tokens[..i + 1] == tokens[..i] + [tokens[i]];
  }

  method ScoreComic(c: Comic, tokens: seq<string>) returns (score: int)
    ensures score == Score(c, tokens)
  {
    var titleSet := MakeSet(c.title);
    var altSet := MakeSet(c.alt);
    var wordsSet := MakeSet(c.words);
    var titleMatches, altMatches, wordsMatches := 0, 0, 0;
    var covered: set<string> := {};
    for i := 0 to |tokens|
      invariant titleMatches == Count(tokens[..i], c.title)
      invariant altMatches == Count(tokens[..i], c.alt)
      invariant wordsMatches == Count(tokens[..i], c.words)
      invariant covered == Covered(tokens[..i], c)
    {
      var t := tokens[i];
      var matched := false;
      CountStep(tokens, i, c.title);
      if Member(titleSet, t) {
        titleMatches := titleMatches + 1;
        matched := true;
      }
      CountStep(tokens, i, c.alt);
      if Member(altSet, t) {
        altMatches := altMatches + 1;
        matched := true;
      }
      CountStep(tokens, i, c.words);
      if Member(wordsSet, t) {
        wordsMatches := wordsMatches + 1;
        matched := true;
      }
      assert matched == Matches(t, c);
      CoveredStep(tokens, i, c);
      if matched {
        covered := covered + {t};
      }
    }
    assert tokens[..|tokens|] == tokens;
    if |covered| == 0 {
      return 0;
    }
    var coveredTokens := |covered|;
    return coveredTokens * COVERED
           + titleMatches * WEIGHT_TITLE + altMatches * WEIGHT_ALT + wordsMatches * WEIGHT_WORDS;
  }

  predicate Less(a: Scored, b: Scored) {
    if a.score == b.score then a.comic.id < b.comic.id else a.score > b.score
  }

  ghost predicate Sorted(list: seq<Scored>) {
    forall i, j :: 0 <= i < j < |list| ==> !Less(list[j], list[i])
  }

  lemma NotLessTransitive(a: Scored, b: Scored, c: Scored)
    requires !Less(b, a) && !Less(c, b)
    ensures !Less(c, a)
  {
  }

  lemma SortedAround(a: seq<Scored>, sc: Scored, b: seq<Scored>)
    requires Sorted(a + b)
    requires forall i :: 0 <= i < |a| ==> Less(a[i], sc)
    requires forall i :: 0 <= i < |b| ==> !Less(b[i], sc)
    ensures Sorted(a + [sc] + b)
  {
    var r := a + [sc] + b;
    forall i, j | 0 <= i < j < |r| ensures !Less(r[j], r[i]) {
      var i', j' := if i < |a| then i else i - 1, if j < |a| then j else j - 1;
      if i != |a| && j != |a| {
        assert r[i] == (a + b)[i'] && r[j] == (a + b)[j'];
      }
    }
  }

  lemma InsertedAt(list: seq<Scored>, p: nat, sc: Scored)
    requires p <= |list| && Sorted(list)
    requires forall i :: 0 <= i < p ==> Less(list[i], sc)
    requires p == |list| || !Less(list[p], sc)
    ensures multiset(list[..p] + [sc] + list[p..]) == multiset(list) + multiset{sc}
    ensures Sorted(list[..p] + [sc] + list[p..])
  {
    assert list == list[..p] + list[p..];
    forall j | p <= j < |list| ensures !Less(list[j], sc) {
      if p < j {
        NotLessTransitive(sc, list[p], list[j]);
      }
    }
    SortedAround(list[..p], sc, list[p..]);
  }

  method InsertScored(sc: Scored, list: seq<Scored>) returns (r: seq<Scored>)
    requires Sorted(list)
    ensures multiset(r) == multiset(list) + multiset{sc}
    ensures Sorted(r)
  {
    var p := 0;
    while p < |list| && Less(list[p], sc)
      invariant 0 <= p <= |list|
      invariant forall i :: 0 <= i < p ==> Less(list[i], sc)
    {
      p := p + 1;
    }
    InsertedAt(list, p, sc);
    r := list[..p] + [sc] + list[p..];
  }

  /** Stands for `sort.Slice`: callers may rely on the contract alone, so on any correct sort,
      stable or not. */
  method SortSlice(list: seq<Scored>) returns (sorted: seq<Scored>)
    ensures multiset(sorted) == multiset(list)
    ensures Sorted(sorted)
  {
    sorted := [];
    for k := 0 to |list|
      invariant multiset(sorted) == multiset(list[..k])
      invariant Sorted(sorted)
    {
      assert list[..k + 1] == list[..k] + [list[k]];
      sorted := InsertScored(list[k], sorted);
    }
    assert list[..|list|] == list;
  }

  function Comics(list: seq<Scored>): seq<Comic> {
    seq(|list|, i requires 0 <= i < |list| => list[i].comic)
  }

  ghost predicate Scores(list: seq<Scored>, tokens: seq<string>) {
    forall sc :: sc in list ==> sc.score == Score(sc.comic, tokens)
  }

  method ScoreAll(comics: seq<Comic>, tokens: seq<string>) returns (scoredList: seq<Scored>)
    ensures Comics(scoredList) == Hits(comics, tokens)
    ensures Scores(scoredList, tokens)
  {
    scoredList := [];
    for i := 0 to |comics|
      invariant Comics(scoredList) == Hits(comics[..i], tokens)
      invariant Scores(scoredList, tokens)
    {
      assert comics[..i + 1][..i] == comics[..i];
      var score := ScoreComic(comics[i], tokens);
      if score > 0 {
        scoredList := scoredList + [Scored(comics[i], score)];
      }
    }
    assert comics[..|comics|] == comics;
  }

  /** `out` is the cut of what some correct sort makes of the hits. */
  ghost predicate Ranked(out: seq<Comic>, comics: seq<Comic>, tokens: seq<string>, limit: nat) {
    exists list :: Arrangement(list, comics, tokens) && out == Cut(list, limit)
  }

  method Strip(scoredList: seq<Scored>) returns (out: seq<Comic>)
    ensures out == Comics(scoredList)
  {
    out := [];
    for i := 0 to |scoredList|
      invariant out == Comics(scoredList)[..i]
    {
      out := out + [scoredList[i].comic];
    }
  }

  lemma SortedIsOrdered(sorted: seq<Scored>, tokens: seq<string>)
    requires Sorted(sorted) && Scores(sorted, tokens)
    ensures Ordered(Comics(sorted), tokens)
  {
  }

  lemma {:induction false} ComicsCount(list: seq<Scored>, c: Comic, tokens: seq<string>)
    requires Scores(list, tokens)
    ensures multiset(Comics(list))[c] == multiset(list)[Scored(c, Score(c, tokens))]
  {
    if list == [] {
    } else {
      ComicsCount(list[1..], c, tokens);
      assert list == [list[0]] + list[1..];
      assert list[0] in list && (list[0].comic == c <==> list[0] == Scored(c, Score(c, tokens)));
      assert Comics(list) == [list[0].comic] + Comics(list[1..]);
    }
  }

  lemma SortedIsArrangement(unsorted: seq<Scored>, sorted: seq<Scored>, comics: seq<Comic>, tokens: seq<string>)
    requires Comics(unsorted) == Hits(comics, tokens)
    requires Scores(unsorted, tokens)
    requires multiset(sorted) == multiset(unsorted)
    requires Sorted(sorted)
    ensures Arrangement(Comics(sorted), comics, tokens)
    ensures |sorted| == |unsorted|
  {
    assert |multiset(sorted)| == |multiset(unsorted)|;
    assert Scores(sorted, tokens) by {
      forall sc | sc in sorted ensures sc in multiset(unsorted) {
        assert sc in multiset(sorted);
      }
    }
    forall c ensures multiset(Comics(sorted))[c] == multiset(Hits(comics, tokens))[c] {
      ComicsCount(sorted, c, tokens);
      ComicsCount(unsorted, c, tokens);
    }
    SortedIsOrdered(sorted, tokens);
  }

  lemma CutIsOrdered(list: seq<Comic>, tokens: seq<string>, limit: nat)
    requires Ordered(list, tokens)
    ensures
      var out := Cut(list, limit);
      forall i, j :: 0 <= i < j < |out| ==>
        || Score(out[i], tokens) > Score(out[j], tokens)
        || (Score(out[i], tokens) == Score(out[j], tokens) && out[i].id <= out[j].id)
  {
  }

  method RangComics(comics: seq<Comic>, tokens: seq<string>, limit: nat) returns (out: seq<Comic>, total: nat)
    requires limit < U32
    ensures total == |Hits(comics, tokens)| % 0x1_0000_0000
    ensures Ranked(out, comics, tokens, limit)
    ensures forall i, j :: 0 <= i < j < |out| ==>
              || Score(out[i], tokens) > Score(out[j], tokens)
              || (Score(out[i], tokens) == Score(out[j], tokens) && out[i].id <= out[j].id)
  {
    var scoredList := ScoreAll(comics, tokens);
    assert |Comics(scoredList)| == |scoredList|;
    total := |scoredList| % U32;
    ghost var unsorted := scoredList;
    scoredList := SortSlice(scoredList);
    ghost var list := Comics(scoredList);
    SortedIsArrangement(unsorted, scoredList, comics, tokens);
    if |scoredList| % U32 > limit {
      scoredList := scoredList[..limit];
    }
    assert Comics(scoredList) == Cut(list, limit);
    CutIsOrdered(list, tokens, limit);
    out := Strip(scoredList);
  }

  // ----- the order of the hits is a function of the set of comics

  /** No two different comics of the list share both score and id. */
  ghost predicate NoTies(list: seq<Comic>, tokens: seq<string>) {
    forall c, d | c in list && d in list && c.id == d.id :: Score(c, tokens) == Score(d, tokens) ==> c == d
  }

  function Insert(c: Comic, list: seq<Comic>, tokens: seq<string>): seq<Comic> {
    if list == [] || !Before(list[0], c, tokens) then [c] + list
    else [list[0]] + Insert(c, list[1..], tokens)
  }

  function Rank(comics: seq<Comic>, tokens: seq<string>): seq<Comic> {
    if comics == [] then []
    else
      var front, c := Rank(comics[..|comics| - 1], tokens), comics[|comics| - 1];
      if Score(c, tokens) > 0 then Insert(c, front, tokens) else front
  }

  lemma {:induction false} InsertKeepsElements(c: Comic, list: seq<Comic>, tokens: seq<string>)
    ensures multiset(Insert(c, list, tokens)) == multiset(list) + multiset{c}
  {
    if list == [] || !Before(list[0], c, tokens) {
    } else {
      assert list == [list[0]] + list[1..];
      InsertKeepsElements(c, list[1..], tokens);
    }
  }

  lemma {:induction false} InsertKeepsOrder(c: Comic, list: seq<Comic>, tokens: seq<string>)
    requires Ordered(list, tokens)
    ensures Ordered(Insert(c, list, tokens), tokens)
  {
    if list == [] || !Before(list[0], c, tokens) {
    } else {
      var rest := Insert(c, list[1..], tokens);
      InsertKeepsOrder(c, list[1..], tokens);
      InsertKeepsElements(c, list[1..], tokens);
      forall d | d in rest ensures !Before(d, list[0], tokens) {
        assert d in multiset(rest);
      }
    }
  }

  lemma {:induction false} RankIsArrangement(comics: seq<Comic>, tokens: seq<string>)
    ensures Arrangement(Rank(comics, tokens), comics, tokens)
  {
    if comics == [] {
    } else {
      var front, c := comics[..|comics| - 1], comics[|comics| - 1];
      RankIsArrangement(front, tokens);
      if Score(c, tokens) > 0 {
        InsertKeepsOrder(c, Rank(front, tokens), tokens);
        InsertKeepsElements(c, Rank(front, tokens), tokens);
      }
    }
  }

  lemma HeadsAgree(a: seq<Comic>, b: seq<Comic>, tokens: seq<string>)
    requires multiset(a) == multiset(b) && Ordered(a, tokens) && Ordered(b, tokens) && NoTies(a, tokens)
    requires a != [] && b != []
    ensures a[0] == b[0]
  {
    assert a[0] in multiset(b) && b[0] in multiset(a);
    var i :| 0 <= i < |a| && a[i] == b[0];
    var j :| 0 <= j < |b| && b[j] == a[0];
    assert !Before(a[0], b[0], tokens) && !Before(b[0], a[0], tokens);
  }

  lemma DropHead<T>(s: seq<T>)
    requires s != []
    ensures multiset(s[1..]) == multiset(s) - multiset{s[0]}
  {
    assert s == [s[0]] + s[1..];
  }

  lemma {:induction false} OrderedUnique(a: seq<Comic>, b: seq<Comic>, tokens: seq<string>)
    requires multiset(a) == multiset(b) && Ordered(a, tokens) && Ordered(b, tokens) && NoTies(a, tokens)
    ensures a == b
  {
    assert |multiset(a)| == |multiset(b)|;
    if a == [] {
    } else {
      HeadsAgree(a, b, tokens);
      DropHead(a);
      DropHead(b);
      OrderedUnique(a[1..], b[1..], tokens);
      assert a == [a[0]] + a[1..] == b;
    }
  }

  lemma {:induction false} HitsIn(comics: seq<Comic>, tokens: seq<string>)
    ensures forall c :: c in Hits(comics, tokens) <==> c in comics && Score(c, tokens) > 0
  {
    if comics == [] {
    } else {
      HitsIn(comics[..|comics| - 1], tokens);
      assert comics == comics[..|comics| - 1] + [comics[|comics| - 1]];
    }
  }

  lemma SwapTies(a: seq<Comic>, i: nat, j: nat, tokens: seq<string>) returns (b: seq<Comic>)
    requires i < j < |a| && Ordered(a, tokens)
    requires Score(a[i], tokens) == Score(a[j], tokens) && a[i].id == a[j].id
    ensures multiset(b) == multiset(a) && Ordered(b, tokens) && b == a[i := a[j]][j := a[i]]
  {
    b := a[i := a[j]][j := a[i]];
    forall k | 0 <= k < |a|
      ensures Score(b[k], tokens) == Score(a[k], tokens) && b[k].id == a[k].id
    {
    }
  }

  lemma TieShows(rank: seq<Comic>, hits: seq<Comic>, tokens: seq<string>) returns (list: seq<Comic>)
    requires multiset(rank) == multiset(hits) && Ordered(rank, tokens) && !NoTies(hits, tokens)
    ensures multiset(list) == multiset(hits) && Ordered(list, tokens) && list != rank
  {
    var c, d :| c in hits && d in hits && Score(c, tokens) == Score(d, tokens) && c.id == d.id && c != d;
    assert c in multiset(rank) && d in multiset(rank);
    var i :| 0 <= i < |rank| && rank[i] == c;
    var j :| 0 <= j < |rank| && rank[j] == d;
    list := SwapTies(rank, if i < j then i else j, if i < j then j else i, tokens);
    assert list[i] != rank[i];
  }

  /** Sorting the hits has one possible outcome exactly when no two different hits tie on score and
      id; then the outcome is `Rank`. `sort.Slice` being unstable matters in no other case. */
  lemma RankingDeterminedIff(comics: seq<Comic>, tokens: seq<string>)
    ensures NoTies(Hits(comics, tokens), tokens)
            <==> forall list :: Arrangement(list, comics, tokens) ==> list == Rank(comics, tokens)
  {
    var rank := Rank(comics, tokens);
    RankIsArrangement(comics, tokens);
    if NoTies(Hits(comics, tokens), tokens) {
      forall list | Arrangement(list, comics, tokens) ensures list == rank {
        forall c | c in rank ensures c in Hits(comics, tokens) {
          assert c in multiset(rank);
        }
        OrderedUnique(rank, list, tokens);
      }
    } else {
      var list := TieShows(rank, Hits(comics, tokens), tokens);
      assert Arrangement(list, comics, tokens);
    }
  }

  lemma DistinctIdsUntied(comics: seq<Comic>, tokens: seq<string>)
    requires DistinctIds(comics)
    ensures NoTies(Hits(comics, tokens), tokens)
  {
    HitsIn(comics, tokens);
  }

  lemma {:induction false} HitsDistinct(comics: seq<Comic>, tokens: seq<string>)
    requires DistinctIds(comics)
    ensures DistinctIds(Hits(comics, tokens))
  {
    if comics == [] {
    } else {
      var front, c := comics[..|comics| - 1], comics[|comics| - 1];
      HitsDistinct(front, tokens);
      HitsIn(front, tokens);
      forall d | d in Hits(front, tokens) ensures d.id != c.id {
        var i :| 0 <= i < |front| && front[i] == d;
        assert comics[i] == d;
      }
    }
  }

  lemma {:induction false} CountOnce(a: seq<Comic>, c: Comic)
    requires DistinctIds(a)
    ensures multiset(a)[c] == if c in a then 1 else 0
  {
    if a == [] {
    } else {
      assert a == [a[0]] + a[1..];
      CountOnce(a[1..], c);
    }
  }

  lemma SameElementsSameMultiset(a: seq<Comic>, b: seq<Comic>)
    requires DistinctIds(a) && DistinctIds(b)
    requires forall c :: c in a <==> c in b
    ensures multiset(a) == multiset(b)
  {
    forall c ensures multiset(a)[c] == multiset(b)[c] {
      CountOnce(a, c);
      CountOnce(b, c);
    }
  }

  /** Two listings whose positive-score comics are the same, each id once, rank the same way. */
  lemma RankOfSet(a: seq<Comic>, b: seq<Comic>, tokens: seq<string>)
    requires DistinctIds(a) && DistinctIds(b)
    requires forall c :: Score(c, tokens) > 0 ==> (c in a <==> c in b)
    ensures Rank(a, tokens) == Rank(b, tokens)
    ensures |Hits(a, tokens)| == |Hits(b, tokens)|
  {
    HitsIn(a, tokens);
    HitsIn(b, tokens);
    HitsDistinct(a, tokens);
    HitsDistinct(b, tokens);
    SameElementsSameMultiset(Hits(a, tokens), Hits(b, tokens));
    assert |multiset(Hits(a, tokens))| == |multiset(Hits(b, tokens))|;
    RankIsArrangement(a, tokens);
    assert Arrangement(Rank(a, tokens), b, tokens);
    DistinctIdsUntied(b, tokens);
    RankingDeterminedIff(b, tokens);
  }

  lemma RankLength(comics: seq<Comic>, tokens: seq<string>)
    ensures |Rank(comics, tokens)| == |Hits(comics, tokens)|
  {
    RankIsArrangement(comics, tokens);
    assert |multiset(Rank(comics, tokens))| == |multiset(Hits(comics, tokens))|;
  }

  /** The cut keeps the first min(limit, length) hits unless the length wraps around 32 bits to at
      most `limit`. */
  lemma CutIsPrefixIff(list: seq<Comic>, limit: nat)
    ensures Cut(list, limit) == list[..if |list| < limit then |list| else limit]
            <==> |list| <= limit || |list| % U32 > limit
  {
  }

  /** For the rows of a table this means: unless the table is full and every row is a hit. */
  lemma CutOfTableIff(list: seq<Comic>, limit: nat)
    requires DistinctIds(list) && Int4Ids(list) && limit < U32
    ensures Cut(list, limit) == list[..if |list| < limit then |list| else limit] <==> |list| < U32
  {
    Int4Bound(list);
  }

  lemma {:induction false} AllHit(comics: seq<Comic>, tokens: seq<string>)
    requires forall c :: c in comics ==> Score(c, tokens) > 0
    ensures Hits(comics, tokens) == comics
  {
    if comics == [] {
    } else {
      var front, last := comics[..|comics| - 1], comics[|comics| - 1];
      assert comics == front + [last];
      AllHit(front, tokens);
    }
  }

  /** `n` rows that hold nothing but `t`, with the ids from `lo` on. */
  function Uniform(t: string, lo: int, n: nat): seq<Comic> {
    seq(n, i => Comic(lo + i, "", [], [], [t]))
  }

  lemma UniformHits(t: string, lo: int, n: nat)
    requires t != ""
    ensures Hits(Uniform(t, lo, n), [t]) == Uniform(t, lo, n)
  {
    forall c | c in Uniform(t, lo, n) ensures Score(c, [t]) > 0 {
      assert t in Covered([t], c);
    }
    AllHit(Uniform(t, lo, n), [t]);
  }

  lemma RankedWhole(out: seq<Comic>, comics: seq<Comic>, tokens: seq<string>, limit: nat)
    requires |Hits(comics, tokens)| % U32 == 0 && Ranked(out, comics, tokens, limit)
    ensures |out| == |Hits(comics, tokens)|
  {
    var list :| Arrangement(list, comics, tokens) && out == Cut(list, limit);
    assert |multiset(list)| == |multiset(Hits(comics, tokens))|;
  }

  /** A full table whose rows all hold `t` is answered whole, whatever the limit, with the total 0. */
  lemma FullTableIsNotCut(t: string, limit: nat) returns (rows: seq<Comic>)
    requires t != "" && limit < U32
    ensures DistinctIds(rows) && Int4Ids(rows) && |rows| == U32
    ensures |Hits(rows, [t])| % U32 == 0
    ensures forall out :: Ranked(out, rows, [t], limit) ==> |out| == U32 > limit
  {
    rows := Uniform(t, -0x8000_0000, U32);
    UniformHits(t, -0x8000_0000, U32);
    forall out | Ranked(out, rows, [t], limit) ensures |out| == U32 {
      RankedWhole(out, rows, [t], limit);
    }
  }

  /** Below 2^32 hits a smaller limit always answers a prefix of what a larger one answers. */
  lemma SmallerLimitPrefix(list: seq<Comic>, small: nat, large: nat)
    requires small <= large && |list| < U32
    ensures Cut(list, small) <= Cut(list, large) <= list
  {
  }
}
