/** The search service: the plain search over the database and the search over the index. */
module Search {
  import opened Catalog
  import opened Ranking
  import opened Index

  const DEFAULT_LIMIT := 10
  const MAX_LIMIT := 100

  datatype Refusal = EmptyPhrase | TooLargeLimit | WordsFailed | NonePhrase | StoreFailed

  /** The services a search calls first: trimming, and the normaliser, which may fail (`None`). */
  datatype Port = Port(trim: string -> string, norm: string -> Option<seq<string>>)

  datatype Plan = Reject(why: Refusal) | Query(tokens: seq<string>, limit: nat)

  /** How both searches read their arguments. */
  function PlanOf(p: Port, phrase: string, limit: nat): (plan: Plan)
    requires limit < U32
    ensures plan == Reject(EmptyPhrase) <==> p.trim(phrase) == ""
    ensures plan == Reject(TooLargeLimit) <==> p.trim(phrase) != "" && limit > 100
    ensures plan == Reject(WordsFailed) <==>
              p.trim(phrase) != "" && limit <= 100 && p.norm(p.trim(phrase)) == None
    ensures plan == Reject(NonePhrase) <==>
              p.trim(phrase) != "" && limit <= 100 && p.norm(p.trim(phrase)) == Some([])
    ensures plan != Reject(StoreFailed)
    ensures plan.Query? ==>
              && p.norm(p.trim(phrase)) == Some(plan.tokens) && plan.tokens != []
              && plan.limit == if limit == 0 then 10 else limit
  {
    if p.trim(phrase) == "" then Reject(EmptyPhrase)
    else if limit > MAX_LIMIT then Reject(TooLargeLimit)
    else match p.norm(p.trim(phrase))
      case None => Reject(WordsFailed)
      case Some(tokens) =>
        if tokens == [] then Reject(NonePhrase) else Query(tokens, if limit == 0 then DEFAULT_LIMIT else limit)
  }

  // ----- ranking a table

  /** Some listing of a table. */
  ghost function Listing(t: Table): (rows: seq<Comic>)
    requires Keyed(t)
    ensures Enumerates(rows, t)
    decreases |t|
  {
    if t.Keys == {} then []
    else
      Inhabited(t.Keys);
      var k :| k in t.Keys;
      var rest := t - {k};
      assert t.Keys == rest.Keys + {k};
      Listing(rest) + [t[k]]
  }

  /** The matching comics of a table, best first. */
  ghost function RankTable(t: Table, tokens: seq<string>): seq<Comic>
    requires Keyed(t)
  {
    Rank(Listing(t), tokens)
  }

  /** Row order is immaterial: every listing of the matching rows ranks like the table. */
  lemma RankRows(rows: seq<Comic>, t: Table, tokens: seq<string>)
    requires Keyed(t) && DistinctIds(rows)
    requires forall c :: Score(c, tokens) > 0 ==> (c in rows <==> c.id in t && t[c.id] == c)
    ensures Rank(rows, tokens) == RankTable(t, tokens)
    ensures |Hits(rows, tokens)| == |RankTable(t, tokens)|
  {
    var listing := Listing(t);
    forall c ensures c in listing <==> c.id in t && t[c.id] == c {
    }
    RankOfSet(rows, listing, tokens);
    RankLength(rows, tokens);
  }

  lemma RankMembers(rows: seq<Comic>, tokens: seq<string>)
    ensures forall c :: c in Rank(rows, tokens) <==> c in rows && Score(c, tokens) > 0
  {
    RankIsArrangement(rows, tokens);
    HitsIn(rows, tokens);
    forall c ensures c in Rank(rows, tokens) <==> c in Hits(rows, tokens) {
      assert c in multiset(Rank(rows, tokens)) <==> c in multiset(Hits(rows, tokens));
    }
  }

  lemma RankedIds(t: Table, rank: seq<Comic>, tokens: seq<string>)
    requires Keyed(t)
    requires forall c :: c in rank <==> c.id in t && t[c.id] == c && Score(c, tokens) > 0
    ensures (set c | c in rank :: c.id) == set k | k in t && Score(t[k], tokens) > 0
  {
    forall k | k in t && Score(t[k], tokens) > 0 ensures k in set c | c in rank :: c.id {
      assert t[k] in rank;
    }
  }

  lemma TwiceCounts(s: seq<Comic>, i: nat, j: nat)
    requires i < j < |s| && s[i] == s[j]
    ensures multiset(s)[s[i]] >= 2
  {
    assert s == s[..j] + s[j..];
    assert s[..j][i] == s[i] && s[j..][0] == s[i];
    assert s[i] in multiset(s[..j]) && s[i] in multiset(s[j..]);
  }

  lemma RankDistinct(rows: seq<Comic>, tokens: seq<string>)
    requires DistinctIds(rows)
    ensures DistinctIds(Rank(rows, tokens))
  {
    var rank := Rank(rows, tokens);
    RankIsArrangement(rows, tokens);
    HitsDistinct(rows, tokens);
    var hits := Hits(rows, tokens);
    forall i, j | 0 <= i < j < |rank| ensures rank[i].id != rank[j].id {
      assert rank[i] in multiset(hits) && rank[j] in multiset(hits);
      CountOnce(hits, rank[i]);
      if rank[i] == rank[j] {
        TwiceCounts(rank, i, j);
        assert false;
      }
    }
  }

  /** `RankTable` lists exactly the comics with a positive score, each once. */
  lemma RankTableExact(t: Table, tokens: seq<string>)
    requires Keyed(t)
    ensures forall c :: c in RankTable(t, tokens) <==> c.id in t && t[c.id] == c && Score(c, tokens) > 0
    ensures |RankTable(t, tokens)| == |set k | k in t && Score(t[k], tokens) > 0|
    ensures Ordered(RankTable(t, tokens), tokens) && DistinctIds(RankTable(t, tokens))
  {
    var rows := Listing(t);
    RankMembers(rows, tokens);
    RankDistinct(rows, tokens);
    RankIsArrangement(rows, tokens);
    IdsOfDistinct(RankTable(t, tokens));
    forall c ensures c in rows <==> c.id in t && t[c.id] == c {
    }
    RankedIds(t, RankTable(t, tokens), tokens);
  }

  lemma StrictlyOrdered(list: seq<Comic>, tokens: seq<string>)
    requires Ordered(list, tokens) && DistinctIds(list)
    ensures forall i, j :: 0 <= i < j < |list| ==>
              || Score(list[i], tokens) > Score(list[j], tokens)
              || (Score(list[i], tokens) == Score(list[j], tokens) && list[i].id < list[j].id)
  {
  }

  /** Higher scores stand first, and of equal scores the lower id. */
  lemma RankTableOrder(t: Table, tokens: seq<string>, i: nat, j: nat)
    requires Keyed(t) && i < j < |RankTable(t, tokens)|
    ensures
      var c, d := RankTable(t, tokens)[i], RankTable(t, tokens)[j];
      Score(c, tokens) > Score(d, tokens) || (Score(c, tokens) == Score(d, tokens) && c.id < d.id)
  {
    RankTableExact(t, tokens);
    StrictlyOrdered(RankTable(t, tokens), tokens);
  }

  lemma RankedDetermined(out: seq<Comic>, comics: seq<Comic>, tokens: seq<string>, limit: nat)
    requires Ranked(out, comics, tokens, limit) && DistinctIds(comics)
    ensures out == Cut(Rank(comics, tokens), limit)
  {
    DistinctIdsUntied(comics, tokens);
    RankingDeterminedIff(comics, tokens);
  }

  lemma HitCount(comics: seq<Comic>, tokens: seq<string>)
    requires DistinctIds(comics)
    ensures |Rank(comics, tokens)| == |set c | c in comics && Score(c, tokens) > 0|
  {
    RankMembers(comics, tokens);
    RankDistinct(comics, tokens);
    SizeOfDistinct(Rank(comics, tokens));
    assert (set c | c in Rank(comics, tokens)) == set c | c in comics && Score(c, tokens) > 0;
  }

  lemma RankOrder(comics: seq<Comic>, tokens: seq<string>)
    requires DistinctIds(comics)
    ensures forall i, j :: 0 <= i < j < |Rank(comics, tokens)| ==>
              Before(Rank(comics, tokens)[i], Rank(comics, tokens)[j], tokens)
  {
    RankDistinct(comics, tokens);
    RankIsArrangement(comics, tokens);
    StrictlyOrdered(Rank(comics, tokens), tokens);
  }

  lemma CutIsBest(rank: seq<Comic>, out: seq<Comic>, comics: seq<Comic>, tokens: seq<string>, limit: nat)
    requires out == Cut(rank, limit)
    requires forall c :: c in rank <==> c in comics && Score(c, tokens) > 0
    requires forall i, j :: 0 <= i < j < |rank| ==> Before(rank[i], rank[j], tokens)
    ensures forall c :: c in out ==> c in comics && Score(c, tokens) > 0
    ensures forall i, j :: 0 <= i < j < |out| ==> Before(out[i], out[j], tokens)
    ensures forall i, c | 0 <= i < |out| && c in comics && Score(c, tokens) > 0 && c !in out
              :: Before(out[i], c, tokens)
  {
    assert forall k :: 0 <= k < |out| ==> out[k] == rank[k];
    forall i, c | 0 <= i < |out| && c in rank && c !in out ensures Before(out[i], c, tokens) {
      var j :| 0 <= j < |rank| && rank[j] == c;
      assert Before(rank[i], rank[j], tokens);
    }
  }

  lemma RankedSize(out: seq<Comic>, comics: seq<Comic>, tokens: seq<string>, limit: nat)
    requires Ranked(out, comics, tokens, limit) && DistinctIds(comics)
    ensures
      var n := |set c | c in comics && Score(c, tokens) > 0|;
      |out| == if n % 0x1_0000_0000 > limit then limit else n
  {
    RankedDetermined(out, comics, tokens, limit);
    HitCount(comics, tokens);
  }

  /** What ranking answers for comics with distinct ids: the best `limit` of those that score, best first,
      or all of them if the low 32 bits of their number do not exceed the limit. A comic is better
      than another if it scores higher, or the same with a lower id. */
  lemma RankedExact(out: seq<Comic>, comics: seq<Comic>, tokens: seq<string>, limit: nat)
    requires Ranked(out, comics, tokens, limit)
    requires forall i, j :: 0 <= i < j < |comics| ==> comics[i].id != comics[j].id
    ensures
      var n := |set c | c in comics && Score(c, tokens) > 0|;
      |out| == if n % 0x1_0000_0000 > limit then limit else n
    ensures forall c :: c in out ==> c in comics && Score(c, tokens) > 0
    ensures forall i, j :: 0 <= i < j < |out| ==>
              || Score(out[i], tokens) > Score(out[j], tokens)
              || (Score(out[i], tokens) == Score(out[j], tokens) && out[i].id < out[j].id)
    ensures forall i, c | 0 <= i < |out| && c in comics && Score(c, tokens) > 0 && c !in out
              :: || Score(out[i], tokens) > Score(c, tokens)
                 || (Score(out[i], tokens) == Score(c, tokens) && out[i].id < c.id)
  {
    RankedSize(out, comics, tokens, limit);
    RankedDetermined(out, comics, tokens, limit);
    RankMembers(comics, tokens);
    RankOrder(comics, tokens);
    CutIsBest(Rank(comics, tokens), out, comics, tokens, limit);
  }

  // ----- what the two searches see

  predicate Overlaps(c: Comic, tokens: seq<string>) {
    exists t :: t in tokens && (t in c.title || t in c.alt || t in c.words)
  }

  /** The SQL filter. Unlike the ranker it also counts the empty token. */
  ghost function SqlFind(t: Table, tokens: seq<string>): Table {
    map k | k in t && Overlaps(t[k], tokens) :: t[k]
  }

  lemma {:induction false} DocsKeyed(comics: seq<Comic>)
    ensures Keyed(DocsOf(comics))
    ensures forall k :: k in DocsOf(comics) ==> DocsOf(comics)[k] in comics
    ensures forall c :: c in comics ==> c.id in DocsOf(comics)
    ensures DistinctIds(comics) ==> Enumerates(comics, DocsOf(comics))
  {
    if comics == [] {
    } else {
      var front, last := comics[..|comics| - 1], comics[|comics| - 1];
      DocsKeyed(front);
      assert comics == front + [last];
    }
  }

  /** What an indexed search ranks when it looks ids up in an index built from `early` and reads the
      comics from one built from `late`. */
  ghost function Torn(early: seq<Comic>, late: seq<Comic>, tokens: seq<string>): (t: Table)
    ensures Keyed(t)
  {
    DocsKeyed(late);
    map id | id in DocsOf(late) && id in MatchedIds(early, tokens) :: DocsOf(late)[id]
  }

  // ----- the program

  lemma NothingMatched(early: seq<Comic>, tokens: seq<string>, ids: seq<int>)
    requires ids == [] && forall id :: id in ids <==> id in MatchedIds(early, tokens)
    ensures RankTable(Torn(early, early, tokens), tokens) == []
  {
    var t := Torn(early, early, tokens);
    assert t == map[];
    assert Listing(t) == [];
  }

  lemma {:induction false} PresentExact(docs: Table, ids: seq<int>)
    requires Keyed(docs) && Increasing(ids)
    ensures DistinctIds(Present(docs, ids))
    ensures forall c :: c in Present(docs, ids) <==> c.id in ids && c.id in docs && docs[c.id] == c
  {
    if ids == [] {
    } else {
      var front, id := ids[..|ids| - 1], ids[|ids| - 1];
      PresentExact(docs, front);
      assert ids == front + [id];
    }
  }

  lemma CandidatesRankTorn(early: seq<Comic>, late: seq<Comic>, tokens: seq<string>, ids: seq<int>,
                           out: seq<Comic>, limit: nat)
    requires Increasing(ids) && forall id :: id in ids <==> id in MatchedIds(early, tokens)
    requires Ranked(out, Present(DocsOf(late), ids), tokens, limit)
    ensures out == Cut(RankTable(Torn(early, late, tokens), tokens), limit)
    ensures |Hits(Present(DocsOf(late), ids), tokens)| == |RankTable(Torn(early, late, tokens), tokens)|
  {
    DocsKeyed(late);
    PresentExact(DocsOf(late), ids);
    var candidates := Present(DocsOf(late), ids);
    RankedDetermined(out, candidates, tokens, limit);
    RankRows(candidates, Torn(early, late, tokens), tokens);
  }

  class Service {
    const index: InvertedIndex

    ghost predicate Valid()
      reads this, index
    {
      index.Valid()
    }

    constructor ()
      ensures Valid() && index.built == [] && fresh(index)
    {
      index := new InvertedIndex();
    }

    /** `read` is what the database answers to the SELECT, `None` for an error. */
    method RebuildIndex(read: Option<seq<Comic>>) returns (ok: bool)
      requires Valid()
      modifies index
      ensures Valid() && (ok <==> read.Some?)
      ensures index.built == if read.Some? then read.value else old(index.built)
      ensures read.None? ==> index.docs == old(index.docs) && index.byToken == old(index.byToken)
    {
      match read
      case None => return false;
      case Some(comics) =>
        index.Build(comics);
        return true;
    }

    /** `find` is what the database answers to the filter query, `None` for an error. */
    method Find(p: Port, phrase: string, limit: nat, find: seq<string> -> Option<seq<Comic>>)
      returns (err: Option<Refusal>, comics: seq<Comic>)
      requires limit < U32
      ensures
        match PlanOf(p, phrase, limit)
        case Reject(why) => err == Some(why) && comics == []
        case Query(tokens, lim) =>
          match find(tokens)
          case None => err == Some(StoreFailed) && comics == []
          case Some(rows) => err == None && Ranked(comics, rows, tokens, lim)
    {
      var trimmed := p.trim(phrase);
      if trimmed == "" {
        return Some(EmptyPhrase), [];
      }
      var lim := limit;
      if lim == 0 {
        lim := DEFAULT_LIMIT;
      }
      if lim > MAX_LIMIT {
        return Some(TooLargeLimit), [];
      }
      var normed := p.norm(trimmed);
      if normed.None? {
        return Some(WordsFailed), [];
      }
      var tokens := normed.value;
      if |tokens| == 0 {
        return Some(NonePhrase), [];
      }
      var found := find(tokens);
      if found.None? {
        return Some(StoreFailed), [];
      }
      var total;
      comics, total := RangComics(found.value, tokens, lim);
      return None, comics;
    }

    /** The two calls on the index are its two read-locked sections. Between them the lock is free:
        `rebuilds` are the lists whose builds are installed in that gap, in order. */
    method IndexedSearch(p: Port, phrase: string, limit: nat, rebuilds: seq<seq<Comic>>)
      returns (err: Option<Refusal>, comics: seq<Comic>, total: nat)
      requires Valid() && limit < U32
      modifies index
      ensures Valid()
      ensures
        match PlanOf(p, phrase, limit)
        case Reject(why) => err == Some(why) && comics == [] && total == 0 && index.built == old(index.built)
        case Query(tokens, lim) =>
          && index.built == (if rebuilds == [] || MatchedIds(old(index.built), tokens) == {} then old(index.built)
                             else rebuilds[|rebuilds| - 1])
          && var ranking := RankTable(Torn(old(index.built), index.built, tokens), tokens);
          err == None && comics == Cut(ranking, lim) && total == |ranking| % U32
    {
      var trimmed := p.trim(phrase);
      if trimmed == "" {
        return Some(EmptyPhrase), [], 0;
      }
      var lim := limit;
      if lim == 0 {
        lim := DEFAULT_LIMIT;
      }
      if lim > MAX_LIMIT {
        return Some(TooLargeLimit), [], 0;
      }
      var normed := p.norm(trimmed);
      if normed.None? {
        return Some(WordsFailed), [], 0;
      }
      var tokens := normed.value;
      if |tokens| == 0 {
        return Some(NonePhrase), [], 0;
      }
      ghost var early := index.built;
      var ids := index.DocsForTokens(tokens);
      if |ids| == 0 {
        NothingMatched(early, tokens, ids);
        assert MatchedIds(early, tokens) == {};
        return None, [], 0;
      }
      assert ids[0] in ids;
      Interfere(rebuilds);
      var candidates := index.DocsByIDs(ids);
      comics, total := RangComics(candidates, tokens, lim);
      CandidatesRankTorn(early, index.built, tokens, ids, comics, lim);
      return None, comics, total;
    }

    method Interfere(rebuilds: seq<seq<Comic>>)
      requires Valid()
      modifies index
      ensures Valid()
      ensures index.built == if rebuilds == [] then old(index.built) else rebuilds[|rebuilds| - 1]
    {
      for i := 0 to |rebuilds|
        invariant Valid()
        invariant index.built == if i == 0 then old(index.built) else rebuilds[i - 1]
      {
        index.Build(rebuilds[i]);
      }
    }
  }

  // ----- the theorems

  /** A positive score needs a non-empty query token in the comic. */
  lemma ScorePositiveIff(c: Comic, tokens: seq<string>)
    ensures Score(c, tokens) > 0 <==> Covered(tokens, c) != {}
  {
  }

  lemma ListGivesTable(list: seq<Comic>, t: Table)
    requires Enumerates(list, t)
    ensures DocsOf(list) == t
  {
    DocsKeyed(list);
    forall k | k in t ensures k in DocsOf(list) && DocsOf(list)[k] == t[k] {
      assert t[k] in list;
    }
    forall k | k in DocsOf(list) ensures k in t {
      assert DocsOf(list)[k] in list;
    }
  }

  /** Without a rebuild in between, an indexed search ranks the map in which the last comic with each
      id wins, even if the list repeats ids: what is still posted under a replaced comic's tokens
      scores 0 and drops out. */
  lemma UntornRanksDocs(list: seq<Comic>, tokens: seq<string>)
    ensures Keyed(DocsOf(list))
    ensures RankTable(Torn(list, list, tokens), tokens) == RankTable(DocsOf(list), tokens)
  {
    DocsKeyed(list);
    var docs := DocsOf(list);
    var rows := Listing(docs);
    var torn := Torn(list, list, tokens);
    forall c | Score(c, tokens) > 0 ensures c in rows <==> c.id in torn && torn[c.id] == c {
      if c.id in docs && docs[c.id] == c {
        assert c in list;
        assert c in rows;
      }
    }
    RankRows(rows, torn, tokens);
  }

  /** The two searches rank the same comics. For every table, every order in which the database
      lists it to the rebuild (`list`) and to the query (`rows`), and every query, the indexed
      search answers what the plain search answers, and counts every matching comic. */
  lemma IndexedRefinesFind(t: Table, list: seq<Comic>, rows: seq<Comic>, tokens: seq<string>, limit: nat)
    requires Enumerates(list, t) && Enumerates(rows, SqlFind(t, tokens))
    ensures Cut(RankTable(Torn(list, list, tokens), tokens), limit) == Cut(Rank(rows, tokens), limit)
    ensures forall out :: Ranked(out, rows, tokens, limit)
                          ==> out == Cut(RankTable(Torn(list, list, tokens), tokens), limit)
    ensures |RankTable(Torn(list, list, tokens), tokens)| == |set k | k in t && Score(t[k], tokens) > 0|
  {
    UntornRanksDocs(list, tokens);
    ListGivesTable(list, t);
    forall c | Score(c, tokens) > 0 ensures c in rows <==> c.id in t && t[c.id] == c {
      var tok :| tok in Covered(tokens, c);
      assert Overlaps(c, tokens);
      if c.id in t && t[c.id] == c {
        assert c.id in SqlFind(t, tokens) && SqlFind(t, tokens)[c.id] == c;
      }
    }
    RankRows(rows, t, tokens);
    RankTableExact(t, tokens);
    forall out | Ranked(out, rows, tokens, limit) ensures out == Cut(Rank(rows, tokens), limit) {
      RankedDetermined(out, rows, tokens, limit);
    }
  }

  /** The last comic of the list that has its id. */
  ghost predicate Newest(list: seq<Comic>, c: Comic) {
    exists i :: 0 <= i < |list| && list[i] == c && forall j :: i < j < |list| ==> list[j].id != c.id
  }

  lemma NewestOfMore(front: seq<Comic>, last: Comic, c: Comic)
    ensures Newest(front + [last], c) <==> if c.id == last.id then c == last else Newest(front, c)
  {
    var list := front + [last];
    if c == last {
      assert list[|front|] == c;
    }
    if i :| 0 <= i < |front| && front[i] == c && forall j :: i < j < |front| ==> front[j].id != c.id {
      assert list[i] == c;
    }
    if i :| 0 <= i < |list| && list[i] == c && forall j :: i < j < |list| ==> list[j].id != c.id {
      assert list[|front|] == last;
      assert i < |front| ==> front[i] == c && forall j :: i < j < |front| ==> front[j] == list[j];
    }
  }

  lemma {:induction false} NewestIsDoc(list: seq<Comic>, c: Comic)
    ensures Newest(list, c) <==> c.id in DocsOf(list) && DocsOf(list)[c.id] == c
  {
    if list == [] {
    } else {
      var front, last := list[..|list| - 1], list[|list| - 1];
      NewestIsDoc(front, c);
      NewestOfMore(front, last, c);
      assert list == front + [last];
    }
  }

  /** A search torn by rebuilds answers exactly the comics of the later index that match the query
      and whose id some matching comic had in the earlier index, in rank order. */
  lemma TornExact(early: seq<Comic>, late: seq<Comic>, tokens: seq<string>)
    ensures
      var ranking := RankTable(Torn(early, late, tokens), tokens);
      && (forall c :: c in ranking <==>
            && Newest(late, c) && Score(c, tokens) > 0
            && (exists b :: b in early && b.id == c.id && Score(b, tokens) > 0))
      && (forall i, j :: 0 <= i < j < |ranking| ==>
            || Score(ranking[i], tokens) > Score(ranking[j], tokens)
            || (Score(ranking[i], tokens) == Score(ranking[j], tokens) && ranking[i].id < ranking[j].id))
  {
    forall c ensures Newest(late, c) <==> c.id in DocsOf(late) && DocsOf(late)[c.id] == c {
      NewestIsDoc(late, c);
    }
    var torn := Torn(early, late, tokens);
    RankTableExact(torn, tokens);
    StrictlyOrdered(RankTable(torn, tokens), tokens);
    forall id ensures id in MatchedIds(early, tokens)
                      <==> exists b :: b in early && b.id == id && Score(b, tokens) > 0 {
      if id in MatchedIds(early, tokens) {
        var b :| b in early && Covered(tokens, b) != {} && b.id == id;
        ScorePositiveIff(b, tokens);
      }
    }
  }
}
