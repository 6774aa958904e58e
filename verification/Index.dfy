/** The in-memory inverted index: from a token to the ids of the comics that hold it. */
module Index {
  import opened Catalog
  import opened Ranking

  // ----- what an index built from a list of comics holds

  function Tokens(c: Comic): set<string> {
    set t | t in c.title + c.alt + c.words && t != ""
  }

  /** The ids listed under a token, in the order of the list. */
  function Posting(comics: seq<Comic>, tok: string): seq<int> {
    if comics == [] then []
    else Posting(comics[..|comics| - 1], tok)
         + if tok in Tokens(comics[|comics| - 1]) then [comics[|comics| - 1].id] else []
  }

  /** The comics by id; the last one with an id wins. */
  function DocsOf(comics: seq<Comic>): Table {
    if comics == [] then map[]
    else DocsOf(comics[..|comics| - 1])[comics[|comics| - 1].id := comics[|comics| - 1]]
  }

  /** The ids under which some comic of the list matches the query. */
  function MatchedIds(comics: seq<Comic>, tokens: seq<string>): set<int> {
    set c | c in comics && Covered(tokens, c) != {} :: c.id
  }

  /** What Go answers for `m[tok]`: the nil slice when the key is missing. */
  function Lookup(m: map<string, seq<int>>, tok: string): seq<int> {
    if tok in m then m[tok] else []
  }

  ghost predicate Posts(m: map<string, seq<int>>, comics: seq<Comic>) {
    forall tok :: Lookup(m, tok) == Posting(comics, tok)
  }

  function Present(docs: Table, ids: seq<int>): seq<Comic> {
    if ids == [] then []
    else
      var id := ids[|ids| - 1];
      Present(docs, ids[..|ids| - 1]) + if id in docs then [docs[id]] else []
  }

  // ----- posting lists are exact and conserved

  lemma MatchesIffToken(t: string, c: Comic)
    ensures Matches(t, c) <==> t in Tokens(c)
  {
  }

  lemma {:induction false} PostingIds(comics: seq<Comic>, tok: string)
    ensures forall id :: id in Posting(comics, tok) <==> exists c :: c in comics && c.id == id && tok in Tokens(c)
  {
    if comics == [] {
    } else {
      var front, last := comics[..|comics| - 1], comics[|comics| - 1];
      PostingIds(front, tok);
      assert comics == front + [last];
      forall id ensures id in Posting(comics, tok) <==> exists c :: c in comics && c.id == id && tok in Tokens(c) {
        if id in Posting(comics, tok) {
          if id in Posting(front, tok) {
            var c :| c in front && c.id == id && tok in Tokens(c);
            assert c in comics;
          } else {
            assert last in comics;
          }
        }
      }
    }
  }

  lemma MatchedByPosting(comics: seq<Comic>, tokens: seq<string>)
    ensures forall id :: id in MatchedIds(comics, tokens)
                         <==> exists j :: 0 <= j < |tokens| && id in Posting(comics, tokens[j])
  {
    forall id ensures id in MatchedIds(comics, tokens)
                      <==> exists j :: 0 <= j < |tokens| && id in Posting(comics, tokens[j])
    {
      if id in MatchedIds(comics, tokens) {
        var c :| c in comics && Covered(tokens, c) != {} && c.id == id;
        var t :| t in Covered(tokens, c);
        MatchesIffToken(t, c);
        var j :| 0 <= j < |tokens| && tokens[j] == t;
        PostingIds(comics, tokens[j]);
      }
      if j :| 0 <= j < |tokens| && id in Posting(comics, tokens[j]) {
        PostingIds(comics, tokens[j]);
        var c :| c in comics && c.id == id && tokens[j] in Tokens(c);
        MatchesIffToken(tokens[j], c);
        assert tokens[j] in Covered(tokens, c);
      }
    }
  }

  /** With distinct ids an id stands under a token once if its comic holds the token, else not at all. */
  lemma {:induction false} PostingExact(comics: seq<Comic>, tok: string, c: Comic)
    requires DistinctIds(comics) && c in comics
    ensures multiset(Posting(comics, tok))[c.id] == if Matches(tok, c) then 1 else 0
  {
    var front, last := comics[..|comics| - 1], comics[|comics| - 1];
    MatchesIffToken(tok, c);
    if c == last {
      PostingIds(front, tok);
      assert c.id !in Posting(front, tok);
    } else {
      assert c in front;
      PostingExact(front, tok, c);
      assert c.id != last.id;
    }
  }

  ghost function Pick(keys: set<string>): (k: string)
    requires keys != {}
    ensures k in keys
  {
    var k :| k in keys;
    k
  }

  ghost function PostingTotal(keys: set<string>, m: map<string, seq<int>>): nat {
    if keys == {} then 0 else |Lookup(m, Pick(keys))| + PostingTotal(keys - {Pick(keys)}, m)
  }

  ghost function ListTotal(keys: set<string>, comics: seq<Comic>): nat {
    if keys == {} then 0 else |Posting(comics, Pick(keys))| + ListTotal(keys - {Pick(keys)}, comics)
  }

  function TokenTotal(comics: seq<Comic>): nat {
    if comics == [] then 0 else TokenTotal(comics[..|comics| - 1]) + |Tokens(comics[|comics| - 1])|
  }

  lemma MeetSize(keys: set<string>, k: string, other: set<string>)
    requires k in keys
    ensures |keys * other| == |(keys - {k}) * other| + if k in other then 1 else 0
  {
    assert keys * other == (keys - {k}) * other + if k in other then {k} else {};
  }

  lemma {:induction false} ListTotalStep(keys: set<string>, comics: seq<Comic>)
    requires comics != []
    ensures ListTotal(keys, comics) ==
            ListTotal(keys, comics[..|comics| - 1]) + |keys * Tokens(comics[|comics| - 1])|
  {
    if keys == {} {
      assert keys * Tokens(comics[|comics| - 1]) == {};
    } else {
      var k := Pick(keys);
      ListTotalStep(keys - {k}, comics);
      MeetSize(keys, k, Tokens(comics[|comics| - 1]));
    }
  }

  lemma {:induction false} ListTotalOfNothing(keys: set<string>)
    ensures ListTotal(keys, []) == 0
  {
    if keys == {} {
    } else {
      var k := Pick(keys);
      ListTotalOfNothing(keys - {k});
    }
  }

  lemma {:induction false} ListTotalIsTokenTotal(keys: set<string>, comics: seq<Comic>)
    requires forall c :: c in comics ==> Tokens(c) <= keys
    ensures ListTotal(keys, comics) == TokenTotal(comics)
  {
    if comics == [] {
      ListTotalOfNothing(keys);
    } else {
      var front, last := comics[..|comics| - 1], comics[|comics| - 1];
      assert forall c :: c in front ==> c in comics;
      ListTotalIsTokenTotal(keys, front);
      ListTotalStep(keys, comics);
      assert keys * Tokens(last) == Tokens(last);
    }
  }

  lemma {:induction false} TotalsAgree(keys: set<string>, m: map<string, seq<int>>, comics: seq<Comic>)
    requires Posts(m, comics)
    ensures PostingTotal(keys, m) == ListTotal(keys, comics)
  {
    if keys == {} {
    } else {
      var k := Pick(keys);
      TotalsAgree(keys - {k}, m, comics);
    }
  }

  /** Nothing is posted twice or lost: all posting lists together are as long as the comics have
      distinct non-empty tokens. */
  lemma PostingsConserved(m: map<string, seq<int>>, comics: seq<Comic>)
    requires Posts(m, comics)
    ensures PostingTotal(m.Keys, m) == TokenTotal(comics)
  {
    forall c, t | c in comics && t in Tokens(c) ensures t in m.Keys {
      PostingIds(comics, t);
      assert c.id in Posting(comics, t);
      assert Lookup(m, t) == Posting(comics, t);
    }
    TotalsAgree(m.Keys, m, comics);
    ListTotalIsTokenTotal(m.Keys, comics);
  }

  lemma PostingMore(front: seq<Comic>, c: Comic, tok: string)
    ensures Posting(front + [c], tok) == Posting(front, tok) +
            if tok != "" && (tok in c.title || tok in c.alt || tok in c.words) then [c.id] else []
  {
    assert (front + [c])[..|front|] == front;
  }

  lemma PostingOfMore(a: seq<Comic>, front: seq<Comic>, c: Comic, tok: string)
    requires Posting(a + front, tok) == Posting(a, tok) + Posting(front, tok)
    ensures Posting(a + (front + [c]), tok) == Posting(a, tok) + Posting(front + [c], tok)
  {
    var p, q := Posting(a, tok), Posting(front, tok);
    var more := if tok != "" && (tok in c.title || tok in c.alt || tok in c.words) then [c.id] else [];
    assert a + (front + [c]) == a + front + [c];
    assert Posting(a + front + [c], tok) == p + q + more by {
      PostingMore(a + front, c, tok);
    }
    assert Posting(front + [c], tok) == q + more by {
      PostingMore(front, c, tok);
    }
    assert p + q + more == p + (q + more);
  }

  /** A posting list names the comics that hold the token in the order of the list. */
  lemma {:induction false} PostingInOrder(a: seq<Comic>, b: seq<Comic>, tok: string)
    ensures Posting(a + b, tok) == Posting(a, tok) + Posting(b, tok)
  {
    if b == [] {
      assert a + b == a;
    } else {
      var front, last := b[..|b| - 1], b[|b| - 1];
      PostingInOrder(a, front, tok);
      PostingOfMore(a, front, last, tok);
      assert b == front + [last];
    }
  }

  lemma PresentMore(docs: Table, front: seq<int>, id: int)
    ensures Present(docs, front + [id]) == Present(docs, front) + if id in docs then [docs[id]] else []
  {
    assert (front + [id])[..|front|] == front;
  }

  lemma PresentOfMore(docs: Table, a: seq<int>, front: seq<int>, id: int)
    requires Present(docs, a + front) == Present(docs, a) + Present(docs, front)
    ensures Present(docs, a + (front + [id])) == Present(docs, a) + Present(docs, front + [id])
  {
    PresentMore(docs, a + front, id);
    PresentMore(docs, front, id);
    assert a + (front + [id]) == a + front + [id];
  }

  /** Looking up ids keeps their order. */
  lemma {:induction false} PresentInOrder(docs: Table, a: seq<int>, b: seq<int>)
    ensures Present(docs, a + b) == Present(docs, a) + Present(docs, b)
  {
    if b == [] {
      assert a + b == a;
    } else {
      var front, last := b[..|b| - 1], b[|b| - 1];
      PresentInOrder(docs, a, front);
      PresentOfMore(docs, a, front, last);
      assert b == front + [last];
    }
  }

  // ----- the program

  /** `m` is `before` with `id` listed once more under each token of `seen`. */
  ghost predicate Posted(m: map<string, seq<int>>, before: map<string, seq<int>>, seen: set<string>, id: int) {
    forall tok :: Lookup(m, tok) == Lookup(before, tok) + if tok in seen then [id] else []
  }

  lemma PostOne(m: map<string, seq<int>>, before: map<string, seq<int>>, seen: set<string>, tok: string, id: int)
    requires Posted(m, before, seen, id) && tok !in seen
    ensures Posted(m[tok := Lookup(m, tok) + [id]], before, seen + {tok}, id)
  {
    var m' := m[tok := Lookup(m, tok) + [id]];
    forall t ensures Lookup(m', t) == Lookup(before, t) + if t in seen + {tok} then [id] else [] {
      assert Lookup(m, t) == Lookup(before, t) + if t in seen then [id] else [];
    }
  }

  function NonEmpty(field: seq<string>): set<string> {
    set t | t in field && t != ""
  }

  lemma NonEmptyMore(front: seq<string>, tok: string)
    ensures NonEmpty(front + [tok]) == NonEmpty(front) + if tok != "" then {tok} else {}
  {
  }

  /** The loop that posts one field of a comic, skipping "" and the tokens already seen. */
  method AddField(field: seq<string>, id: int, seen0: set<string>, m0: map<string, seq<int>>,
                  ghost before: map<string, seq<int>>)
    returns (seen: set<string>, m: map<string, seq<int>>)
    requires Posted(m0, before, seen0, id)
    ensures seen == seen0 + set t | t in field && t != ""
    ensures Posted(m, before, seen, id)
  {
    seen, m := seen0, m0;
    for i := 0 to |field|
      invariant seen == seen0 + NonEmpty(field[..i])
      invariant Posted(m, before, seen, id)
    {
      var tok := field[i];
      assert field[..i + 1] == field[..i] + [tok];
      NonEmptyMore(field[..i], tok);
      if tok == "" || tok in seen {
        continue;
      }
      PostOne(m, before, seen, tok, id);
      seen := seen + {tok};
      m := m[tok := Lookup(m, tok) + [id]];
    }
    assert field[..|field|] == field;
  }

  lemma PostsStep(m: map<string, seq<int>>, before: map<string, seq<int>>, comics: seq<Comic>, i: nat)
    requires i < |comics| && Posts(before, comics[..i])
    requires Posted(m, before, Tokens(comics[i]), comics[i].id)
    ensures Posts(m, comics[..i + 1])
  {
    assert comics[..i + 1][..i] == comics[..i];
    forall tok ensures Lookup(m, tok) == Posting(comics[..i + 1], tok) {
      assert Lookup(before, tok) == Posting(comics[..i], tok);
    }
  }

  lemma Inhabited(s: set<int>)
    requires s != {}
    ensures exists x :: x in s
  {
    assert (forall x :: x !in s) ==> s == {};
  }

  method InsertId(id: int, list: seq<int>) returns (r: seq<int>)
    requires Increasing(list) && id !in list
    ensures Increasing(r)
    ensures forall x :: x in r <==> x == id || x in list
  {
    var p := 0;
    while p < |list| && list[p] < id
      invariant 0 <= p <= |list|
      invariant forall i :: 0 <= i < p ==> list[i] < id
    {
      p := p + 1;
    }
    assert list == list[..p] + list[p..];
    r := list[..p] + [id] + list[p..];
  }

  /** Go iterates over the set in any order and sorts afterwards. */
  method SortedKeys(found: set<int>) returns (res: seq<int>)
    ensures Increasing(res)
    ensures forall id :: id in res <==> id in found
  {
    res := [];
    var rest := found;
    while rest != {}
      invariant Increasing(res)
      invariant forall id :: id in res <==> id in found && id !in rest
      decreases rest
    {
      Inhabited(rest);
      var id :| id in rest;
      rest := rest - {id};
      res := InsertId(id, res);
    }
  }

  class InvertedIndex {
    var byToken: map<string, seq<int>>
    var docs: Table
    ghost var built: seq<Comic>

    ghost predicate Valid()
      reads this
    {
      docs == DocsOf(built) && Posts(byToken, built)
    }

    constructor ()
      ensures Valid() && built == []
    {
      byToken, docs, built := map[], map[], [];
    }

    method Build(comics: seq<Comic>)
      modifies this
      ensures Valid() && built == comics
    {
      var postings: map<string, seq<int>> := map[];
      var table: Table := map[];
      for i := 0 to |comics|
        invariant table == DocsOf(comics[..i])
        invariant Posts(postings, comics[..i])
      {
        var c := comics[i];
        table := table[c.id := c];
        var seen: set<string> := {};
        ghost var before := postings;
        seen, postings := AddField(c.title, c.id, seen, postings, before);
        seen, postings := AddField(c.alt, c.id, seen, postings, before);
        seen, postings := AddField(c.words, c.id, seen, postings, before);
        assert seen == Tokens(c);
        assert comics[..i + 1][..i] == comics[..i];
        PostsStep(postings, before, comics, i);
      }
      assert comics[..|comics|] == comics;
      byToken, docs, built := postings, table, comics;
    }

    method DocsForTokens(tokens: seq<string>) returns (res: seq<int>)
      requires Valid()
      ensures Increasing(res)
      ensures forall id :: id in res <==> id in MatchedIds(built, tokens)
    {
      var found: set<int> := {};
      for i := 0 to |tokens|
        invariant forall id :: id in found <==> exists j :: 0 <= j < i && id in Posting(built, tokens[j])
      {
        var ids := Lookup(byToken, tokens[i]);
        ghost var before := found;
        for j := 0 to |ids|
          invariant forall id :: id in found <==> id in before || id in ids[..j]
        {
          found := found + {ids[j]};
        }
        assert ids[..|ids|] == ids == Posting(built, tokens[i]);
      }
      MatchedByPosting(built, tokens);
      res := SortedKeys(found);
    }

    method DocsByIDs(ids: seq<int>) returns (out: seq<Comic>)
      requires Valid()
      ensures out == Present(DocsOf(built), ids)
    {
      out := [];
      for i := 0 to |ids|
        invariant out == Present(docs, ids[..i])
      {
        assert ids[..i + 1][..i] == ids[..i];
        if ids[i] in docs {
          out := out + [docs[ids[i]]];
        }
      }
      assert ids[..|ids|] == ids;
    }
  }

  /** Of several comics with one id the index keeps the last. */
  lemma {:induction false} LastWins(comics: seq<Comic>, i: nat)
    requires i < |comics| && forall j :: i < j < |comics| ==> comics[j].id != comics[i].id
    ensures comics[i].id in DocsOf(comics) && DocsOf(comics)[comics[i].id] == comics[i]
  {
    if i == |comics| - 1 {
    } else {
      LastWins(comics[..|comics| - 1], i);
    }
  }
}
