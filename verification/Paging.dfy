/** Listing the whole table page by page. */
module Paging {
  import opened Catalog
  import opened Search

  /** OFFSET and LIMIT over the rows in id order. */
  function Slice(rows: seq<Comic>, offset: nat, limit: nat): seq<Comic> {
    if offset >= |rows| then []
    else if offset + limit <= |rows| then rows[offset..offset + limit]
    else rows[offset..]
  }

  /** The offset of a page, in the 32-bit arithmetic of the program. */
  function Offset(page: nat, limit: nat): nat
    requires 0 < page
  {
    ((page - 1) * limit) % U32
  }

  /** The page the program answers when the database holds `rows` in id order. */
  function Page(rows: seq<Comic>, page: nat, limit: nat): seq<Comic>
    requires 0 < page
  {
    Slice(rows, Offset(page, limit), limit)
  }

  /** The page a caller means. */
  function TruePage(rows: seq<Comic>, page: nat, limit: nat): seq<Comic>
    requires 0 < page
  {
    Slice(rows, (page - 1) * limit, limit)
  }

  function Pages(rows: seq<Comic>, n: nat, limit: nat): seq<Comic> {
    if n == 0 then [] else Pages(rows, n - 1, limit) + Page(rows, n, limit)
  }

  /** What the database answers: the row count and a slice of the rows in id order, or errors. */
  datatype Store = Store(count: Option<nat>, getAll: (nat, nat) -> Option<seq<Comic>>)

  ghost predicate Holds(s: Store, rows: seq<Comic>) {
    && s.count == Some(|rows|)
    && forall offset, limit :: s.getAll(offset, limit) == Some(Slice(rows, offset, limit))
  }

  /** Rows number `from` to `from + limit`, counted from 0 and cut at the end of the table. */
  ghost predicate IsWindow(comics: seq<Comic>, rows: seq<Comic>, from: nat, limit: nat) {
    && |comics| == (if from >= |rows| then 0 else if from + limit > |rows| then |rows| - from else limit)
    && forall k :: 0 <= k < |comics| ==> comics[k] == rows[from + k]
  }

  lemma SliceIsWindow(rows: seq<Comic>, offset: nat, limit: nat)
    ensures IsWindow(Slice(rows, offset, limit), rows, offset, limit)
  {
  }

  /** A request for page 0 means page 1 and one for 0 rows means 10. */
  method GetAllComics(s: Store, page: nat, limit: nat)
    returns (err: Option<Refusal>, comics: seq<Comic>, total: nat)
    requires page < U32 && limit < U32
    ensures limit > 100 ==> err == Some(TooLargeLimit)
    ensures limit <= 100 && s.count.None? ==> err == Some(StoreFailed)
    ensures err.Some? ==> comics == [] && total == 0
    ensures limit <= 100 && s.count.Some? ==>
              var pg, lim := if page == 0 then 1 else page, if limit == 0 then 10 else limit;
              var offset := ((pg - 1) * lim) % 0x1_0000_0000;
              if offset >= s.count.value then err == None && comics == [] && total == s.count.value % 0x1_0000_0000
              else match s.getAll(offset, lim)
                case None => err == Some(StoreFailed)
                case Some(rows) => err == None && comics == rows && total == s.count.value % 0x1_0000_0000
    ensures forall rows :: limit <= 100 && Holds(s, rows) ==>
              var pg, lim := if page == 0 then 1 else page, if limit == 0 then 10 else limit;
              && err == None && total == |rows| % 0x1_0000_0000 && comics == Page(rows, pg, lim)
              && IsWindow(comics, rows, ((pg - 1) * lim) % 0x1_0000_0000, lim)
  {
    var pg, lim := page, limit;
    if pg == 0 {
      pg := 1;
    }
    if lim == 0 {
      lim := DEFAULT_LIMIT;
    }
    if lim > MAX_LIMIT {
      return Some(TooLargeLimit), [], 0;
    }
    if s.count.None? {
      return Some(StoreFailed), [], 0;
    }
    var offset := ((pg - 1) * lim) % U32;
    forall rows | Holds(s, rows)
      ensures s.getAll(offset, lim) == Some(Page(rows, pg, lim)) && IsWindow(Page(rows, pg, lim), rows, offset, lim)
    {
      SliceIsWindow(rows, offset, lim);
    }
    if offset >= s.count.value {
      return None, [], s.count.value % U32;
    }
    var answer := s.getAll(offset, lim);
    if answer.None? {
      return Some(StoreFailed), [], 0;
    }
    return None, answer.value, s.count.value % U32;
  }

  function Min(a: nat, b: nat): nat {
    if a <= b then a else b
  }

  lemma SliceExtends(rows: seq<Comic>, offset: nat, limit: nat)
    ensures rows[..Min(offset, |rows|)] + Slice(rows, offset, limit) == rows[..Min(offset + limit, |rows|)]
  {
  }

  lemma NextMultiple(n: nat, limit: nat)
    requires 0 < n
    ensures n * limit == (n - 1) * limit + limit
    ensures (n - 1) * limit >= 0
  {
  }

  lemma MultiplesMonotone(m: nat, n: nat, limit: nat)
    requires m <= n
    ensures m * limit <= n * limit
  {
  }

  lemma CeilingOf(total: nat, limit: nat, n: nat)
    requires 0 < limit && n == (total + limit - 1) / limit
    ensures total <= n * limit < total + limit
  {
    var r := (total + limit - 1) % limit;
    assert total + limit - 1 == limit * n + r;
    assert limit * n == n * limit;
  }

  lemma {:induction false} PagesCover(rows: seq<Comic>, n: nat, limit: nat)
    requires 0 < limit && (n == 0 || (n - 1) * limit < U32)
    ensures Pages(rows, n, limit) == rows[..Min(n * limit, |rows|)]
  {
    if n == 0 {
    } else {
      NextMultiple(n, limit);
      if n > 1 {
        NextMultiple(n - 1, limit);
      }
      PagesCover(rows, n - 1, limit);
      var offset := (n - 1) * limit;
      assert Offset(n, limit) == offset;
      SliceExtends(rows, offset, limit);
    }
  }

  lemma PagesUpTo(rows: seq<Comic>, limit: nat, n: nat)
    requires 0 < limit && |rows| <= U32 && |rows| <= n * limit < |rows| + limit
    ensures Pages(rows, n, limit) == rows
  {
    if n > 0 {
      NextMultiple(n, limit);
    }
    PagesCover(rows, n, limit);
    assert rows[..|rows|] == rows;
  }

  lemma PageBeyond(rows: seq<Comic>, limit: nat, n: nat, page: nat)
    requires |rows| <= n * limit && n < page && (page - 1) * limit < U32
    ensures Page(rows, page, limit) == []
  {
    MultiplesMonotone(n, page - 1, limit);
  }

  /** `rows` is what the database lists for the table with ORDER BY id. */
  ghost predicate InIdOrder(rows: seq<Comic>, t: Table) {
    && Enumerates(rows, t)
    && forall i, j :: 0 <= i < j < |rows| ==> rows[i].id < rows[j].id
  }

  lemma LastById(a: seq<Comic>, b: seq<Comic>, t: Table)
    requires InIdOrder(a, t) && InIdOrder(b, t) && a != [] && b != []
    ensures a[|a| - 1] == b[|b| - 1]
  {
    var c, d := a[|a| - 1], b[|b| - 1];
    assert c in a && d in b;
    assert t[c.id] in b && t[d.id] in a;
  }

  lemma DropLast(rows: seq<Comic>, t: Table)
    requires InIdOrder(rows, t) && rows != []
    ensures InIdOrder(rows[..|rows| - 1], t - {rows[|rows| - 1].id})
  {
    var n := |rows| - 1;
    var front, rest := rows[..n], t - {rows[n].id};
    forall k | k in rest ensures rest[k] in front {
      assert t[k] in rows;
      var i :| 0 <= i < |rows| && rows[i] == t[k];
      assert front[i] == t[k];
    }
    forall c | c in front ensures c.id in rest && rest[c.id] == c {
      assert c in rows;
    }
  }

  lemma RowCount(rows: seq<Comic>, t: Table)
    requires Enumerates(rows, t)
    ensures |rows| == |t|
  {
    IdsOfDistinct(rows);
    var ids := set c | c in rows :: c.id;
    forall k | k in t.Keys ensures k in ids {
      assert t[k] in rows;
    }
    assert ids == t.Keys;
  }

  /** There is only one such listing. */
  lemma {:induction false} InIdOrderUnique(a: seq<Comic>, b: seq<Comic>, t: Table)
    requires InIdOrder(a, t) && InIdOrder(b, t)
    ensures a == b
    decreases |a|
  {
    RowCount(a, t);
    RowCount(b, t);
    if a == [] {
    } else {
      var n := |a| - 1;
      var last := a[n];
      assert last in a;
      assert t[last.id] in b;
      LastById(a, b, t);
      var rest := t - {last.id};
      DropLast(a, t);
      DropLast(b, t);
      InIdOrderUnique(a[..n], b[..|b| - 1], rest);
      assert a == a[..n] + [last] == b;
    }
  }

  /** Pages 1 to ceil(total / limit) put end to end list the whole table in id order, each row once; the
      following pages are empty as long as their offset fits into 32 bits. */
  lemma PagesTile(rows: seq<Comic>, t: Table, limit: nat)
    requires InIdOrder(rows, t) && Int4Ids(rows) && 0 < limit <= MAX_LIMIT
    ensures
      var n := (|t| + limit - 1) / limit;
      && InIdOrder(Pages(rows, n, limit), t)
      && forall page | n < page && (page - 1) * limit < U32 :: Page(rows, page, limit) == []
  {
    Int4Bound(rows);
    RowCount(rows, t);
    var n := (|rows| + limit - 1) / limit;
    CeilingOf(|rows|, limit, n);
    PagesUpTo(rows, limit, n);
    forall page | n < page && (page - 1) * limit < U32 ensures Page(rows, page, limit) == [] {
      PageBeyond(rows, limit, n, page);
    }
  }

  lemma SliceDiffersIff(rows: seq<Comic>, offset: nat, limit: nat)
    requires 0 < limit && |rows| <= U32
    ensures Slice(rows, offset % U32, limit) == Slice(rows, offset, limit)
            <==> offset < U32 || offset % U32 >= |rows|
  {
    if offset >= U32 && offset % U32 < |rows| {
      assert |Slice(rows, offset % U32, limit)| > 0;
    }
  }

  /** The program answers the page the caller means exactly when the offset fits into 32 bits or
      what is left of it after wrapping around still lies past the end. */
  lemma PageIsTrueIff(rows: seq<Comic>, page: nat, limit: nat)
    requires 0 < page && 0 < limit && |rows| <= U32
    ensures Page(rows, page, limit) == TruePage(rows, page, limit)
            <==> (page - 1) * limit < U32 || ((page - 1) * limit) % U32 >= |rows|
  {
    SliceDiffersIff(rows, (page - 1) * limit, limit);
  }

  /** With 64 rows a page, page 2^26 + 1 shows the first page again. */
  lemma WrapShowsFirstPage(rows: seq<Comic>)
    requires 0 < |rows| <= U32
    ensures Page(rows, 0x400_0001, 64) == Page(rows, 1, 64) != [] == TruePage(rows, 0x400_0001, 64)
  {
    assert Offset(0x400_0001, 64) == 0 == Offset(1, 64);
  }
}
