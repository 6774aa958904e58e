/** The data every component shares: comics and the table that stores them. */
module Catalog {

  datatype Option<+T> = None | Some(value: T)

  /** A stored comic: its number, image address and the normalised tokens of its three texts. */
  datatype Comic = Comic(id: int, url: string, title: seq<string>, alt: seq<string>, words: seq<string>)

  /** The `comics` table. The primary key makes it a map from id to row. */
  type Table = map<int, Comic>

  const U32 := 0x1_0000_0000

  ghost predicate Keyed(t: Table) {
    forall k :: k in t ==> t[k].id == k
  }

  ghost predicate DistinctIds(rows: seq<Comic>) {
    forall i, j :: 0 <= i < j < |rows| ==> rows[i].id != rows[j].id
  }

  /** `rows` is what a SELECT over `t` without ORDER BY may answer: each row once, in any order. */
  ghost predicate Enumerates(rows: seq<Comic>, t: Table) {
    && DistinctIds(rows)
    && (forall c :: c in rows ==> c.id in t && t[c.id] == c)
    && (forall k :: k in t ==> t[k].id == k && t[k] in rows)
  }

  /** The primary key is a 32-bit signed integer. */
  predicate Int4(id: int) {
    -0x8000_0000 <= id < 0x8000_0000
  }

  ghost predicate Int4Ids(rows: seq<Comic>) {
    forall i :: 0 <= i < |rows| ==> Int4(rows[i].id)
  }

  lemma {:induction false} IdsOfDistinct(rows: seq<Comic>)
    requires DistinctIds(rows)
    ensures |set c | c in rows :: c.id| == |rows|
  {
    if rows == [] {
    } else {
      var front, last := rows[..|rows| - 1], rows[|rows| - 1];
      IdsOfDistinct(front);
      assert rows == front + [last];
      assert (set c | c in rows :: c.id) == (set c | c in front :: c.id) + {last.id};
    }
  }

  function Interval(lo: int, n: nat): (ids: set<int>)
    ensures |ids| == n && forall id :: id in ids <==> lo <= id < lo + n
  {
    if n == 0 then {} else Interval(lo, n - 1) + {lo + n - 1}
  }

  lemma SubsetSize(a: set<int>, b: set<int>)
    requires a <= b
    ensures |a| <= |b|
  {
    assert b == a + (b - a);
  }

  /** So a table has at most 2^32 rows. */
  lemma Int4Bound(rows: seq<Comic>)
    requires DistinctIds(rows) && Int4Ids(rows)
    ensures |rows| <= U32
  {
    var ids := set c | c in rows :: c.id;
    IdsOfDistinct(rows);
    assert ids <= Interval(-0x8000_0000, U32);
    SubsetSize(ids, Interval(-0x8000_0000, U32));
  }

  ghost predicate Increasing(s: seq<int>) {
    forall i, j :: 0 <= i < j < |s| ==> s[i] < s[j]
  }

  ghost predicate NoDuplicates<T>(s: seq<T>) {
    forall i, j :: 0 <= i < j < |s| ==> s[i] != s[j]
  }

  lemma {:induction false} SizeOfDistinct<T(!new)>(s: seq<T>)
    requires NoDuplicates(s)
    ensures |set x | x in s| == |s|
  {
    if s == [] {
    } else {
      var front, x := s[..|s| - 1], s[|s| - 1];
      SizeOfDistinct(front);
      assert s == front + [x];
      assert (set y | y in s) == (set y | y in front) + {x};
    }
  }
}
