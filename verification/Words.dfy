/** The normaliser: a phrase becomes the ordered, duplicate-free list of its search tokens. */
module Words {
  import opened Catalog

  /** What the program takes from its libraries: per-rune lowering, the stop-word list and the
      stemmer, which may fail (`None`). Nothing is assumed about any of them. */
  datatype Language = Language(lower: char -> char, isStop: string -> bool, stem: string -> Option<string>)

  predicate AlphaNum(c: char) {
    'a' <= c <= 'z' || '0' <= c <= '9'
  }

  /** White space as Unicode defines it, which is what `strings.Fields` splits at. */
  predicate IsSpace(c: char) {
    || '\t' <= c <= '\r' || c == ' ' || c == '\U{85}' || c == '\U{A0}' || c == '\U{1680}'
    || '\U{2000}' <= c <= '\U{200A}' || c == '\U{2028}' || c == '\U{2029}' || c == '\U{202F}'
    || c == '\U{205F}' || c == '\U{3000}'
  }

  predicate NotSpace(c: char) {
    !IsSpace(c)
  }

  predicate AllDigits(w: string) {
    forall i :: 0 <= i < |w| ==> '0' <= w[i] <= '9'
  }

  function Lower(l: Language, phrase: string): string {
    seq(|phrase|, i requires 0 <= i < |phrase| => l.lower(phrase[i]))
  }

  /** Replaces every maximal stretch of characters outside [a-z0-9] by one space. */
  function Clean(s: string, inGap: bool): string {
    if s == "" then ""
    else if AlphaNum(s[0]) then [s[0]] + Clean(s[1..], false)
    else if inGap then Clean(s[1..], true)
    else " " + Clean(s[1..], true)
  }

  function Flush(cur: string): seq<string> {
    if cur == "" then [] else [cur]
  }

  /** Cuts `s` into its stretches of `keep` characters; `cur` is the stretch being read. */
  function Split(s: string, keep: char -> bool, cur: string): seq<string> {
    if s == "" then Flush(cur)
    else if keep(s[0]) then Split(s[1..], keep, cur + [s[0]])
    else Flush(cur) + Split(s[1..], keep, "")
  }

  /** The tokens the program cuts a lowered phrase into. */
  function Fields(lowered: string): seq<string> {
    Split(Clean(lowered, false), NotSpace, "")
  }

  /** The maximal [a-z0-9] runs of a text, left to right. */
  function Runs(s: string): seq<string> {
    Split(s, AlphaNum, "")
  }

  /** What becomes of one run: digits stay, stop words go, the rest is stemmed when that works. */
  function Token(l: Language, w: string): Option<string> {
    if AllDigits(w) then Some(w)
    else if l.isStop(w) then None
    else match l.stem(w)
      case Some(st) => if st == "" then Some(w) else Some(st)
      case None => Some(w)
  }

  function Kept(l: Language, ws: seq<string>): seq<string> {
    if ws == [] then []
    else Kept(l, ws[..|ws| - 1]) + match Token(l, ws[|ws| - 1]) case Some(t) => [t] case None => []
  }

  /** Keeps the first occurrence of every element. */
  function Dedupe<T(==)>(s: seq<T>): seq<T> {
    if s == [] then []
    else
      var front := s[..|s| - 1];
      Dedupe(front) + if s[|s| - 1] in front then [] else [s[|s| - 1]]
  }

  /** The reference meaning of normalisation. */
  function NormOf(l: Language, phrase: string): seq<string> {
    Dedupe(Kept(l, Runs(Lower(l, phrase))))
  }

  // ----- cutting into runs

  lemma {:induction false} SplitOfClean(s: string, inGap: bool, cur: string)
    requires inGap ==> cur == ""
    ensures Split(Clean(s, inGap), NotSpace, cur) == Split(s, AlphaNum, cur)
  {
    if s == "" {
    } else if AlphaNum(s[0]) {
      SplitOfClean(s[1..], false, cur + [s[0]]);
      assert ([s[0]] + Clean(s[1..], false))[1..] == Clean(s[1..], false);
    } else {
      SplitOfClean(s[1..], true, "");
      assert (" " + Clean(s[1..], true))[1..] == Clean(s[1..], true);
    }
  }

  /** Letters a-z, digits and single spaces. */
  ghost predicate Spaced(t: string) {
    && (forall i :: 0 <= i < |t| ==> 'a' <= t[i] <= 'z' || '0' <= t[i] <= '9' || t[i] == ' ')
    && (forall i :: 0 < i < |t| ==> t[i - 1] != ' ' || t[i] != ' ')
  }

  lemma SpacedCons(c: char, t: string)
    requires Spaced(t) && ('a' <= c <= 'z' || '0' <= c <= '9' || (c == ' ' && (t == "" || t[0] != ' ')))
    ensures Spaced([c] + t)
  {
    var ct := [c] + t;
    assert forall i :: 0 < i < |ct| ==> ct[i] == t[i - 1];
    forall i | 0 < i < |ct| ensures ct[i - 1] != ' ' || ct[i] != ' ' {
      assert i > 1 ==> ct[i - 1] == t[i - 2];
    }
  }

  lemma {:induction false} CleanIsSpaced(s: string, inGap: bool)
    ensures Spaced(Clean(s, inGap))
    ensures inGap && Clean(s, inGap) != "" ==> Clean(s, inGap)[0] != ' '
  {
    if s == "" {
    } else if AlphaNum(s[0]) {
      CleanIsSpaced(s[1..], false);
      SpacedCons(s[0], Clean(s[1..], false));
    } else {
      CleanIsSpaced(s[1..], true);
      SpacedCons(' ', Clean(s[1..], true));
    }
  }

  /** Cleaning and then splitting at white space gives exactly the maximal [a-z0-9] runs. */
  lemma FieldsAreRuns(s: string)
    ensures Fields(s) == Runs(s)
  {
    SplitOfClean(s, false, "");
  }

  ghost predicate All(s: string, p: char -> bool) {
    forall i :: 0 <= i < |s| ==> p(s[i])
  }

  predicate NotAlphaNum(c: char) {
    !AlphaNum(c)
  }

  lemma {:induction false} SplitYieldsRuns(s: string, keep: char -> bool, cur: string)
    requires All(cur, keep)
    ensures forall w :: w in Split(s, keep, cur) ==> w != "" && All(w, keep)
  {
    if s == "" {
    } else if keep(s[0]) {
      SplitYieldsRuns(s[1..], keep, cur + [s[0]]);
    } else {
      SplitYieldsRuns(s[1..], keep, "");
    }
  }

  /** A separator cuts: what stands before and after it is split independently. */
  lemma {:induction false} SplitAtGap(p: string, sep: string, q: string, cur: string)
    requires sep != "" && All(sep, NotAlphaNum)
    ensures Split(p + sep + q, AlphaNum, cur) == Split(p, AlphaNum, cur) + Runs(q)
    decreases |p| + |sep|
  {
    var s := p + sep + q;
    if p == "" {
      assert s[0] == sep[0] && s[1..] == sep[1..] + q;
      if |sep| == 1 {
        assert sep[1..] + q == q;
      } else {
        assert s[1..] == "" + sep[1..] + q;
        SplitAtGap("", sep[1..], q, "");
      }
    } else {
      assert s[0] == p[0] && s[1..] == p[1..] + sep + q;
      SplitAtGap(p[1..], sep, q, if AlphaNum(p[0]) then cur + [p[0]] else "");
    }
  }

  function Interleave(gaps: seq<string>, ws: seq<string>): string
    requires |gaps| == |ws| + 1
  {
    if ws == [] then gaps[0] else gaps[0] + ws[0] + Interleave(gaps[1..], ws[1..])
  }

  /** `s` reads gap, run, gap, run, ..., gap: the runs are non-empty and all [a-z0-9], the gaps hold
      no such character, and only the first and the last gap may be empty. So the runs are maximal. */
  ghost predicate Decomposes(s: string, gaps: seq<string>, ws: seq<string>) {
    && |gaps| == |ws| + 1
    && s == Interleave(gaps, ws)
    && (forall i :: 0 <= i < |ws| ==> ws[i] != "" && All(ws[i], AlphaNum))
    && (forall i :: 0 <= i < |gaps| ==> All(gaps[i], NotAlphaNum))
    && (forall i :: 0 < i < |ws| ==> gaps[i] != "")
  }

  lemma InterleaveCons(g: string, w: string, gaps: seq<string>, ws: seq<string>)
    requires |gaps| == |ws| + 1
    ensures Interleave([g] + gaps, [w] + ws) == g + w + Interleave(gaps, ws)
  {
    assert ([g] + gaps)[1..] == gaps && ([w] + ws)[1..] == ws;
  }

  lemma DecomposesCons(s: string, gaps: seq<string>, ws: seq<string>, run: string)
    requires Decomposes(s, gaps, ws) && run != "" && All(run, AlphaNum)
    requires ws != [] ==> gaps[0] != ""
    ensures Decomposes(run + s, [""] + gaps, [run] + ws)
  {
    InterleaveCons("", run, gaps, ws);
    assert "" + run + s == run + s;
  }

  lemma InterleaveWiden(x: string, gaps: seq<string>, ws: seq<string>)
    requires |gaps| == |ws| + 1
    ensures Interleave([x + gaps[0]] + gaps[1..], ws) == x + Interleave(gaps, ws)
  {
    var wide := [x + gaps[0]] + gaps[1..];
    if ws != [] {
      assert wide[1..] == gaps[1..];
      assert x + gaps[0] + ws[0] + Interleave(gaps[1..], ws[1..]) == x + Interleave(gaps, ws);
    }
  }

  lemma DecomposesWiden(c: char, s: string, gaps: seq<string>, ws: seq<string>)
    requires Decomposes(s, gaps, ws) && !AlphaNum(c)
    ensures Decomposes([c] + s, [[c] + gaps[0]] + gaps[1..], ws)
  {
    InterleaveWiden([c], gaps, ws);
  }

  /** The gaps of `cur + s`, where `cur` is the run already read. */
  lemma {:induction false} FindGaps(s: string, cur: string) returns (gaps: seq<string>)
    requires All(cur, AlphaNum)
    ensures Decomposes(cur + s, gaps, Split(s, AlphaNum, cur))
    decreases |s|
  {
    if s == "" {
      assert Decomposes("", [""], []);
      gaps := [""];
      if cur != "" {
        DecomposesCons("", [""], [], cur);
        gaps := [""] + gaps;
        assert [cur] + [] == [cur] == Split(s, AlphaNum, cur);
        assert cur + s == cur + "";
      } else {
        assert cur + s == "";
      }
    } else if AlphaNum(s[0]) {
      gaps := FindGaps(s[1..], cur + [s[0]]);
      assert cur + [s[0]] + s[1..] == cur + s;
      assert Split(s, AlphaNum, cur) == Split(s[1..], AlphaNum, cur + [s[0]]);
    } else {
      var rest := FindGaps(s[1..], "");
      assert "" + s[1..] == s[1..];
      var ws := Split(s[1..], AlphaNum, "");
      DecomposesWiden(s[0], s[1..], rest, ws);
      assert [s[0]] + s[1..] == s;
      gaps := [[s[0]] + rest[0]] + rest[1..];
      if cur == "" {
        assert cur + s == s;
        assert Split(s, AlphaNum, cur) == ws;
      } else {
        DecomposesCons(s, gaps, ws, cur);
        gaps := [""] + gaps;
        assert Split(s, AlphaNum, cur) == [cur] + ws;
      }
    }
  }

  lemma {:induction false} SplitRun(w: string, q: string, cur: string)
    requires All(w, AlphaNum)
    ensures Split(w + q, AlphaNum, cur) == Split(q, AlphaNum, cur + w)
  {
    if w == "" {
      assert w + q == q && cur + w == cur;
    } else {
      assert (w + q)[1..] == w[1..] + q;
      SplitRun(w[1..], q, cur + [w[0]]);
      assert cur + [w[0]] + w[1..] == cur + w;
    }
  }

  lemma SplitGap(g: string, q: string)
    requires All(g, NotAlphaNum)
    ensures Split(g + q, AlphaNum, "") == Runs(q)
  {
    if g == "" {
      assert g + q == q;
    } else {
      assert "" + g + q == g + q;
      SplitAtGap("", g, q, "");
    }
  }

  lemma SplitAfterRun(gaps: seq<string>, ws: seq<string>, run: string)
    requires |gaps| == |ws| + 1 && run != "" && All(gaps[0], NotAlphaNum)
    requires ws != [] ==> gaps[0] != ""
    ensures Split(Interleave(gaps, ws), AlphaNum, run) == [run] + Runs(Interleave(gaps, ws))
  {
    var q := if ws == [] then "" else ws[0] + Interleave(gaps[1..], ws[1..]);
    assert Interleave(gaps, ws) == gaps[0] + q;
    if gaps[0] == "" {
      assert Interleave(gaps, ws) == "";
    } else {
      assert "" + gaps[0] + q == gaps[0] + q;
      SplitAtGap("", gaps[0], q, run);
      SplitGap(gaps[0], q);
    }
  }

  lemma {:induction false} DecompositionUnique(s: string, gaps: seq<string>, ws: seq<string>)
    requires Decomposes(s, gaps, ws)
    ensures ws == Runs(s)
    decreases |ws|
  {
    if ws == [] {
      assert gaps[0] + "" == gaps[0];
      SplitGap(gaps[0], "");
    } else {
      var rest := Interleave(gaps[1..], ws[1..]);
      assert Decomposes(rest, gaps[1..], ws[1..]);
      DecompositionUnique(rest, gaps[1..], ws[1..]);
      assert s == gaps[0] + (ws[0] + rest);
      SplitGap(gaps[0], ws[0] + rest);
      SplitRun(ws[0], rest, "");
      assert "" + ws[0] == ws[0];
      SplitAfterRun(gaps[1..], ws[1..], ws[0]);
    }
  }

  /** `Runs` yields the only way to read a text as maximal runs between gaps. */
  lemma RunsIff(s: string, ws: seq<string>)
    ensures ws == Runs(s) <==> exists gaps :: Decomposes(s, gaps, ws)
  {
    var gaps := FindGaps(s, "");
    assert Decomposes(s, gaps, Runs(s)) by {
      assert "" + s == s;
    }
    forall g | Decomposes(s, g, ws) ensures ws == Runs(s) {
      DecompositionUnique(s, g, ws);
    }
  }

  // ----- first occurrences

  lemma {:induction false} DedupeKeepsElements<T(!new)>(s: seq<T>)
    ensures forall x :: x in Dedupe(s) <==> x in s
  {
    if s == [] {
    } else {
      DedupeKeepsElements(s[..|s| - 1]);
      assert s == s[..|s| - 1] + [s[|s| - 1]];
    }
  }

  lemma DedupeStep<T(!new)>(s: seq<T>, x: T)
    ensures Dedupe(s + [x]) == Dedupe(s) + if x in Dedupe(s) then [] else [x]
  {
    assert (s + [x])[..|s|] == s;
    DedupeKeepsElements(s);
  }

  function First<T(==)>(s: seq<T>, x: T): (i: nat)
    requires x in s
    ensures i < |s| && s[i] == x && forall k :: 0 <= k < i ==> s[k] != x
  {
    if s[0] == x then 0 else
      assert s == [s[0]] + s[1..];
      First(s[1..], x) + 1
  }

  /** `d` lists each element of `s` once, in the order of first occurrences. */
  ghost predicate FirstOccurrences<T(!new)>(d: seq<T>, s: seq<T>) {
    && (forall x :: x in d <==> x in s)
    && (forall i, j :: 0 <= i < j < |d| ==> d[i] in s && d[j] in s && First(s, d[i]) < First(s, d[j]))
  }

  lemma FirstOfFront<T(!new)>(s: seq<T>, y: T)
    ensures forall x :: x in s ==> First(s + [y], x) == First(s, x)
    ensures y !in s ==> First(s + [y], y) == |s|
  {
    forall x | x in s ensures First(s + [y], x) == First(s, x) {
      var i, j := First(s + [y], x), First(s, x);
      assert (s + [y])[j] == x;
      assert i < |s| ==> s[i] == x;
    }
    assert (s + [y])[|s|] == y;
  }

  lemma {:induction false} DedupeListsFirsts<T(!new)>(s: seq<T>)
    ensures FirstOccurrences(Dedupe(s), s)
  {
    if s == [] {
    } else {
      var front, x := s[..|s| - 1], s[|s| - 1];
      assert s == front + [x];
      DedupeListsFirsts(front);
      FirstOfFront(front, x);
    }
  }

  /** When the last element of a text is new, it closes the list of first occurrences. */
  lemma FirstsEnd<T(!new)>(front: seq<T>, x: T, d: seq<T>)
    requires FirstOccurrences(d, front + [x]) && x !in front
    ensures d != [] && d[|d| - 1] == x
    ensures forall i :: 0 <= i < |d| - 1 ==> d[i] in front
  {
    var s := front + [x];
    FirstOfFront(front, x);
    assert x in s;
    var k :| 0 <= k < |d| && d[k] == x;
    forall i | 0 <= i < |d| && i != k ensures i < k && d[i] in front {
      assert d[i] in d;
    }
  }

  lemma FirstsOfFront<T(!new)>(front: seq<T>, x: T, d: seq<T>)
    requires FirstOccurrences(d, front + [x]) && x !in front
    ensures d != [] && d[|d| - 1] == x && FirstOccurrences(d[..|d| - 1], front)
  {
    FirstsEnd(front, x, d);
    FirstOfFront(front, x);
    var n := |d| - 1;
    forall y | y in front ensures y in d[..n] {
      assert y in front + [x];
      var i :| 0 <= i < |d| && d[i] == y;
      assert d[..n][i] == y;
    }
    forall i, j | 0 <= i < j < n ensures First(front, d[i]) < First(front, d[j]) {
      assert First(front + [x], d[i]) < First(front + [x], d[j]);
    }
  }

  lemma FirstsOfOldEnd<T(!new)>(front: seq<T>, x: T, d: seq<T>)
    requires FirstOccurrences(d, front + [x]) && x in front
    ensures FirstOccurrences(d, front)
  {
    FirstOfFront(front, x);
  }

  lemma FirstsOfNothing<T(!new)>(s: seq<T>, d: seq<T>)
    requires FirstOccurrences(d, s)
    ensures s == [] ==> d == []
  {
    assert d == [] || (d[0] in d && d[0] in s);
  }

  lemma {:induction false} FirstsUnique<T(!new)>(s: seq<T>, d: seq<T>)
    requires FirstOccurrences(d, s)
    ensures d == Dedupe(s)
  {
    if s == [] {
      FirstsOfNothing(s, d);
    } else {
      var front, x := s[..|s| - 1], s[|s| - 1];
      assert s == front + [x];
      if x in front {
        FirstsOfOldEnd(front, x, d);
        FirstsUnique(front, d);
      } else {
        FirstsOfFront(front, x, d);
        FirstsUnique(front, d[..|d| - 1]);
        assert d == d[..|d| - 1] + [x];
      }
    }
  }

  /** `Dedupe` is the only list of first occurrences, and it repeats nothing. */
  lemma DedupeIff<T(!new)>(s: seq<T>, d: seq<T>)
    ensures d == Dedupe(s) <==> FirstOccurrences(d, s)
    ensures NoDuplicates(Dedupe(s))
  {
    DedupeListsFirsts(s);
    if FirstOccurrences(d, s) {
      FirstsUnique(s, d);
    }
  }

  lemma {:induction false} DedupeIdempotent<T(!new)>(s: seq<T>)
    ensures Dedupe(Dedupe(s)) == Dedupe(s)
  {
    if s == [] {
    } else {
      var front, x := s[..|s| - 1], s[|s| - 1];
      assert s == front + [x];
      DedupeIdempotent(front);
      DedupeStep(front, x);
      DedupeKeepsElements(front);
      DedupeKeepsElements(Dedupe(front));
      if x !in front {
        DedupeStep(Dedupe(front), x);
        assert x !in Dedupe(Dedupe(front));
      } else {
        assert Dedupe(s) == Dedupe(front);
      }
    }
  }

  lemma {:induction false} DedupeConcat<T(!new)>(a: seq<T>, b: seq<T>)
    ensures Dedupe(Dedupe(a) + Dedupe(b)) == Dedupe(a + b)
  {
    if b == [] {
      assert a + b == a && Dedupe(a) + Dedupe(b) == Dedupe(a);
      DedupeIdempotent(a);
    } else {
      var front, x := b[..|b| - 1], b[|b| - 1];
      assert a + b == a + front + [x];
      DedupeConcat(a, front);
      DedupeStep(a + front, x);
      DedupeKeepsElements(a + front);
      DedupeKeepsElements(a);
      DedupeKeepsElements(front);
      if x in front {
        assert Dedupe(b) == Dedupe(front);
      } else {
        assert Dedupe(a) + Dedupe(b) == Dedupe(a) + Dedupe(front) + [x];
        DedupeStep(Dedupe(a) + Dedupe(front), x);
      }
    }
  }

  lemma {:induction false} KeptConcat(l: Language, a: seq<string>, b: seq<string>)
    ensures Kept(l, a + b) == Kept(l, a) + Kept(l, b)
  {
    if b == [] {
      assert a + b == a;
    } else {
      KeptConcat(l, a, b[..|b| - 1]);
      assert (a + b)[..|a + b| - 1] == a + b[..|b| - 1];
    }
  }

  /** Normalising a text pasted together from two parts is normalising the parts and dropping
      repetitions, whatever the stemmer and the stop-word list do. */
  lemma NormIsHomomorphic(l: Language, p: string, sep: string, q: string)
    requires sep != "" && All(Lower(l, sep), NotAlphaNum)
    ensures NormOf(l, p + sep + q) == Dedupe(NormOf(l, p) + NormOf(l, q))
  {
    var lp, ls, lq := Lower(l, p), Lower(l, sep), Lower(l, q);
    assert Lower(l, p + sep + q) == lp + ls + lq;
    SplitAtGap(lp, ls, lq, "");
    KeptConcat(l, Runs(lp), Runs(lq));
    DedupeConcat(Kept(l, Runs(lp)), Kept(l, Runs(lq)));
  }

  // ----- normalisation read off the text

  /** The characters from `i` to `j` are letters a-z and digits, and those before and after are not. */
  predicate RunAt(s: string, i: int, j: int) {
    && 0 <= i < j <= |s|
    && (forall k :: i <= k < j ==> 'a' <= s[k] <= 'z' || '0' <= s[k] <= '9')
    && (i > 0 ==> !('a' <= s[i - 1] <= 'z') && !('0' <= s[i - 1] <= '9'))
    && (j < |s| ==> !('a' <= s[j] <= 'z') && !('0' <= s[j] <= '9'))
  }

  /** The run `w` becomes the token `x`: a number stays, a stop word yields nothing, another word
      becomes its stem, or stays when the stemmer fails or answers the empty word. */
  ghost predicate Yields(l: Language, w: string, x: string) {
    || (x == w && forall k :: 0 <= k < |w| ==> '0' <= w[k] <= '9')
    || (&& (exists k :: 0 <= k < |w| && (w[k] < '0' || '9' < w[k]))
        && !l.isStop(w)
        && ((x != "" && l.stem(w) == Some(x)) || (x == w && (l.stem(w) == None || l.stem(w) == Some("")))))
  }

  lemma YieldsIsToken(l: Language, w: string, x: string)
    ensures Yields(l, w, x) <==> Token(l, w) == Some(x)
  {
  }

  datatype Span = Span(from: int, to: int)

  /** The spans are all runs of `s` from `m` on, left to right, and `ws` are their texts. */
  ghost predicate AllRuns(s: string, m: nat, spans: seq<Span>, ws: seq<string>) {
    && |spans| == |ws|
    && (forall k :: 0 <= k < |spans| ==>
          m <= spans[k].from && RunAt(s, spans[k].from, spans[k].to) && ws[k] == s[spans[k].from..spans[k].to])
    && (forall k, k' :: 0 <= k < k' < |spans| ==> spans[k].from < spans[k'].from)
    && (forall i, j :: m <= i && RunAt(s, i, j) ==> Span(i, j) in spans)
  }

  lemma RunBefore(s: string, m: nat, n: nat, i: int, j: int)
    requires m <= n < |s| && (forall k :: m <= k < n ==> AlphaNum(s[k])) && !AlphaNum(s[n])
    requires m <= i && RunAt(s, i, j)
    ensures i > n || (m < n && i == m && j == n)
  {
    if i <= n {
      assert i < n && (i > m ==> AlphaNum(s[i - 1]));
    }
  }

  lemma AllRunsAfterGap(s: string, n: nat, spans: seq<Span>, ws: seq<string>)
    requires n < |s| && !AlphaNum(s[n]) && AllRuns(s, n + 1, spans, ws)
    ensures AllRuns(s, n, spans, ws)
  {
    forall i, j | n <= i && RunAt(s, i, j) ensures Span(i, j) in spans {
      assert i != n;
    }
  }

  lemma AllRunsAfterRun(s: string, m: nat, n: nat, spans: seq<Span>, ws: seq<string>)
    requires m < n < |s| && (forall k :: m <= k < n ==> AlphaNum(s[k])) && (m == 0 || !AlphaNum(s[m - 1]))
    requires !AlphaNum(s[n]) && AllRuns(s, n + 1, spans, ws)
    ensures AllRuns(s, m, [Span(m, n)] + spans, [s[m..n]] + ws)
  {
    assert RunAt(s, m, n);
    forall i, j | m <= i && RunAt(s, i, j) ensures Span(i, j) in [Span(m, n)] + spans {
      RunBefore(s, m, n, i, j);
      assert i > n ==> Span(i, j) in spans;
    }
  }

  /** Where the runs are: `s[m..n]` is the beginning of a run that is being read. */
  lemma {:induction false} RunSpans(s: string, m: nat, n: nat) returns (spans: seq<Span>)
    requires m <= n <= |s| && (forall k :: m <= k < n ==> AlphaNum(s[k])) && (m == 0 || !AlphaNum(s[m - 1]))
    ensures AllRuns(s, m, spans, Split(s[n..], AlphaNum, s[m..n]))
    decreases |s| - n
  {
    if n == |s| {
      spans := if m < n then [Span(m, n)] else [];
      assert forall i, j :: m <= i && RunAt(s, i, j) ==> i == m && j == n;
    } else if AlphaNum(s[n]) {
      spans := RunSpans(s, m, n + 1);
      assert s[m..n] + [s[n]] == s[m..n + 1];
      assert s[n..][1..] == s[n + 1..];
    } else {
      var rest := RunSpans(s, n + 1, n + 1);
      assert s[n..][1..] == s[n + 1..] && s[n + 1..n + 1] == "";
      if m < n {
        spans := [Span(m, n)] + rest;
        AllRunsAfterRun(s, m, n, rest, Split(s[n + 1..], AlphaNum, ""));
      } else {
        spans := rest;
        AllRunsAfterGap(s, n, rest, Split(s[n + 1..], AlphaNum, ""));
      }
    }
  }

  /** Some run becomes `x` before any becomes `y`. */
  ghost predicate ComesFirst(l: Language, ws: seq<string>, x: string, y: string) {
    exists k :: 0 <= k < |ws| && Token(l, ws[k]) == Some(x)
                && forall k' :: 0 <= k' <= k ==> Token(l, ws[k']) != Some(y)
  }

  ghost predicate InOrderOf(l: Language, ws: seq<string>, out: seq<string>) {
    && (forall x :: x in out <==> exists k :: 0 <= k < |ws| && Token(l, ws[k]) == Some(x))
    && (forall p, q :: 0 <= p < q < |out| ==> ComesFirst(l, ws, out[p], out[q]))
  }

  lemma InOrderOfMore(l: Language, ws: seq<string>, out: seq<string>, w: string)
    requires InOrderOf(l, ws, out)
    ensures
      var out' := match Token(l, w) case Some(t) => if t in out then out else out + [t] case None => out;
      InOrderOf(l, ws + [w], out')
  {
    var ws' := ws + [w];
    var out' := match Token(l, w) case Some(t) => if t in out then out else out + [t] case None => out;
    forall x ensures x in out' <==> exists k :: 0 <= k < |ws'| && Token(l, ws'[k]) == Some(x) {
      if k :| 0 <= k < |ws'| && Token(l, ws'[k]) == Some(x) {
        assert k < |ws| ==> ws[k] == ws'[k];
      }
      if k :| 0 <= k < |ws| && Token(l, ws[k]) == Some(x) {
        assert ws'[k] == ws[k];
      }
      if x in out' && x !in out {
        assert ws'[|ws|] == w;
      }
    }
    forall p, q | 0 <= p < q < |out'| ensures ComesFirst(l, ws', out'[p], out'[q]) {
      assert out'[p] in out;
      if q < |out| {
        assert ComesFirst(l, ws, out[p], out[q]);
        var k :| 0 <= k < |ws| && Token(l, ws[k]) == Some(out[p])
                 && forall k' :: 0 <= k' <= k ==> Token(l, ws[k']) != Some(out[q]);
        assert ws'[k] == ws[k] && forall k' :: 0 <= k' <= k ==> ws'[k'] == ws[k'];
      } else {
        var k :| 0 <= k < |ws| && Token(l, ws[k]) == Some(out[p]);
        assert ws'[k] == ws[k] && forall k' :: 0 <= k' <= k ==> ws'[k'] == ws[k'];
        assert forall k' :: 0 <= k' < |ws| ==> Token(l, ws[k']) != Some(out'[q]);
      }
    }
  }

  lemma NormStep(l: Language, tokens: seq<string>, k: nat)
    requires k < |tokens|
    ensures
      var out := Dedupe(Kept(l, tokens[..k]));
      Dedupe(Kept(l, tokens[..k + 1])) ==
      match Token(l, tokens[k])
      case Some(t) => if t in out then out else out + [t]
      case None => out
  {
    assert tokens[..k + 1][..k] == tokens[..k];
    var kept := Kept(l, tokens[..k]);
    match Token(l, tokens[k])
    case Some(t) =>
      assert Kept(l, tokens[..k + 1]) == kept + [t];
      DedupeStep(kept, t);
    case None =>
      assert Kept(l, tokens[..k + 1]) == kept;
  }

  lemma NormEnd(l: Language, front: seq<string>, w: string)
    ensures
      var out := Dedupe(Kept(l, front));
      Dedupe(Kept(l, front + [w])) ==
      match Token(l, w) case Some(t) => if t in out then out else out + [t] case None => out
  {
    NormStep(l, front + [w], |front|);
    assert (front + [w])[..|front|] == front && (front + [w])[..|front| + 1] == front + [w];
  }

  lemma InOrderOfEnd(l: Language, front: seq<string>, w: string)
    requires InOrderOf(l, front, Dedupe(Kept(l, front)))
    ensures InOrderOf(l, front + [w], Dedupe(Kept(l, front + [w])))
  {
    InOrderOfMore(l, front, Dedupe(Kept(l, front)), w);
    NormEnd(l, front, w);
  }

  lemma {:induction false} NormInOrder(l: Language, ws: seq<string>)
    ensures InOrderOf(l, ws, Dedupe(Kept(l, ws)))
  {
    if ws == [] {
    } else {
      var front, w := ws[..|ws| - 1], ws[|ws| - 1];
      NormInOrder(l, front);
      assert ws == front + [w];
      InOrderOfEnd(l, front, w);
    }
  }

  /** Some run that becomes `x` stands before all runs that become `y`. */
  ghost predicate GivenFirst(l: Language, s: string, x: string, y: string) {
    exists i, j | RunAt(s, i, j) ::
      Yields(l, s[i..j], x) && forall i', j' | RunAt(s, i', j') :: Yields(l, s[i'..j'], y) ==> i < i'
  }

  lemma ReadOff(l: Language, s: string, spans: seq<Span>, x: string)
    requires AllRuns(s, 0, spans, Runs(s))
    ensures (exists k :: 0 <= k < |Runs(s)| && Token(l, Runs(s)[k]) == Some(x))
            <==> exists i, j | RunAt(s, i, j) :: Yields(l, s[i..j], x)
  {
    var ws := Runs(s);
    if k :| 0 <= k < |ws| && Token(l, ws[k]) == Some(x) {
      YieldsIsToken(l, ws[k], x);
      assert RunAt(s, spans[k].from, spans[k].to);
    }
    if i, j :| RunAt(s, i, j) && Yields(l, s[i..j], x) {
      assert Span(i, j) in spans;
      var k :| 0 <= k < |spans| && spans[k] == Span(i, j);
      YieldsIsToken(l, ws[k], x);
    }
  }

  lemma ReadOffFirst(l: Language, s: string, spans: seq<Span>, x: string, y: string)
    requires AllRuns(s, 0, spans, Runs(s)) && ComesFirst(l, Runs(s), x, y)
    ensures GivenFirst(l, s, x, y)
  {
    var ws := Runs(s);
    var k :| 0 <= k < |ws| && Token(l, ws[k]) == Some(x)
             && forall k' :: 0 <= k' <= k ==> Token(l, ws[k']) != Some(y);
    var i, j := spans[k].from, spans[k].to;
    YieldsIsToken(l, ws[k], x);
    forall i', j' | RunAt(s, i', j') && Yields(l, s[i'..j'], y) ensures i < i' {
      assert Span(i', j') in spans;
      var k' :| 0 <= k' < |spans| && spans[k'] == Span(i', j');
      YieldsIsToken(l, ws[k'], y);
      assert k < k';
    }
    assert RunAt(s, i, j) && Yields(l, s[i..j], x);
  }

  /** The tokens read off the lowered text `s`: they are what its runs yield, each once, and of two
      tokens that one comes first which the text gives first. */
  lemma NormExact(l: Language, phrase: string, s: string)
    requires |s| == |phrase| && forall i :: 0 <= i < |s| ==> s[i] == l.lower(phrase[i])
    ensures forall x :: x in NormOf(l, phrase) <==> exists i, j | RunAt(s, i, j) :: Yields(l, s[i..j], x)
    ensures
      var out := NormOf(l, phrase);
      forall p, q :: 0 <= p < q < |out| ==> out[p] != out[q] && GivenFirst(l, s, out[p], out[q])
  {
    assert Lower(l, phrase) == s;
    assert s[0..] == s && s[0..0] == "";
    var spans := RunSpans(s, 0, 0);
    var out := NormOf(l, phrase);
    NormInOrder(l, Runs(s));
    forall x ensures x in out <==> exists i, j | RunAt(s, i, j) :: Yields(l, s[i..j], x) {
      ReadOff(l, s, spans, x);
    }
    forall p, q | 0 <= p < q < |out| ensures GivenFirst(l, s, out[p], out[q]) {
      assert ComesFirst(l, Runs(s), out[p], out[q]);
      ReadOffFirst(l, s, spans, out[p], out[q]);
    }
    DedupeIff(Kept(l, Runs(s)), out);
  }

  // ----- the program

  /** The set of words already emitted. */
  class WordSet {
    var m: map<string, bool>

    ghost function Contents(): set<string>
      reads this
    {
      set w | w in m && m[w]
    }

    constructor ()
      ensures Contents() == {}
    {
      m := map[];
    }

    method Add(word: string) returns (added: bool)
      modifies this
      ensures Contents() == old(Contents()) + {word}
      ensures added <==> word !in old(Contents())
    {
      if word in m && m[word] {
        return false;
      }
      m := m[word := true];
      return true;
    }

    method Has(word: string) returns (has: bool)
      ensures has <==> word in Contents()
    {
      return word in m && m[word];
    }
  }

  method IsNumber(w: string) returns (isDigits: bool)
    ensures isDigits <==> AllDigits(w)
  {
    isDigits := true;
    for i := 0 to |w|
      invariant isDigits && forall j :: 0 <= j < i ==> '0' <= w[j] <= '9'
    {
      if w[i] < '0' || w[i] > '9' {
        isDigits := false;
        break;
      }
    }
  }

  method Norm(l: Language, phrase: string) returns (out: seq<string>)
    ensures out == NormOf(l, phrase)
  {
    var tokens := Fields(Lower(l, phrase));
    FieldsAreRuns(Lower(l, phrase));
    SplitYieldsRuns(Lower(l, phrase), AlphaNum, "");
    out := [];
    var seen := new WordSet();
    for k := 0 to |tokens|
      invariant fresh(seen)
      invariant out == Dedupe(Kept(l, tokens[..k]))
      invariant forall x :: x in seen.Contents() <==> x in out
    {
      var w := tokens[k];
      NormStep(l, tokens, k);
      if w == "" {
        assert false;
      }
      var isDigits := IsNumber(w);
      if isDigits {
        var added := seen.Add(w);
        if added {
          out := out + [w];
        }
        continue;
      }
      if l.isStop(w) {
        continue;
      }
      var stemmed := l.stem(w);
      var stem := if stemmed.None? || stemmed.value == "" then w else stemmed.value;
      var added := seen.Add(stem);
      if added {
        out := out + [stem];
      }
    }
    assert tokens[..|tokens|] == tokens;
  }
}
