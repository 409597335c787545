/** Choosing the n lowest-ranked elements: what every placement strategy promises. */
module Ranking {
  import opened Collections

  predicate TieFree<T(!new, ==)>(s: seq<T>, rank: T -> real) {
    forall a, b :: a in s && b in s && rank(a) == rank(b) ==> a == b
  }

  /** `r` lists min(n, |s|) different elements of `s`, best rank first, and no element left out ranks better. */
  ghost predicate IsTopN<T(!new)>(r: seq<T>, s: seq<T>, n: nat, rank: T -> real) {
    && |r| == Min(n, |s|)
    && NoDup(r)
    && (forall x :: x in r ==> x in s)
    && (forall i, j :: 0 <= i < j < |r| ==> rank(r[i]) <= rank(r[j]))
    && (forall x, y :: x in r && y in s && y !in r ==> rank(x) <= rank(y))
  }

  /** `r` is the start of some rearrangement of `s` by ascending rank, cut to n; `s` may repeat elements. */
  ghost predicate IsBestOf<T(!new)>(r: seq<T>, s: seq<T>, n: nat, rank: T -> real) {
    exists all :: IsOrdering(all, s, rank) && r == all[..Min(n, |all|)]
  }

  ghost predicate IsOrdering<T>(all: seq<T>, s: seq<T>, rank: T -> real) {
    multiset(all) == multiset(s) && forall i, j :: 0 <= i < j < |all| ==> rank(all[i]) <= rank(all[j])
  }

  /** The start of an ordering, told without the ordering: some occurrences of `s`, best rank first, and none that is
      left over ranks better. */
  lemma BestOfBounds<T(!new)>(r: seq<T>, s: seq<T>, n: nat, rank: T -> real)
    requires IsBestOf(r, s, n, rank)
    ensures |r| == Min(n, |s|) && multiset(r) <= multiset(s)
    ensures forall i, j :: 0 <= i < j < |r| ==> rank(r[i]) <= rank(r[j])
    ensures forall x, y :: x in r && multiset(r)[y] < multiset(s)[y] ==> rank(x) <= rank(y)
  {
    var all :| IsOrdering(all, s, rank) && r == all[..Min(n, |all|)];
    assert |all| == |multiset(all)| == |s|;
    CutInTwo(all, |r|);
    assert forall i :: 0 <= i < |r| ==> r[i] == all[i];
    forall x, y | x in r && multiset(r)[y] < multiset(s)[y] ensures rank(x) <= rank(y) {
      var i :| 0 <= i < |r| && r[i] == x;
      var j := LeftOver(all, |r|, y);
      assert all[i] == x && all[j] == y;
    }
  }

  lemma CutInTwo<T>(all: seq<T>, n: nat)
    requires n <= |all|
    ensures multiset(all) == multiset(all[..n]) + multiset(all[n..])
  {
    assert all == all[..n] + all[n..];
  }

  /** What occurs more often in the whole than in its start occurs after it. */
  lemma LeftOver<T>(all: seq<T>, n: nat, y: T) returns (j: nat)
    requires n <= |all| && multiset(all[..n])[y] < multiset(all)[y]
    ensures n <= j < |all| && all[j] == y
  {
    CutInTwo(all, n);
    var rest := all[n..];
    assert y in multiset(rest);
    var i :| 0 <= i < |rest| && rest[i] == y;
    j := n + i;
  }

  /** Without repetition the start of an ordering is the choice of the n best. */
  lemma BestOfIsTopN<T(!new)>(r: seq<T>, s: seq<T>, n: nat, rank: T -> real)
    requires IsBestOf(r, s, n, rank) && NoDup(s)
    ensures IsTopN(r, s, n, rank)
  {
    var all :| IsOrdering(all, s, rank) && r == all[..Min(n, |all|)];
    RearrangedNoDup(s, all);
    assert forall x :: x in s <==> x in ToSet(all);
    assert forall i :: 0 <= i < |r| ==> r[i] == all[i];
    forall x, y | x in r && y in s && y !in r ensures rank(x) <= rank(y) {
      var i :| 0 <= i < |r| && r[i] == x;
      var j :| 0 <= j < |all| && all[j] == y;
      assert j >= |r|;
    }
  }

  /** The elements that rank strictly better than x. */
  ghost function Better<T(!new)>(s: seq<T>, rank: T -> real, x: T): set<T> {
    set y | y in s && rank(y) < rank(x)
  }

  /** No tie reaches the n best: every tied pair has at least n elements ranked strictly before it. */
  ghost predicate Determined<T(!new)>(s: seq<T>, n: nat, rank: T -> real) {
    forall a, b :: a in s && b in s && a != b && rank(a) == rank(b) ==> |Better(s, rank, a)| >= n
  }

  lemma TieFreeDetermined<T(!new)>(s: seq<T>, n: nat, rank: T -> real)
    requires TieFree(s, rank)
    ensures Determined(s, n, rank)
  {
  }

  /** What ranks strictly before a chosen element was chosen earlier. */
  lemma BetterChosenEarlier<T(!new)>(r: seq<T>, s: seq<T>, n: nat, rank: T -> real, k: nat)
    requires IsTopN(r, s, n, rank) && k < |r|
    ensures |Better(s, rank, r[k])| <= k < n
  {
    var earlier := r[..k];
    forall y | y in Better(s, rank, r[k]) ensures y in ToSet(earlier) {
      assert r[k] in r && y in r;
      var i :| 0 <= i < |r| && r[i] == y;
      assert i < k && earlier[i] == y;
    }
    NoDupCardinality(earlier);
    SubsetSize(Better(s, rank, r[k]), ToSet(earlier));
  }

  /** When no tie reaches the n best, the choice depends only on which elements are offered, not on their order. */
  lemma TopNUnique<T(!new)>(r1: seq<T>, s1: seq<T>, r2: seq<T>, s2: seq<T>, n: nat, rank: T -> real)
    requires IsTopN(r1, s1, n, rank) && IsTopN(r2, s2, n, rank)
    requires |s1| == |s2| && ToSet(s1) == ToSet(s2) && Determined(s1, n, rank)
    ensures r1 == r2
  {
    assert forall x :: x in s1 <==> x in ToSet(s1);
    assert forall x :: x in s2 <==> x in ToSet(s2);
    var k := 0;
    while k < |r1|
      invariant 0 <= k <= |r1| == |r2|
      invariant forall i :: 0 <= i < k ==> r1[i] == r2[i]
    {
      SamePick(r1, s1, r2, s2, n, rank, k);
      SamePick(r2, s2, r1, s1, n, rank, k);
      BetterChosenEarlier(r1, s1, n, rank, k);
      assert r1[k] in s1 && r2[k] in s1;
      k := k + 1;
    }
  }

  lemma SamePick<T(!new)>(r1: seq<T>, s1: seq<T>, r2: seq<T>, s2: seq<T>, n: nat, rank: T -> real, k: nat)
    requires IsTopN(r1, s1, n, rank) && IsTopN(r2, s2, n, rank)
    requires forall x :: x in s1 <==> x in s2
    requires k < |r1| == |r2| && forall i :: 0 <= i < k ==> r1[i] == r2[i]
    ensures rank(r1[k]) <= rank(r2[k])
  {
    var y := r2[k];
    if y in r1 {
      var i :| 0 <= i < |r1| && r1[i] == y;
    }
  }

  /** Ranks that order the offered elements alike choose alike. */
  lemma TopNReranked<T(!new)>(r: seq<T>, s: seq<T>, n: nat, rank: T -> real, rank': T -> real)
    requires IsTopN(r, s, n, rank)
    requires forall a, b :: a in s && b in s && rank(a) <= rank(b) ==> rank'(a) <= rank'(b)
    ensures IsTopN(r, s, n, rank')
  {
    forall i, j | 0 <= i < j < |r| ensures rank'(r[i]) <= rank'(r[j]) {
      assert r[i] in r && r[j] in r;
    }
  }

  function InsertAt<T>(r: seq<T>, p: nat, x: T): (ins: seq<T>)
    requires p <= |r|
    ensures |ins| == |r| + 1
  {
    r[..p] + [x] + r[p..]
  }

  /** The position before which every element of a sorted list ranks below x. */
  function Slot<T>(r: seq<T>, x: T, rank: T -> real): (p: nat)
    ensures p <= |r|
    ensures forall i :: 0 <= i < p ==> rank(r[i]) <= rank(x)
    ensures p < |r| ==> rank(x) < rank(r[p])
  {
    if r == [] || rank(x) < rank(r[0]) then 0 else 1 + Slot(r[1..], x, rank)
  }

  /** The element at position i of InsertAt(r, p, x). */
  function InsertedAt<T>(r: seq<T>, p: nat, x: T, i: nat): T
    requires p <= |r| && i <= |r|
  {
    if i < p then r[i] else if i == p then x else r[i - 1]
  }

  lemma InsertedAtIs<T>(r: seq<T>, p: nat, x: T)
    requires p <= |r|
    ensures forall i :: 0 <= i <= |r| ==> InsertAt(r, p, x)[i] == InsertedAt(r, p, x, i)
  {
  }

  /** Inserting at its slot keeps a list sorted; no element is lost or gained besides x. */
  lemma SortedInsert<T>(r: seq<T>, x: T, rank: T -> real)
    requires forall i, j :: 0 <= i < j < |r| ==> rank(r[i]) <= rank(r[j])
    ensures var ins := InsertAt(r, Slot(r, x, rank), x);
      && (forall i, j :: 0 <= i < j < |ins| ==> rank(ins[i]) <= rank(ins[j]))
      && multiset(ins) == multiset(r) + multiset{x}
  {
    var p := Slot(r, x, rank);
    InsertedMultiset(r, p, x);
    InsertedAtIs(r, p, x);
    InsertedOrder(r, x, rank);
  }

  lemma InsertedMultiset<T>(r: seq<T>, p: nat, x: T)
    requires p <= |r|
    ensures multiset(InsertAt(r, p, x)) == multiset(r) + multiset{x}
  {
    assert r == r[..p] + r[p..];
  }

  lemma InsertedOrder<T>(r: seq<T>, x: T, rank: T -> real)
    requires forall i, j :: 0 <= i < j < |r| ==> rank(r[i]) <= rank(r[j])
    ensures var p := Slot(r, x, rank);
      forall i, j :: 0 <= i < j <= |r| ==> rank(InsertedAt(r, p, x, i)) <= rank(InsertedAt(r, p, x, j))
  {
  }

  /** Minimal disruption: one more element offered means the old choice with that element inserted, cut to length. */
  lemma TopNJoin<T(!new)>(r: seq<T>, s: seq<T>, x: T, r': seq<T>, s': seq<T>, n: nat, rank: T -> real)
    requires IsTopN(r, s, n, rank) && IsTopN(r', s', n, rank)
    requires NoDup(s) && NoDup(s') && x !in s && ToSet(s') == ToSet(s) + {x} && Determined(s', n, rank)
    ensures exists p :: 0 <= p <= |r| && r' == InsertAt(r, p, x)[..Min(n, |s| + 1)]
    ensures forall y :: y in r' && y != x ==> y in r
  {
    NoDupCardinality(s);
    NoDupCardinality(s');
    forall y ensures y in s' <==> y in s || y == x {
      assert (y in s' <==> y in ToSet(s')) && (y in s <==> y in ToSet(s));
    }
    var p := Slot(r, x, rank);
    InsertedIsTopN(r, s, x, s', n, rank, p);
    InsertedPrefix(r, x, rank, p, Min(n, |s| + 1));
    TopNUnique(r', s', InsertAt(r, p, x)[..Min(n, |s| + 1)], s', n, rank);
  }

  lemma InsertedSorted<T(!new)>(r: seq<T>, x: T, rank: T -> real)
    requires x !in r && NoDup(r)
    requires forall i, j :: 0 <= i < j < |r| ==> rank(r[i]) <= rank(r[j])
    ensures var ins := InsertAt(r, Slot(r, x, rank), x);
      && NoDup(ins)
      && (forall i, j :: 0 <= i < j < |ins| ==> rank(ins[i]) <= rank(ins[j]))
  {
    var p := Slot(r, x, rank);
    SortedInsert(r, x, rank);
    InsertedAtIs(r, p, x);
    assert forall i :: 0 <= i < |r| ==> r[i] in r;
    assert forall i, j :: 0 <= i < j <= |r| ==> InsertedAt(r, p, x, i) != InsertedAt(r, p, x, j);
  }

  lemma InsertedPrefix<T(!new)>(r: seq<T>, x: T, rank: T -> real, p: nat, m: nat)
    requires NoDup(r) && x !in r && m <= |r| + 1 && p == Slot(r, x, rank)
    requires forall i, j :: 0 <= i < j < |r| ==> rank(r[i]) <= rank(r[j])
    ensures var c := InsertAt(r, p, x)[..m];
      && NoDup(c)
      && (forall i, j :: 0 <= i < j < |c| ==> rank(c[i]) <= rank(c[j]))
      && (forall y :: y in c ==> y in r || y == x)
  {
    InsertedSorted(r, x, rank);
    var ins := InsertAt(r, p, x);
    assert forall i :: 0 <= i < m ==> ins[..m][i] == ins[i];
    assert forall y :: y in ins ==> y in r || y == x;
    assert forall y :: y in ins[..m] ==> y in ins;
  }

  lemma InsertedIsTopN<T(!new)>(r: seq<T>, s: seq<T>, x: T, s': seq<T>, n: nat, rank: T -> real, p: nat)
    requires IsTopN(r, s, n, rank)
    requires |s'| == |s| + 1 && x !in s && NoDup(s) && (forall y :: y in s' <==> y in s || y == x)
    requires p == Slot(r, x, rank)
    ensures IsTopN(InsertAt(r, p, x)[..Min(n, |s| + 1)], s', n, rank)
  {
    var c := InsertAt(r, p, x)[..Min(n, |s| + 1)];
    InsertedPrefix(r, x, rank, p, |c|);
    forall a, y | a in c && y in s' && y !in c ensures rank(a) <= rank(y) {
      if n <= |s| {
        LeftOutAfterInsert(r, s, x, n, rank, p, a, y);
      } else {
        AllOffered(r, s, x, p, y);
      }
    }
  }

  lemma InsertKeeps<T>(r: seq<T>, p: nat, x: T, y: T)
    requires p <= |r| && y in r
    ensures y in InsertAt(r, p, x)
  {
    var k :| 0 <= k < |r| && r[k] == y;
    assert InsertAt(r, p, x)[if k < p then k else k + 1] == y;
  }

  lemma AllOffered<T(!new)>(r: seq<T>, s: seq<T>, x: T, p: nat, y: T)
    requires NoDup(r) && NoDup(s) && |r| == |s| && (forall z :: z in r ==> z in s) && p <= |r|
    ensures y in s || y == x ==> y in InsertAt(r, p, x)[..|s| + 1]
  {
    EverythingChosen(r, s, y);
    assert InsertAt(r, p, x)[..|s| + 1] == InsertAt(r, p, x);
    if y == x {
      assert InsertAt(r, p, x)[p] == x;
    } else if y in r {
      InsertKeeps(r, p, x, y);
    }
  }

  lemma EverythingChosen<T>(r: seq<T>, s: seq<T>, y: T)
    requires NoDup(r) && NoDup(s) && |r| == |s| && (forall z :: z in r ==> z in s)
    ensures y in s ==> y in r
  {
    NoDupCardinality(s);
    NoDupCardinality(r);
    SubsetSize(ToSet(r), ToSet(s));
    assert y in s <==> y in ToSet(s);
  }

  lemma LeftOutAfterInsert<T(!new)>(r: seq<T>, s: seq<T>, x: T, n: nat, rank: T -> real, p: nat, a: T, y: T)
    requires IsTopN(r, s, n, rank) && n <= |s| && p == Slot(r, x, rank) && x !in s
    requires a in InsertAt(r, p, x)[..n] && y !in InsertAt(r, p, x)[..n] && (y in s || y == x)
    ensures rank(a) <= rank(y)
  {
    var c := InsertAt(r, p, x)[..n];
    var i :| 0 <= i < n && c[i] == a;
    InsertedAtIs(r, p, x);
    forall q | 0 <= q < n ensures InsertedAt(r, p, x, q) != y {
      assert c[q] == InsertedAt(r, p, x, q);
    }
    LeftOutRanksBehind(r, s, x, n, rank, p, i, y);
  }

  /** Whatever stands at position i of the insertion ranks no worse than the element that stood there before it. */
  lemma InsertedNoWorse<T(!new)>(r: seq<T>, x: T, rank: T -> real, p: nat, i: nat)
    requires p == Slot(r, x, rank) && i < |r|
    ensures rank(InsertedAt(r, p, x, i)) <= rank(r[if i <= p then i else i - 1])
  {
  }

  /** Where an element of the list stands after the insertion. */
  lemma InsertedFrom<T(!new)>(r: seq<T>, x: T, p: nat, k: nat)
    requires p <= |r| && k < |r|
    ensures InsertedAt(r, p, x, if k < p then k else k + 1) == r[k]
  {
  }

  /** x itself falls off the end: it ranks behind the whole list. */
  lemma NewcomerBehind<T(!new)>(r: seq<T>, x: T, rank: T -> real, p: nat, i: nat)
    requires p == Slot(r, x, rank) && i < |r|
    ensures p >= |r| ==> rank(InsertedAt(r, p, x, i)) <= rank(x)
  {
  }

  /** An element of the list falls off the end only from its last position. */
  lemma LastBehind<T(!new)>(r: seq<T>, x: T, rank: T -> real, p: nat, i: nat, k: nat)
    requires p == Slot(r, x, rank) && i < |r| && k < |r|
    requires forall a, b :: 0 <= a < b < |r| ==> rank(r[a]) <= rank(r[b])
    ensures k >= p && k == |r| - 1 ==> rank(InsertedAt(r, p, x, i)) <= rank(r[k])
  {
    InsertedNoWorse(r, x, rank, p, i);
  }

  /** Everything listed ranks no worse than x when x falls off the end, and no worse than the last when it does not. */
  lemma LeftOutRanksBehind<T(!new)>(r: seq<T>, s: seq<T>, x: T, n: nat, rank: T -> real, p: nat, i: nat, y: T)
    requires IsTopN(r, s, n, rank) && n <= |s| && p == Slot(r, x, rank) && i < n
    requires forall q :: 0 <= q < n ==> InsertedAt(r, p, x, q) != y
    requires y in s || y == x
    ensures rank(InsertedAt(r, p, x, i)) <= rank(y)
  {
    if y == x {
      NewcomerBehind(r, x, rank, p, i);
      assert InsertedAt(r, p, x, p) == x;
    } else if y in r {
      var k :| 0 <= k < n && r[k] == y;
      InsertedFrom(r, x, p, k);
      LastBehind(r, x, rank, p, i, k);
    } else {
      InsertedNoWorse(r, x, rank, p, i);
      assert r[if i <= p then i else i - 1] in r;
    }
  }

  /** A full ranking exists for every duplicate-free offer. */
  lemma {:induction false} RankingExists<T(!new)>(s: seq<T>, rank: T -> real) returns (r: seq<T>)
    requires NoDup(s)
    ensures IsTopN(r, s, |s|, rank)
  {
    if s == [] {
      r := [];
    } else {
      var front, x := s[..|s| - 1], s[|s| - 1];
      var r0 := RankingExists(front, rank);
      var p := Slot(r0, x, rank);
      assert forall y :: y in s <==> y in front || y == x;
      InsertedIsTopN(r0, front, x, s, |s|, rank, p);
      r := InsertAt(r0, p, x)[..|s|];
    }
  }

  /** The n best are the start of a full ranking. */
  lemma RankingStart<T(!new)>(r: seq<T>, s: seq<T>, n: nat, rank: T -> real)
    requires IsTopN(r, s, |s|, rank) && NoDup(s)
    ensures IsTopN(r[..Min(n, |s|)], s, n, rank)
  {
    var c := r[..Min(n, |s|)];
    assert forall i :: 0 <= i < |c| ==> c[i] == r[i] && r[i] in r;
    forall x, y | x in c && y in s && y !in c ensures rank(x) <= rank(y) {
      EverythingChosen(r, s, y);
      var i :| 0 <= i < |c| && c[i] == x;
      var j :| 0 <= j < |r| && r[j] == y;
      assert j >= |c|;
    }
  }

  function Swapped<T>(r: seq<T>, i: nat): (t: seq<T>)
    requires i + 1 < |r|
    ensures |t| == |r|
    ensures forall k :: 0 <= k < |r| ==> t[k] == r[if k == i then i + 1 else if k == i + 1 then i else k]
  {
    r[i := r[i + 1]][i + 1 := r[i]]
  }

  lemma SwappedHolds<T(!new)>(r: seq<T>, i: nat)
    requires i + 1 < |r|
    ensures forall y :: y in Swapped(r, i) <==> y in r
  {
    forall y | y in r ensures y in Swapped(r, i) {
      var k :| 0 <= k < |r| && r[k] == y;
      assert Swapped(r, i)[if k == i then i + 1 else if k == i + 1 then i else k] == y;
    }
  }

  /** Two neighbours of equal rank may change places in a full ranking. */
  lemma SwapTied<T(!new)>(r: seq<T>, s: seq<T>, rank: T -> real, i: nat)
    requires IsTopN(r, s, |s|, rank) && NoDup(s) && i + 1 < |r| && rank(r[i]) == rank(r[i + 1])
    ensures IsTopN(Swapped(r, i), s, |s|, rank)
  {
    var t := Swapped(r, i);
    SwappedHolds(r, i);
    assert forall k :: 0 <= k < |r| ==> rank(t[k]) == rank(r[k]);
    forall y | y in s ensures y in t {
      EverythingChosen(r, s, y);
    }
  }

  /** As many positions before the first of a rank as there are better elements, at most. */
  lemma BetterCover<T(!new)>(r: seq<T>, s: seq<T>, rank: T -> real, a: T, i: nat)
    requires IsTopN(r, s, |s|, rank) && i <= |r| && forall k :: 0 <= k < i ==> rank(r[k]) < rank(a)
    ensures i <= |Better(s, rank, a)|
  {
    var before := r[..i];
    forall y | y in ToSet(before) ensures y in Better(s, rank, a) {
      var k :| 0 <= k < i && before[k] == y;
      assert r[k] in r;
    }
    NoDupCardinality(before);
    SubsetSize(ToSet(before), Better(s, rank, a));
  }

  /** The first two positions of a tied rank in a full ranking: as many positions before them as better elements. */
  lemma FirstTied<T(!new)>(r: seq<T>, s: seq<T>, rank: T -> real, a: T, b: T) returns (i: nat)
    requires IsTopN(r, s, |s|, rank) && NoDup(s) && a in s && b in s && a != b && rank(a) == rank(b)
    ensures i + 1 < |r| && rank(r[i]) == rank(r[i + 1]) && i <= |Better(s, rank, a)|
  {
    EverythingChosen(r, s, a);
    EverythingChosen(r, s, b);
    var p :| 0 <= p < |r| && r[p] == a;
    var q :| 0 <= q < |r| && r[q] == b;
    i := FirstNotBelow(r, rank, a, p, q);
    BetterCover(r, s, rank, a, i);
  }

  lemma FirstNotBelow<T(!new)>(r: seq<T>, rank: T -> real, a: T, p: nat, q: nat) returns (i: nat)
    requires p < |r| && q < |r| && p != q && rank(r[p]) == rank(a) && rank(r[q]) == rank(a)
    requires forall i, j :: 0 <= i < j < |r| ==> rank(r[i]) <= rank(r[j])
    ensures i + 1 < |r| && rank(r[i]) == rank(r[i + 1]) && forall k :: 0 <= k < i ==> rank(r[k]) < rank(a)
  {
    i := 0;
    while rank(r[i]) < rank(a)
      invariant i <= p && i <= q && forall k :: 0 <= k < i ==> rank(r[k]) < rank(a)
      decreases p - i
    {
      i := i + 1;
    }
    var last := if p < q then q else p;
    assert i < last && rank(r[i]) <= rank(r[i + 1]);
    assert i + 1 < last ==> rank(r[i + 1]) <= rank(r[last]);
    assert i < p ==> rank(r[i]) <= rank(r[p]);
  }

  /** With a tie that reaches the n best, the contract of an unstable sort leaves two different answers open. */
  lemma TieLeavesChoice<T(!new)>(s: seq<T>, n: nat, rank: T -> real) returns (r1: seq<T>, r2: seq<T>)
    requires NoDup(s) && !Determined(s, n, rank)
    ensures IsTopN(r1, s, n, rank) && IsTopN(r2, s, n, rank) && r1 != r2
  {
    var a, b :| a in s && b in s && a != b && rank(a) == rank(b) && |Better(s, rank, a)| < n;
    var r := RankingExists(s, rank);
    var i := FirstTied(r, s, rank, a, b);
    var t := Swapped(r, i);
    SwapTied(r, s, rank, i);
    RankingStart(r, s, n, rank);
    RankingStart(t, s, n, rank);
    r1, r2 := r[..Min(n, |s|)], t[..Min(n, |s|)];
    assert r1[i] == r[i] && r2[i] == r[i + 1];
  }

  /** There is one answer exactly when every tied pair has at least n elements ranked strictly before it. */
  lemma ChoiceDeterminedIff<T(!new)>(s: seq<T>, n: nat, rank: T -> real)
    requires NoDup(s)
    ensures Determined(s, n, rank) <==> forall r1, r2 :: IsTopN(r1, s, n, rank) && IsTopN(r2, s, n, rank) ==> r1 == r2
  {
    if Determined(s, n, rank) {
      forall r1, r2 | IsTopN(r1, s, n, rank) && IsTopN(r2, s, n, rank) ensures r1 == r2 {
        TopNUnique(r1, s, r2, s, n, rank);
      }
    } else {
      var r1, r2 := TieLeavesChoice(s, n, rank);
    }
  }
}
