/** Small value types and facts about sequences, sets and sums shared by the other modules. */
module Collections {
  datatype Option<+T> = None | Some(value: T)

  datatype Result<+T> = Ok(value: T) | Err(message: string)

  newtype byte = x: int | 0 <= x < 256

  type Bytes = seq<byte>

  function Min(a: int, b: int): int {
    if a <= b then a else b
  }

  predicate NoDup<T(==)>(s: seq<T>) {
    forall i, j :: 0 <= i < j < |s| ==> s[i] != s[j]
  }

  function ToSet<T>(s: seq<T>): set<T> {
    set x | x in s
  }

  lemma {:induction false} NoDupCardinality<T>(s: seq<T>)
    requires NoDup(s)
    ensures |ToSet(s)| == |s|
  {
    if s == [] {
    } else {
      var init, last := s[..|s| - 1], s[|s| - 1];
      NoDupCardinality(init);
      assert s == init + [last];
      assert ToSet(s) == ToSet(init) + {last};
    }
  }

  lemma {:induction false} SetNoLarger<T>(s: seq<T>)
    ensures |ToSet(s)| <= |s|
  {
    if s != [] {
      SetNoLarger(s[..|s| - 1]);
      assert s == s[..|s| - 1] + [s[|s| - 1]];
      assert ToSet(s) == ToSet(s[..|s| - 1]) + {s[|s| - 1]};
    }
  }

  lemma TakeStep<T>(s: seq<T>, n: nat)
    requires n < |s|
    ensures s[..n + 1] == s[..n] + [s[n]]
    ensures NoDup(s) ==> s[n] !in s[..n]
  {
  }

  lemma ToSetStep<T>(s: seq<T>, n: nat)
    requires 0 < n <= |s|
    ensures ToSet(s[..n]) == ToSet(s[..n - 1]) + {s[n - 1]}
  {
    assert s[..n] == s[..n - 1] + [s[n - 1]];
  }

  lemma {:induction false} NoDupIff<T>(s: seq<T>)
    ensures NoDup(s) <==> |ToSet(s)| == |s|
  {
    if s != [] {
      var init, last := s[..|s| - 1], s[|s| - 1];
      NoDupIff(init);
      SetNoLarger(init);
      assert s == init + [last];
      assert ToSet(s) == ToSet(init) + {last};
      if last in ToSet(init) {
        assert ToSet(s) == ToSet(init);
      }
    }
  }

  /** Rearranging a sequence keeps its elements, its length and the absence of duplicates. */
  lemma {:induction false} RearrangedNoDup<T>(s: seq<T>, r: seq<T>)
    requires NoDup(s) && multiset(s) == multiset(r)
    ensures NoDup(r) && |r| == |s| && ToSet(r) == ToSet(s)
  {
    assert |r| == |multiset(r)| == |s|;
    forall x ensures x in r <==> x in s {
      assert x in multiset(r) <==> x in multiset(s);
    }
    forall i, j | 0 <= i < j < |r| ensures r[i] != r[j] {
      if r[i] == r[j] {
        assert r == r[..j] + [r[j]] + r[j + 1..];
        assert r[..j] == r[..i] + [r[i]] + r[i + 1..j];
        assert multiset(r)[r[i]] >= 2;
        AtMostOnce(s, r[i]);
      }
    }
  }

  lemma {:induction false} AtMostOnce<T>(s: seq<T>, x: T)
    requires NoDup(s)
    ensures multiset(s)[x] <= 1
  {
    if s == [] {
    } else {
      assert s == s[..|s| - 1] + [s[|s| - 1]];
      AtMostOnce(s[..|s| - 1], x);
      if s[|s| - 1] == x {
        assert x !in s[..|s| - 1];
        assert multiset(s[..|s| - 1])[x] == 0;
      }
    }
  }

  lemma SameElements<T(!new)>(a: seq<T>, b: seq<T>)
    requires multiset(a) == multiset(b)
    ensures forall e :: e in a <==> e in b
  {
    forall e ensures e in a <==> e in b {
      assert (e in a <==> e in multiset(a)) && (e in b <==> e in multiset(b));
    }
  }

  /** Duplicate-free sequences over the same set are rearrangements of each other. */
  lemma SameSetSameMultiset<T>(a: seq<T>, b: seq<T>)
    requires NoDup(a) && NoDup(b) && ToSet(a) == ToSet(b)
    ensures multiset(a) == multiset(b) && |a| == |b|
  {
    forall x ensures multiset(a)[x] == multiset(b)[x] {
      AtMostOnce(a, x);
      AtMostOnce(b, x);
      assert x in multiset(a) <==> x in ToSet(a);
      assert x in multiset(b) <==> x in ToSet(b);
    }
    assert multiset(a) == multiset(b);
    assert |multiset(a)| == |a| && |multiset(b)| == |b|;
  }

  lemma CancelOne<T>(p: multiset<T>, q: multiset<T>, x: T)
    requires p + multiset{x} == q + multiset{x}
    ensures p == q
  {
    assert p == (p + multiset{x}) - multiset{x} && q == (q + multiset{x}) - multiset{x};
  }

  /** Taking the same element out of two rearrangements leaves rearrangements. */
  lemma RestRearranged<T>(a: seq<T>, b: seq<T>, k: nat)
    requires multiset(a) == multiset(b) && a != [] && k < |b| && b[k] == a[|a| - 1]
    ensures multiset(a[..|a| - 1]) == multiset(b[..k] + b[k + 1..])
  {
    assert a == a[..|a| - 1] + [b[k]];
    assert b == b[..k] + [b[k]] + b[k + 1..];
    assert multiset(a[..|a| - 1]) + multiset{b[k]} == multiset(b[..k] + b[k + 1..]) + multiset{b[k]};
    CancelOne(multiset(a[..|a| - 1]), multiset(b[..k] + b[k + 1..]), b[k]);
  }

  lemma SubsetSize<T>(a: set<T>, b: set<T>)
    requires a <= b
    ensures |a| <= |b|
    ensures |a| == |b| ==> a == b
  {
    assert |b - a| == |b| - |a|;
  }

  /** The elements of `s` that lie in `keep`, in the order of `s`. */
  function Restrict<T(==, !new)>(s: seq<T>, keep: set<T>): (r: seq<T>)
    ensures forall x :: x in r <==> x in s && x in keep
    ensures |r| <= |s|
  {
    if s == [] then []
    else
      var front := Restrict(s[..|s| - 1], keep);
      if s[|s| - 1] in keep then front + [s[|s| - 1]] else front
  }

  lemma {:induction false} RestrictNoDup<T(!new)>(s: seq<T>, keep: set<T>)
    requires NoDup(s)
    ensures NoDup(Restrict(s, keep))
  {
    if s == [] {
    } else {
      RestrictNoDup(s[..|s| - 1], keep);
      assert s[|s| - 1] !in s[..|s| - 1];
    }
  }

  lemma {:induction false} RestrictAll<T(!new)>(s: seq<T>, keep: set<T>)
    requires forall x :: x in s ==> x in keep
    ensures Restrict(s, keep) == s
  {
    if s == [] {
    } else {
      RestrictAll(s[..|s| - 1], keep);
      assert s == s[..|s| - 1] + [s[|s| - 1]];
    }
  }

  /** Filtering a prefix gives a prefix of the filtered sequence. */
  lemma {:induction false} RestrictPrefix<T(!new)>(s: seq<T>, keep: set<T>, i: nat)
    requires i <= |s|
    ensures Restrict(s[..i], keep) <= Restrict(s, keep)
    decreases |s|
  {
    if i < |s| {
      RestrictPrefix(s[..|s| - 1], keep, i);
      assert s[..|s| - 1][..i] == s[..i];
    } else {
      assert s[..i] == s;
    }
  }

  /** One more element of the sequence: the step of a loop that filters front to back. */
  lemma RestrictStep<T(!new)>(s: seq<T>, keep: set<T>, i: nat)
    requires i < |s|
    ensures Restrict(s[..i + 1], keep) == Restrict(s[..i], keep) + (if s[i] in keep then [s[i]] else [])
  {
    assert s[..i + 1][..i] == s[..i];
  }

  lemma FirstAreMembers<T>(s: seq<T>)
    ensures |s| > 0 ==> s[0] in s
    ensures |s| > 1 ==> s[1] in s
  {
  }

  lemma NoMembers<T(!new)>(s: seq<T>)
    requires forall y :: y !in s
    ensures s == []
  {
    FirstAreMembers(s);
  }

  lemma RestrictNone<T(!new)>(s: seq<T>)
    ensures Restrict(s, {}) == []
  {
    NoMembers(Restrict(s, {}));
  }

  lemma {:induction false} RestrictSame<T(!new)>(s: seq<T>, a: set<T>, b: set<T>)
    requires forall x :: x in s ==> (x in a <==> x in b)
    ensures Restrict(s, a) == Restrict(s, b)
  {
    if s == [] {
    } else {
      assert s[|s| - 1] in s;
      RestrictSame(s[..|s| - 1], a, b);
    }
  }

  /** `part` keeps the order of `all`. */
  predicate InOrder<T(==, !new)>(part: seq<T>, all: seq<T>) {
    part == Restrict(all, ToSet(part))
  }

  /** One more element of the whole, taken into the part or not. */
  lemma InOrderStep<T(!new)>(part: seq<T>, all: seq<T>, x: T)
    requires InOrder(part, all) && x !in all
    ensures InOrder(part, all + [x]) && InOrder(part + [x], all + [x])
  {
    var more := all + [x];
    assert more[..|all|] == all && more[|all|] == x;
    assert forall y :: y in part ==> y in all;
    RestrictSame(all, ToSet(part), ToSet(part + [x]));
  }

  /** What the elements stand for, joined in order. */
  function FlatMap<T, U>(f: T -> seq<U>, s: seq<T>): seq<U> {
    if s == [] then [] else FlatMap(f, s[..|s| - 1]) + f(s[|s| - 1])
  }

  lemma {:induction false} FlatMapJoin<T, U>(f: T -> seq<U>, a: seq<T>, b: seq<T>)
    ensures FlatMap(f, a + b) == FlatMap(f, a) + FlatMap(f, b)
    decreases |b|
  {
    if b == [] {
      assert a + b == a;
    } else {
      assert (a + b)[..|a + b| - 1] == a + b[..|b| - 1];
      FlatMapJoin(f, a, b[..|b| - 1]);
    }
  }

  lemma FlatMapOne<T, U>(f: T -> seq<U>, x: T)
    ensures FlatMap(f, [x]) == f(x)
  {
    assert [x][..0] == [];
  }

  // ---- Sums over the first numbers ----------------------------------------------

  function SumTo(f: nat -> int, n: nat): int {
    if n == 0 then 0 else SumTo(f, n - 1) + f(n - 1)
  }

  lemma {:induction false} SumToDifference(f: nat -> int, g: nat -> int, h: nat -> int, n: nat)
    requires forall i: nat :: i < n ==> f(i) == g(i) - h(i)
    ensures SumTo(f, n) == SumTo(g, n) - SumTo(h, n)
    decreases n
  {
    if n > 0 {
      SumToDifference(f, g, h, n - 1);
    }
  }

  lemma {:induction false} SumToSame(f: nat -> int, g: nat -> int, n: nat)
    requires forall i: nat :: i < n ==> f(i) == g(i)
    ensures SumTo(f, n) == SumTo(g, n)
    decreases n
  {
    if n > 0 {
      SumToSame(f, g, n - 1);
    }
  }

  // ---- Sums over sets of keys -------------------------------------------------

  ghost function SumOver(keys: set<string>, f: string -> int): int {
    if keys == {} then 0
    else
      var k :| k in keys;
      f(k) + SumOver(keys - {k}, f)
  }

  lemma {:induction false} SumDifference(keys: set<string>, f: string -> int, g: string -> int, h: string -> int)
    requires forall k :: k in keys ==> f(k) == g(k) - h(k)
    ensures SumOver(keys, f) == SumOver(keys, g) - SumOver(keys, h)
  {
    if keys != {} {
      var k :| k in keys && SumOver(keys, f) == f(k) + SumOver(keys - {k}, f)
        && SumOver(keys, g) == g(k) + SumOver(keys - {k}, g) && SumOver(keys, h) == h(k) + SumOver(keys - {k}, h);
      SumDifference(keys - {k}, f, g, h);
    }
  }

  lemma {:induction false} SumSame(keys: set<string>, f: string -> int, g: string -> int)
    requires forall k :: k in keys ==> f(k) == g(k)
    ensures SumOver(keys, f) == SumOver(keys, g)
  {
    if keys != {} {
      var k :| k in keys && SumOver(keys, f) == f(k) + SumOver(keys - {k}, f)
        && SumOver(keys, g) == g(k) + SumOver(keys - {k}, g);
      SumSame(keys - {k}, f, g);
    }
  }

  lemma {:induction false} SumZero(keys: set<string>, f: string -> int)
    requires forall k :: k in keys ==> f(k) == 0
    ensures SumOver(keys, f) == 0
  {
    if keys != {} {
      var k :| k in keys && SumOver(keys, f) == f(k) + SumOver(keys - {k}, f);
      SumZero(keys - {k}, f);
    }
  }

  /** Any key may be taken out first. */
  lemma {:induction false} SumTakeOut(keys: set<string>, f: string -> int, k: string)
    requires k in keys
    ensures SumOver(keys, f) == f(k) + SumOver(keys - {k}, f)
  {
    var x :| x in keys && SumOver(keys, f) == f(x) + SumOver(keys - {x}, f);
    if x != k {
      SumTakeOut(keys - {x}, f, k);
      SumTakeOut(keys - {k}, f, x);
      assert keys - {x} - {k} == keys - {k} - {x};
    }
  }
}
