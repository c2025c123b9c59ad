/** Sequence operations the handlers chain together: `Array.prototype.filter`,
    `Array.prototype.map`, and `[...new Set(xs)]`, which keeps the first
    occurrence of every value in insertion order. */
module Seqs {

  /** `a` is `b` with some elements dropped and the rest kept in order. */
  predicate IsSubsequence<T(==)>(a: seq<T>, b: seq<T>)
    decreases |b|
  {
    if |a| == 0 then true
    else if |b| == 0 then false
    else (a[0] == b[0] && IsSubsequence(a[1..], b[1..])) || IsSubsequence(a, b[1..])
  }

  /** `s.filter(p)`. */
  function Filter<T>(s: seq<T>, p: T -> bool): seq<T> {
    if |s| == 0 then []
    else if p(s[0]) then [s[0]] + Filter(s[1..], p)
    else Filter(s[1..], p)
  }

  /** `s.filter(p)` keeps, in order, exactly the elements that satisfy `p`,
      each as often as it occurs in `s`. */
  lemma {:induction false} FilterSpec<T>(s: seq<T>, p: T -> bool)
    ensures IsSubsequence(Filter(s, p), s)
    ensures forall x :: x in Filter(s, p) ==> x in s && p(x)
    ensures forall x :: x in s && p(x) ==> x in Filter(s, p)
    ensures forall x :: x in s ==> multiset(Filter(s, p))[x] == if p(x) then multiset(s)[x] else 0
  {
    if |s| > 0 {
      assert s == [s[0]] + s[1..];
      FilterSpec(s[1..], p);
    }
  }

  /** `s.map(f)`. */
  function Map<T, U>(s: seq<T>, f: T -> U): seq<U> {
    seq(|s|, i requires 0 <= i < |s| => f(s[i]))
  }

  lemma {:induction false} FilterConcat<T>(a: seq<T>, b: seq<T>, p: T -> bool)
    ensures Filter(a + b, p) == Filter(a, p) + Filter(b, p)
  {
    if |a| == 0 {
      assert a + b == b;
    } else {
      assert (a + b)[0] == a[0];
      assert (a + b)[1..] == a[1..] + b;
      FilterConcat(a[1..], b, p);
    }
  }

  lemma FilterAll<T>(s: seq<T>, p: T -> bool)
    requires forall x :: x in s ==> p(x)
    ensures Filter(s, p) == s
  {
  }

  lemma {:induction false} FilterNone<T>(s: seq<T>, p: T -> bool)
    requires forall x :: x in s ==> !p(x)
    ensures Filter(s, p) == []
  {
    if |s| > 0 {
      FilterNone(s[1..], p);
    }
  }

  lemma MapMembership<T, U>(s: seq<T>, f: T -> U, y: U)
    ensures y in Map(s, f) <==> exists x :: x in s && f(x) == y
  {
    if y in Map(s, f) {
      var i :| 0 <= i < |s| && Map(s, f)[i] == y;
      assert s[i] in s;
    }
    if exists x :: x in s && f(x) == y {
      var x :| x in s && f(x) == y;
      var i :| 0 <= i < |s| && s[i] == x;
      assert Map(s, f)[i] == y;
    }
  }

  /** Filtering after a map is mapping after the corresponding filter. */
  lemma {:induction false} MapFilter<T, U>(s: seq<T>, f: T -> U, p: T -> bool, q: U -> bool)
    requires forall x :: p(x) == q(f(x))
    ensures Map(Filter(s, p), f) == Filter(Map(s, f), q)
  {
    if |s| > 0 {
      assert Map(s, f) == [f(s[0])] + Map(s[1..], f);
      MapFilter(s[1..], f, p, q);
    }
  }

  lemma MapConcat<T, U>(a: seq<T>, b: seq<T>, f: T -> U)
    ensures Map(a + b, f) == Map(a, f) + Map(b, f)
  {
  }

  /** Removing the element at `k` removes one copy of it from the multiset. */
  lemma RemoveAt<T>(b: seq<T>, k: nat)
    requires k < |b|
    ensures multiset(b[..k] + b[k + 1..]) == multiset(b) - multiset{b[k]}
  {
    assert b == b[..k] + [b[k]] + b[k + 1..];
  }

  /** Removing the element at `k` before mapping removes one copy of its image. */
  lemma MapRemoveAt<T, U>(b: seq<T>, k: nat, f: T -> U)
    requires k < |b|
    ensures multiset(Map(b, f)) == multiset(Map(b[..k] + b[k + 1..], f)) + multiset{f(b[k])}
  {
    assert b == b[..k] + ([b[k]] + b[k + 1..]);
    MapConcat(b[..k], [b[k]] + b[k + 1..], f);
    MapConcat([b[k]], b[k + 1..], f);
    MapConcat(b[..k], b[k + 1..], f);
  }

  /** In a permutation `b` of a non-empty `a`, some position holds `a[0]`, and
      removing it leaves a permutation of the rest of `a`. */
  lemma MatchHead<T>(a: seq<T>, b: seq<T>) returns (k: nat)
    requires |a| > 0 && multiset(a) == multiset(b)
    ensures k < |b| && b[k] == a[0]
    ensures multiset(a[1..]) == multiset(b[..k] + b[k + 1..])
  {
    assert a[0] in b by {
      assert a[0] in multiset(a);
    }
    k :| 0 <= k < |b| && b[k] == a[0];
    RemoveAt(b, k);
    RemoveHead(a);
  }

  /** Removing the head removes one copy of it from the multiset. */
  lemma RemoveHead<T>(a: seq<T>)
    requires |a| > 0
    ensures multiset(a[1..]) == multiset(a) - multiset{a[0]}
  {
    assert a == [a[0]] + a[1..];
  }

  /** Mapping preserves permutation. */
  lemma {:induction false} MapPermutation<T, U>(a: seq<T>, b: seq<T>, f: T -> U)
    requires multiset(a) == multiset(b)
    ensures multiset(Map(a, f)) == multiset(Map(b, f))
  {
    if |a| == 0 {
      assert |b| == |multiset(b)| == 0;
    } else {
      var k := MatchHead(a, b);
      MapPermutation(a[1..], b[..k] + b[k + 1..], f);
      MapRemoveAt(a, 0, f);
      MapRemoveAt(b, k, f);
      assert a[..0] + a[1..] == a[1..];
    }
  }

  /** No value occurs twice. */
  predicate Distinct<T(==)>(s: seq<T>) {
    forall i, j :: 0 <= i < j < |s| ==> s[i] != s[j]
  }

  /** Filtering a duplicate-free sequence leaves it duplicate-free. */
  lemma {:induction false} FilterDistinct<T>(s: seq<T>, p: T -> bool)
    requires Distinct(s)
    ensures Distinct(Filter(s, p))
  {
    if |s| > 0 {
      FilterDistinct(s[1..], p);
      FilterSpec(s[1..], p);
      assert s[0] !in s[1..];
    }
  }

  /** The position of the first occurrence of `x` in `s` (`s.indexOf(x)`). */
  function IndexOf<T(==)>(s: seq<T>, x: T): (i: nat)
    requires x in s
    ensures i < |s| && s[i] == x && x !in s[..i]
  {
    if s[0] == x then 0 else 1 + IndexOf(s[1..], x)
  }

  /** Any position that holds `x` with no `x` before it is `IndexOf(s, x)`. */
  lemma IndexOfUnique<T>(s: seq<T>, x: T, k: nat)
    requires k < |s| && s[k] == x && x !in s[..k]
    ensures IndexOf(s, x) == k
  {
  }

  /** Extending a sequence does not move the first occurrence of a value it already holds. */
  lemma IndexOfExtend<T>(s: seq<T>, t: seq<T>, x: T)
    requires x in s
    ensures IndexOf(s + t, x) == IndexOf(s, x)
  {
    var k := IndexOf(s, x);
    assert (s + t)[..k] == s[..k];
    IndexOfUnique(s + t, x, k);
  }

  /** The elements of `r` appear in `s`, in the order of their first occurrences in `s`. */
  predicate FirstOccurrenceOrder<T(==)>(r: seq<T>, s: seq<T>) {
    forall i, j :: 0 <= i < j < |r| ==> Before(s, r[i], r[j])
  }

  /** Both values occur in `s`, and `a` occurs first. */
  predicate Before<T(==)>(s: seq<T>, a: T, b: T) {
    a in s && b in s && IndexOf(s, a) < IndexOf(s, b)
  }

  /** `[...new Set(s)]`: each value of `s` once, where it first occurs. A `Set`
      keeps insertion order and ignores re-insertion of a present value. */
  function Unique<T(==)>(s: seq<T>): (r: seq<T>)
    ensures Distinct(r)
    ensures forall x :: x in r ==> x in s
    ensures forall x :: x in s ==> x in r
    ensures |r| <= |s|
  {
    if |s| == 0 then []
    else
      var u := Unique(s[..|s| - 1]);
      var x := s[|s| - 1];
      assert s == s[..|s| - 1] + [x];
      if x in u then u else u + [x]
  }

  /** The values of `[...new Set(s)]` are listed in order of first occurrence. */
  lemma {:induction false} UniqueFirstOccurrenceOrder<T>(s: seq<T>)
    ensures FirstOccurrenceOrder(Unique(s), s)
  {
    if |s| > 0 {
      var init := s[..|s| - 1];
      var x := s[|s| - 1];
      assert s == init + [x];
      UniqueFirstOccurrenceOrder(init);
      var u := Unique(init);
      var r := Unique(s);
      forall i, j | 0 <= i < j < |r|
        ensures Before(s, r[i], r[j])
      {
        IndexOfExtend(init, [x], r[i]);
        if j < |u| {
          IndexOfExtend(init, [x], r[j]);
        } else {
          assert r[j] == x && x !in init;
          assert s[..|init|] == init;
          IndexOfUnique(s, x, |init|);
        }
      }
    }
  }

  /** Keeping the values that satisfy `p` commutes with removing duplicates. */
  lemma {:induction false} UniqueFilter<T>(s: seq<T>, p: T -> bool)
    ensures Unique(Filter(s, p)) == Filter(Unique(s), p)
  {
    if |s| > 0 {
      var init := s[..|s| - 1];
      var x := s[|s| - 1];
      assert s == init + [x];
      FilterConcat(init, [x], p);
      FilterSpec(init, p);
      UniqueFilter(init, p);
      var u := Unique(init);
      var fi := Filter(init, p);
      if x in u {
        assert Unique(s) == u;
      } else {
        assert Unique(s) == u + [x];
        FilterConcat(u, [x], p);
      }
      if p(x) {
        assert Filter([x], p) == [x];
        assert Filter(s, p) == fi + [x];
        assert (fi + [x])[..|fi + [x]| - 1] == fi;
        assert x in Unique(fi) <==> x in u;
      } else {
        assert Filter([x], p) == [];
        assert Filter(s, p) == fi;
      }
    }
  }

  lemma FirstOccurrenceOrderTail<T>(r: seq<T>, s: seq<T>)
    requires |r| > 0 && FirstOccurrenceOrder(r, s)
    ensures FirstOccurrenceOrder(r[1..], s)
  {
    forall i, j | 0 <= i < j < |r[1..]|
      ensures Before(s, r[1..][i], r[1..][j])
    {
      assert r[1..][i] == r[i + 1] && r[1..][j] == r[j + 1];
    }
  }

  lemma FirstOccurrenceOrderCons<T>(x: T, r: seq<T>, s: seq<T>)
    requires FirstOccurrenceOrder(r, s)
    requires forall y :: y in r ==> Before(s, x, y)
    ensures FirstOccurrenceOrder([x] + r, s)
  {
    var f := [x] + r;
    forall i, j | 0 <= i < j < |f|
      ensures Before(s, f[i], f[j])
    {
      assert f[j] == r[j - 1];
      if i == 0 {
        assert r[j - 1] in r;
      } else {
        assert f[i] == r[i - 1];
      }
    }
  }

  /** Keeping some elements of a sequence keeps their first-occurrence order. */
  lemma {:induction false} FilterFirstOccurrenceOrder<T>(r: seq<T>, s: seq<T>, p: T -> bool)
    requires FirstOccurrenceOrder(r, s)
    ensures FirstOccurrenceOrder(Filter(r, p), s)
  {
    if |r| > 0 {
      FirstOccurrenceOrderTail(r, s);
      FilterFirstOccurrenceOrder(r[1..], s, p);
      if p(r[0]) {
        FilterSpec(r[1..], p);
        var rest := Filter(r[1..], p);
        forall y | y in rest
          ensures Before(s, r[0], y)
        {
          var k :| 0 <= k < |r[1..]| && r[1..][k] == y;
          assert r[k + 1] == y;
        }
        FirstOccurrenceOrderCons(r[0], rest, s);
      }
    }
  }

  /** The iteration behind `[...new Set(xs)]`: a `Set` answers membership and
      remembers insertion order. */
  method SpreadSet<T(==)>(xs: seq<T>) returns (r: seq<T>)
    ensures r == Unique(xs)
  {
    var seen: set<T> := {};
    r := [];
    var i := 0;
    while i < |xs|
      invariant 0 <= i <= |xs|
      invariant r == Unique(xs[..i])
      invariant seen == set x | x in r
    {
      assert xs[..i + 1][..i] == xs[..i];
      if xs[i] !in seen {
        seen := seen + {xs[i]};
        r := r + [xs[i]];
      }
      i := i + 1;
    }
    assert xs[..i] == xs;
  }
}
