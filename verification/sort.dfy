/** `Array.prototype.sort(cmp)`, which ECMAScript 2019 and later require to be
    stable, modelled as insertion sort: an element is placed before the first
    element it does not sort after, so equal elements keep their input order. */
module StableSort {
  import opened Seqs

  /** `le(a, b)`: `a` may come before `b` (for a comparator, `cmp(a, b) <= 0`).
      A consistent comparator makes this total and transitive. */
  ghost predicate TotalPreorder<T(!new)>(le: (T, T) -> bool) {
    && (forall a, b :: le(a, b) || le(b, a))
    && (forall a, b, c :: le(a, b) && le(b, c) ==> le(a, c))
  }

  predicate Sorted<T>(le: (T, T) -> bool, s: seq<T>) {
    forall i, j :: 0 <= i < j < |s| ==> le(s[i], s[j])
  }

  /** `p` picks out elements that are all tied with one another under `le`,
      such as the records whose Grade compares equal to a given grade. */
  ghost predicate TieClass<T(!new)>(le: (T, T) -> bool, p: T -> bool) {
    forall a, b :: p(a) && p(b) ==> le(a, b)
  }

  /** Inserts `x` into `s` before the first element it may precede. */
  function Insert<T>(le: (T, T) -> bool, x: T, s: seq<T>): (r: seq<T>)
    ensures multiset(r) == multiset(s) + multiset{x}
  {
    if |s| == 0 then [x]
    else if le(x, s[0]) then [x] + s
    else
      assert s == [s[0]] + s[1..];
      [s[0]] + Insert(le, x, s[1..])
  }

  /** The stable sort of `s` under `le`; it rearranges `s` without adding or losing elements. */
  function Sort<T>(le: (T, T) -> bool, s: seq<T>): (r: seq<T>)
    ensures multiset(r) == multiset(s)
  {
    if |s| == 0 then []
    else
      assert s == [s[0]] + s[1..];
      Insert(le, s[0], Sort(le, s[1..]))
  }

  /** Every element of `Insert(le, x, s)` is `x` or an element of `s`. */
  lemma InsertElements<T>(le: (T, T) -> bool, x: T, s: seq<T>, k: nat)
    requires k < |Insert(le, x, s)|
    ensures Insert(le, x, s)[k] == x || Insert(le, x, s)[k] in s
  {
    var t := Insert(le, x, s);
    assert t[k] in multiset(t);
  }

  lemma {:induction false} InsertSorted<T(!new)>(le: (T, T) -> bool, x: T, s: seq<T>)
    requires TotalPreorder(le) && Sorted(le, s)
    ensures Sorted(le, Insert(le, x, s))
  {
    if |s| > 0 {
      if le(x, s[0]) {
        InsertBeforeHead(le, x, s);
      } else {
        InsertSorted(le, x, s[1..]);
        InsertAfterHead(le, x, s);
      }
    }
  }

  lemma InsertBeforeHead<T(!new)>(le: (T, T) -> bool, x: T, s: seq<T>)
    requires TotalPreorder(le) && Sorted(le, s) && |s| > 0 && le(x, s[0])
    ensures Sorted(le, [x] + s)
  {
    var r := [x] + s;
    forall i, j | 0 <= i < j < |r|
      ensures le(r[i], r[j])
    {
      if i == 0 && j > 1 {
        assert le(s[0], s[j - 1]);
      }
    }
  }

  lemma InsertAfterHead<T(!new)>(le: (T, T) -> bool, x: T, s: seq<T>)
    requires TotalPreorder(le) && Sorted(le, s) && |s| > 0 && !le(x, s[0])
    requires Sorted(le, Insert(le, x, s[1..]))
    ensures Sorted(le, [s[0]] + Insert(le, x, s[1..]))
  {
    var t := Insert(le, x, s[1..]);
    var r := [s[0]] + t;
    forall k | 0 <= k < |t|
      ensures le(s[0], t[k])
    {
      InsertElements(le, x, s[1..], k);
      if t[k] != x {
        var m :| 0 <= m < |s[1..]| && s[1..][m] == t[k];
        assert s[m + 1] == t[k];
      }
    }
    forall i, j | 0 <= i < j < |r|
      ensures le(r[i], r[j])
    {
      if i == 0 {
        assert r[j] == t[j - 1];
      } else {
        assert r[i] == t[i - 1] && r[j] == t[j - 1];
      }
    }
  }

  /** The output of the sort is in order. */
  lemma {:induction false} SortSorted<T(!new)>(le: (T, T) -> bool, s: seq<T>)
    requires TotalPreorder(le)
    ensures Sorted(le, Sort(le, s))
  {
    if |s| > 0 {
      SortSorted(le, s[1..]);
      InsertSorted(le, s[0], Sort(le, s[1..]));
    }
  }

  lemma {:induction false} InsertKeepsTieOrder<T(!new)>(le: (T, T) -> bool, x: T, s: seq<T>, p: T -> bool)
    requires TieClass(le, p)
    ensures Filter(Insert(le, x, s), p) == Filter([x], p) + Filter(s, p)
  {
    if |s| > 0 && !le(x, s[0]) {
      InsertKeepsTieOrder(le, x, s[1..], p);
      assert !(p(x) && p(s[0]));
      FilterConcat([x], s[1..], p);
      assert [s[0]] + Insert(le, x, s[1..]) == Insert(le, x, s);
    } else if |s| > 0 {
      FilterConcat([x], s, p);
    }
  }

  /** Stability: the elements of any tie class come out of the sort in their input order. */
  lemma {:induction false} SortKeepsTieOrder<T(!new)>(le: (T, T) -> bool, s: seq<T>, p: T -> bool)
    requires TieClass(le, p)
    ensures Filter(Sort(le, s), p) == Filter(s, p)
  {
    if |s| > 0 {
      SortKeepsTieOrder(le, s[1..], p);
      InsertKeepsTieOrder(le, s[0], Sort(le, s[1..]), p);
      FilterConcat([s[0]], s[1..], p);
      assert s == [s[0]] + s[1..];
    }
  }
}
