/**
 * `ORDER BY` over query results: a comparator that is a total preorder, the
 * sortedness it induces, a stable insertion sort that meets it, and the text
 * order SQLite uses for `TEXT` columns.
 */
module Sorting {

  /** `before(a, b)`: `a` may come before `b`. Total and transitive. */
  ghost predicate TotalPreorder<T(!new)>(before: (T, T) -> bool) {
    && (forall a, b :: before(a, b) || before(b, a))
    && (forall a, b, c :: before(a, b) && before(b, c) ==> before(a, c))
  }

  predicate SortedBy<T>(s: seq<T>, before: (T, T) -> bool) {
    forall i, j :: 0 <= i < j < |s| ==> before(s[i], s[j])
  }

  /** Puts `x` in front of the first element it may precede. */
  function InsertSorted<T(!new)>(x: T, s: seq<T>, before: (T, T) -> bool): (r: seq<T>)
    requires TotalPreorder(before)
    requires SortedBy(s, before)
    ensures SortedBy(r, before)
    ensures multiset(r) == multiset(s) + multiset{x}
    ensures |r| == |s| + 1
  {
    if |s| == 0 then [x]
    else if before(x, s[0]) then [x] + s
    else
      var tail := InsertSorted(x, s[1..], before);
      assert s == [s[0]] + s[1..];
      assert forall y :: y in tail ==> before(s[0], y) by {
        forall y | y in tail ensures before(s[0], y) {
          assert y in multiset(tail);
          if y != x {
            assert y in multiset(s[1..]);
            var k :| 0 <= k < |s[1..]| && s[1..][k] == y;
            assert s[k + 1] == y;
          }
        }
      }
      [s[0]] + tail
  }

  /** A stable sort: equal elements keep their input order. */
  function Sort<T(!new)>(s: seq<T>, before: (T, T) -> bool): (r: seq<T>)
    requires TotalPreorder(before)
    ensures SortedBy(r, before)
    ensures multiset(r) == multiset(s)
    ensures |r| == |s|
    ensures forall x :: x in r <==> x in s
  {
    if |s| == 0 then []
    else
      assert s == [s[0]] + s[1..];
      var r := InsertSorted(s[0], Sort(s[1..], before), before);
      forall x ensures x in r <==> x in s {
        assert x in r <==> x in multiset(r);
        assert x in s <==> x in multiset(s);
      }
      r
  }

  lemma SortedTail<T>(s: seq<T>, before: (T, T) -> bool)
    requires |s| > 0 && SortedBy(s, before)
    ensures SortedBy(s[1..], before)
  {
    forall i, j | 0 <= i < j < |s| - 1 ensures before(s[1..][i], s[1..][j]) {
      assert before(s[i + 1], s[j + 1]);
    }
  }

  /** Two sorted permutations start with the same element when the order has no ties between distinct elements. */
  lemma HeadsAgree<T(!new)>(a: seq<T>, b: seq<T>, before: (T, T) -> bool)
    requires forall x, y :: x in a && y in a && before(x, y) && before(y, x) ==> x == y
    requires SortedBy(a, before) && SortedBy(b, before)
    requires multiset(a) == multiset(b) && |a| > 0
    ensures |b| > 0 && a[0] == b[0]
  {
    assert |b| == |multiset(b)| == |multiset(a)| == |a|;
    assert a[0] in multiset(b);
    assert b[0] in multiset(a);
    var k :| 0 <= k < |b| && b[k] == a[0];
    var m :| 0 <= m < |a| && a[m] == b[0];
    if k > 0 && m > 0 {
      assert before(b[0], b[k]);
      assert before(a[0], a[m]);
    }
  }

  /** Removing the same first element from two permutations leaves permutations. */
  lemma TailsPermute<T>(a: seq<T>, b: seq<T>)
    requires multiset(a) == multiset(b) && |a| > 0 && |b| > 0 && a[0] == b[0]
    ensures multiset(a[1..]) == multiset(b[1..])
  {
    assert a == [a[0]] + a[1..];
    assert b == [b[0]] + b[1..];
    assert multiset(a[1..]) == multiset(a) - multiset{a[0]};
    assert multiset(b[1..]) == multiset(b) - multiset{b[0]};
  }

  /** Under an order that tells any two distinct elements of `a` apart, the sorted permutation of `a` is unique. */
  lemma {:induction false} SortedPermutationUnique<T(!new)>(a: seq<T>, b: seq<T>, before: (T, T) -> bool)
    requires forall x, y :: x in a && y in a && before(x, y) && before(y, x) ==> x == y
    requires SortedBy(a, before) && SortedBy(b, before)
    requires multiset(a) == multiset(b)
    ensures a == b
  {
    if |a| > 0 {
      HeadsAgree(a, b, before);
      TailsPermute(a, b);
      SortedTail(a, before);
      SortedTail(b, before);
      assert forall x :: x in a[1..] ==> x in a;
      SortedPermutationUnique(a[1..], b[1..], before);
      assert a == [a[0]] + a[1..];
      assert b == [b[0]] + b[1..];
    } else {
      assert |b| == |multiset(b)| == 0;
    }
  }

  // ---------------------------------------------------------------------------
  // Text order (SQLite compares TEXT values with memcmp over UTF-8, which
  // orders strings the same way as their code points)
  // ---------------------------------------------------------------------------

  predicate LexLeq(a: string, b: string) {
    |a| == 0 || (|b| > 0 && (a[0] < b[0] || (a[0] == b[0] && LexLeq(a[1..], b[1..]))))
  }

  lemma {:induction false} LexLeqTotal(a: string, b: string)
    ensures LexLeq(a, b) || LexLeq(b, a)
  {
    if |a| > 0 && |b| > 0 && a[0] == b[0] {
      LexLeqTotal(a[1..], b[1..]);
    }
  }

  lemma {:induction false} LexLeqTrans(a: string, b: string, c: string)
    requires LexLeq(a, b) && LexLeq(b, c)
    ensures LexLeq(a, c)
  {
    if |a| > 0 && a[0] == b[0] && b[0] == c[0] {
      LexLeqTrans(a[1..], b[1..], c[1..]);
    }
  }

  lemma {:induction false} LexLeqAntisym(a: string, b: string)
    requires LexLeq(a, b) && LexLeq(b, a)
    ensures a == b
  {
    if |a| > 0 {
      LexLeqAntisym(a[1..], b[1..]);
      assert a == [a[0]] + a[1..];
      assert b == [b[0]] + b[1..];
    }
  }

  /** Ordering by a text column, largest first (`ORDER BY col DESC`). */
  function DescBy<T>(key: T -> string): (T, T) -> bool {
    (x: T, y: T) => LexLeq(key(y), key(x))
  }

  lemma DescByIsPreorder<T(!new)>(key: T -> string)
    ensures TotalPreorder(DescBy(key))
  {
    forall x: T, y: T ensures LexLeq(key(y), key(x)) || LexLeq(key(x), key(y)) {
      LexLeqTotal(key(x), key(y));
    }
    forall x: T, y: T, z: T | LexLeq(key(y), key(x)) && LexLeq(key(z), key(y))
      ensures LexLeq(key(z), key(x))
    {
      LexLeqTrans(key(z), key(y), key(x));
    }
  }

  /** Ordering by a text column, smallest first (`ORDER BY col`). */
  function AscBy<T>(key: T -> string): (T, T) -> bool {
    (x: T, y: T) => LexLeq(key(x), key(y))
  }

  lemma AscByIsPreorder<T(!new)>(key: T -> string)
    ensures TotalPreorder(AscBy(key))
  {
    forall x: T, y: T ensures LexLeq(key(x), key(y)) || LexLeq(key(y), key(x)) {
      LexLeqTotal(key(x), key(y));
    }
    forall x: T, y: T, z: T | LexLeq(key(x), key(y)) && LexLeq(key(y), key(z))
      ensures LexLeq(key(x), key(z))
    {
      LexLeqTrans(key(x), key(y), key(z));
    }
  }
}
