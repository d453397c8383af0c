/**
 * Orders used by pandas' sorting: `sorted(...)` on strings, `groupby` on
 * integer and string keys. Python compares strings code point by code point,
 * which is Dafny's order on `char`.
 */
module Order {

  /** `lt` is irreflexive, transitive and total on distinct elements. */
  ghost predicate StrictTotalOrder<K(!new)>(lt: (K, K) -> bool)
  {
    && (forall a :: !lt(a, a))
    && (forall a, b, c :: lt(a, b) && lt(b, c) ==> lt(a, c))
    && (forall a, b :: a != b ==> lt(a, b) || lt(b, a))
  }

  predicate IntLess(a: int, b: int)
  {
    a < b
  }

  /** Lexicographic order on strings: a proper prefix comes first. */
  predicate StrLess(a: string, b: string)
    decreases |a|
  {
    if a == [] then b != []
    else if b == [] then false
    else if a[0] != b[0] then a[0] < b[0]
    else StrLess(a[1..], b[1..])
  }

  lemma IntLessIsStrictTotalOrder()
    ensures StrictTotalOrder(IntLess)
  {
  }

  lemma {:induction false} StrLessIrreflexive(a: string)
    ensures !StrLess(a, a)
    decreases |a|
  {
    if a != [] {
      StrLessIrreflexive(a[1..]);
    }
  }

  lemma {:induction false} StrLessTransitive(a: string, b: string, c: string)
    requires StrLess(a, b) && StrLess(b, c)
    ensures StrLess(a, c)
    decreases |a|
  {
    if a != [] && b != [] && c != [] && a[0] == b[0] && b[0] == c[0] {
      StrLessTransitive(a[1..], b[1..], c[1..]);
    }
  }

  lemma {:induction false} StrLessTotal(a: string, b: string)
    requires a != b
    ensures StrLess(a, b) || StrLess(b, a)
    decreases |a|
  {
    if a != [] && b != [] && a[0] == b[0] {
      assert a == [a[0]] + a[1..] && b == [b[0]] + b[1..];
      StrLessTotal(a[1..], b[1..]);
    }
  }

  lemma StrLessIsStrictTotalOrder()
    ensures StrictTotalOrder(StrLess)
  {
    forall a: string ensures !StrLess(a, a) {
      StrLessIrreflexive(a);
    }
    forall a: string, b: string, c: string | StrLess(a, b) && StrLess(b, c) ensures StrLess(a, c) {
      StrLessTransitive(a, b, c);
    }
    forall a: string, b: string | a != b ensures StrLess(a, b) || StrLess(b, a) {
      StrLessTotal(a, b);
    }
  }

  /**
   * Comparing two strings that start with pieces of equal length compares the
   * pieces first and the remainders only on a tie.
   */
  lemma {:induction false} StrLessAppend(x1: string, x2: string, y1: string, y2: string)
    requires |x1| == |y1|
    ensures StrLess(x1 + x2, y1 + y2) <==> StrLess(x1, y1) || (x1 == y1 && StrLess(x2, y2))
    decreases |x1|
  {
    if x1 == [] {
      assert x1 + x2 == x2 && y1 + y2 == y2;
    } else {
      assert (x1 + x2)[0] == x1[0] && (x1 + x2)[1..] == x1[1..] + x2;
      assert (y1 + y2)[0] == y1[0] && (y1 + y2)[1..] == y1[1..] + y2;
      StrLessAppend(x1[1..], x2, y1[1..], y2);
      if x1[0] == y1[0] {
        assert x1 == y1 <==> x1[1..] == y1[1..] by {
          assert x1 == [x1[0]] + x1[1..] && y1 == [y1[0]] + y1[1..];
        }
      }
    }
  }

  ghost predicate StrictlyAscending<K>(xs: seq<K>, lt: (K, K) -> bool)
  {
    forall i, j :: 0 <= i < j < |xs| ==> lt(xs[i], xs[j])
  }

  lemma AscendingCons<K>(x: K, xs: seq<K>, lt: (K, K) -> bool)
    requires forall y :: y in xs ==> lt(x, y)
    requires StrictlyAscending(xs, lt)
    ensures StrictlyAscending([x] + xs, lt)
  {
    var s := [x] + xs;
    forall i, j | 0 <= i < j < |s| ensures lt(s[i], s[j]) {
      assert s[j] == xs[j - 1];
      if i > 0 {
        assert s[i] == xs[i - 1];
      }
    }
  }

  /** Inserts `k` into a strictly ascending list unless it is already there. */
  function InsertDistinct<K(==)>(xs: seq<K>, k: K, lt: (K, K) -> bool): seq<K>
    decreases |xs|
  {
    if xs == [] then [k]
    else if xs[0] == k then xs
    else if lt(k, xs[0]) then [k] + xs
    else [xs[0]] + InsertDistinct(xs[1..], k, lt)
  }

  lemma {:induction false} InsertDistinctCorrect<K(!new)>(xs: seq<K>, k: K, lt: (K, K) -> bool)
    requires StrictTotalOrder(lt)
    requires StrictlyAscending(xs, lt)
    ensures StrictlyAscending(InsertDistinct(xs, k, lt), lt)
    ensures forall y :: y in InsertDistinct(xs, k, lt) <==> y in xs || y == k
    decreases |xs|
  {
    if xs == [] {
    } else if xs[0] == k {
    } else if lt(k, xs[0]) {
      forall y | y in xs ensures lt(k, y) {
        var j :| 0 <= j < |xs| && xs[j] == y;
        if j > 0 {
          assert lt(xs[0], xs[j]);
        }
      }
      AscendingCons(k, xs, lt);
    } else {
      var rest := InsertDistinct(xs[1..], k, lt);
      InsertDistinctCorrect(xs[1..], k, lt);
      forall y | y in rest ensures lt(xs[0], y) {
        if y != k {
          var j :| 0 <= j < |xs[1..]| && xs[1..][j] == y;
          assert xs[j + 1] == y;
        }
      }
      assert xs == [xs[0]] + xs[1..];
      AscendingCons(xs[0], rest, lt);
    }
  }

  /** The distinct elements of `xs`, ascending: Python's `sorted(set(xs))`. */
  function SortedDistinct<K(!new, ==)>(xs: seq<K>, lt: (K, K) -> bool): (ys: seq<K>)
    requires StrictTotalOrder(lt)
    ensures StrictlyAscending(ys, lt)
    ensures forall y :: y in ys <==> y in xs
    decreases |xs|
  {
    if xs == [] then []
    else
      var rest := SortedDistinct(xs[1..], lt);
      InsertDistinctCorrect(rest, xs[0], lt);
      assert forall y :: y in xs <==> y == xs[0] || y in xs[1..];
      InsertDistinct(rest, xs[0], lt)
  }

  /** The smallest element: pandas' `Series.min()` on a column without gaps. */
  function MinOf(xs: seq<int>): (m: int)
    requires |xs| > 0
    ensures m in xs
    ensures forall x :: x in xs ==> m <= x
    decreases |xs|
  {
    if |xs| == 1 then xs[0]
    else
      var rest := MinOf(xs[1..]);
      assert forall x :: x in xs ==> x == xs[0] || x in xs[1..];
      if xs[0] <= rest then xs[0] else rest
  }

  /** The largest element: pandas' `Series.max()` on a column without gaps. */
  function MaxOf(xs: seq<int>): (m: int)
    requires |xs| > 0
    ensures m in xs
    ensures forall x :: x in xs ==> x <= m
    decreases |xs|
  {
    if |xs| == 1 then xs[0]
    else
      var rest := MaxOf(xs[1..]);
      assert forall x :: x in xs ==> x == xs[0] || x in xs[1..];
      if rest <= xs[0] then xs[0] else rest
  }
}
