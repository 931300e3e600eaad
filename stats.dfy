/** pandas' NaN-skipping aggregates over a numeric column: `dropna()`, `mean()`
    and `median()`. A column is a sequence of optional reals (`None` = NaN). */
module Stats {
  import opened Wrappers
  import Sorting

  /** `dropna()`: the present values, in column order. */
  function Present(col: seq<Option<real>>): (r: seq<real>)
    ensures |r| <= |col|
  {
    if col == [] then []
    else
      var rest := Present(col[1..]);
      if col[0].Some? then [col[0].value] + rest else rest
  }

  /** `dropna()` keeps each present value as often as the column holds it. */
  lemma {:induction false} PresentCounts(col: seq<Option<real>>)
    ensures forall x :: multiset(Present(col))[x] == multiset(col)[Some(x)]
  {
    if col != [] {
      PresentCounts(col[1..]);
      assert col == [col[0]] + col[1..];
    }
  }

  /** The present values are exactly the values of the column's `Some` entries. */
  lemma {:induction false} PresentMembers(col: seq<Option<real>>, x: real)
    ensures x in Present(col) <==> Some(x) in col
  {
    if col != [] {
      PresentMembers(col[1..], x);
      assert col == [col[0]] + col[1..];
    }
  }

  /** A column has no present value exactly when every entry is missing. */
  lemma {:induction false} PresentEmpty(col: seq<Option<real>>)
    ensures Present(col) == [] <==> forall i :: 0 <= i < |col| ==> col[i].None?
  {
    if col != [] {
      PresentEmpty(col[1..]);
      assert forall i :: 1 <= i < |col| ==> col[i] == col[1..][i - 1];
    }
  }

  function Sum(xs: seq<real>): real {
    if xs == [] then 0.0 else Sum(xs[..|xs| - 1]) + xs[|xs| - 1]
  }

  /** Every value lies in [lo, hi]. */
  predicate Within(xs: seq<real>, lo: real, hi: real) {
    forall i :: 0 <= i < |xs| ==> lo <= xs[i] <= hi
  }

  /** The sum of `n` values that all lie in [lo, hi] lies in [n * lo, n * hi]. */
  lemma {:induction false} SumWithin(xs: seq<real>, lo: real, hi: real)
    requires Within(xs, lo, hi)
    ensures |xs| as real * lo <= Sum(xs) <= |xs| as real * hi
  {
    if xs != [] {
      var k := |xs| - 1;
      SumWithin(xs[..k], lo, hi);
      MulStep(k, lo);
      MulStep(k, hi);
    }
  }

  lemma MulStep(k: nat, a: real)
    ensures (k + 1) as real * a == k as real * a + a
  {
  }

  /** `mean()` of the present values; NaN (None) when there are none. */
  function Mean(xs: seq<real>): (r: Option<real>)
    ensures r.Some? <==> |xs| > 0
    ensures r.Some? ==> r.value * |xs| as real == Sum(xs)
  {
    if |xs| == 0 then None else Some(Sum(xs) / |xs| as real)
  }

  /** A mean never leaves the range of the values it averages. */
  lemma MeanWithin(xs: seq<real>, lo: real, hi: real)
    requires |xs| > 0 && Within(xs, lo, hi)
    ensures lo <= Mean(xs).value <= hi
  {
    SumWithin(xs, lo, hi);
    var n := |xs| as real;
    var m := Mean(xs).value;
    assert m * n == Sum(xs);
    assert m * n >= lo * n;
    assert m * n <= hi * n;
  }

  function Identity(x: real): real { x }

  /** `median()` of the present values: the middle of the sorted values, or the
      mean of the two middle ones when their number is even; None when there are none. */
  function Median(xs: seq<real>): (r: Option<real>)
    ensures r.Some? <==> |xs| > 0
    ensures |xs| % 2 == 1 ==> r.value == Sorting.Sort(xs, Identity)[|xs| / 2]
    ensures |xs| > 0 && |xs| % 2 == 0 ==>
      2.0 * r.value == Sorting.Sort(xs, Identity)[|xs| / 2 - 1] + Sorting.Sort(xs, Identity)[|xs| / 2]
  {
    if |xs| == 0 then None
    else
      var ys := Sorting.Sort(xs, Identity);
      var n := |xs|;
      var half := n / 2;
      assert |ys| == n && half < n;
      if n % 2 == 1 then Some(ys[half])
      else
        assert 1 <= half;
        Some((ys[half - 1] + ys[half]) / 2.0)
  }

  /** A median never leaves the range of the values; for an odd count it is one of them. */
  lemma MedianWithin(xs: seq<real>, lo: real, hi: real)
    requires |xs| > 0 && Within(xs, lo, hi)
    ensures lo <= Median(xs).value <= hi
    ensures |xs| % 2 == 1 ==> Median(xs).value in xs
  {
    var ys := Sorting.Sort(xs, Identity);
    Sorting.PermutationMembers(xs, ys);
    assert forall i :: 0 <= i < |ys| ==> ys[i] in xs;
  }

  /** The middle element of the sorted values splits them: at least half are not
      above the median and at least half are not below it. */
  lemma MedianSplits(xs: seq<real>)
    requires |xs| > 0
    ensures var ys := Sorting.Sort(xs, Identity);
      var m := Median(xs).value;
      (forall i :: 0 <= i <= (|ys| - 1) / 2 ==> ys[i] <= m) &&
      (forall i :: |ys| / 2 <= i < |ys| ==> m <= ys[i])
  {
    var ys := Sorting.Sort(xs, Identity);
    var n := |ys|;
    var m := Median(xs).value;
    assert Sorting.SortedBy(ys, Identity);
    if n % 2 == 1 {
      assert m == ys[n / 2];
      forall i | 0 <= i <= (n - 1) / 2 ensures ys[i] <= m {
        assert i == n / 2 || Identity(ys[i]) <= Identity(ys[n / 2]);
      }
      forall i | n / 2 <= i < n ensures m <= ys[i] {
        assert i == n / 2 || Identity(ys[n / 2]) <= Identity(ys[i]);
      }
    } else {
      assert Identity(ys[n / 2 - 1]) <= Identity(ys[n / 2]);
      forall i | 0 <= i <= (n - 1) / 2 ensures ys[i] <= m {
        assert i == n / 2 - 1 || Identity(ys[i]) <= Identity(ys[n / 2 - 1]);
      }
      forall i | n / 2 <= i < n ensures m <= ys[i] {
        assert i == n / 2 || Identity(ys[n / 2]) <= Identity(ys[i]);
      }
    }
  }
}
