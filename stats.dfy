/**
 * The average both scripts take: `numpy.nanmean` along a stack of rasters and the
 * `mean()` of a pandas group. Both skip missing values (NaN, modelled as None) and
 * give a missing value when nothing is left to average.
 */
module Stats {
  import opened Wrappers

  /** The values that are present, in order. */
  function Present(vs: seq<Option<real>>): (r: seq<real>)
    ensures |r| <= |vs|
    ensures forall x :: x in r <==> Some(x) in vs
    ensures |r| == 0 <==> forall i :: 0 <= i < |vs| ==> vs[i].None?
  {
    if vs == [] then []
    else
      var rest := Present(vs[1..]);
      assert forall i :: 1 <= i < |vs| ==> vs[i] == vs[1..][i - 1];
      assert forall x :: Some(x) in vs <==> vs[0] == Some(x) || Some(x) in vs[1..];
      if vs[0].Some? then [vs[0].value] + rest else rest
  }

  function Sum(xs: seq<real>): real {
    if xs == [] then 0.0 else xs[0] + Sum(xs[1..])
  }

  /** nanmean: the mean of the present values, None when there is none. */
  function MeanOfPresent(vs: seq<Option<real>>): (r: Option<real>)
    ensures r.None? <==> forall i :: 0 <= i < |vs| ==> vs[i].None?
  {
    var xs := Present(vs);
    if |xs| == 0 then None else Some(Mean(xs))
  }

  /** The arithmetic mean of a non-empty list. */
  function Mean(xs: seq<real>): real
    requires xs != []
  {
    Sum(xs) / (|xs| as real)
  }

  /** The mean of values within [lo, hi] is within [lo, hi]. */
  lemma MeanWithin(xs: seq<real>, lo: real, hi: real)
    requires xs != [] && forall x :: x in xs ==> lo <= x <= hi
    ensures lo <= Mean(xs) <= hi
  {
    SumBetween(xs, lo, hi);
    DivideBetween(Sum(xs), |xs| as real, lo, hi);
  }

  /** The mean of values at most hi is at most hi. */
  lemma MeanNotAbove(xs: seq<real>, hi: real)
    requires xs != [] && forall x :: x in xs ==> x <= hi
    ensures Mean(xs) <= hi
  {
    SumAtMost(xs, hi);
    DivideAtMost(Sum(xs), |xs| as real, hi);
  }

  lemma {:induction false} SumBetween(xs: seq<real>, lo: real, hi: real)
    requires forall x :: x in xs ==> lo <= x <= hi
    ensures lo * (|xs| as real) <= Sum(xs) <= hi * (|xs| as real)
  {
    if xs != [] {
      assert xs[0] in xs;
      assert forall x :: x in xs[1..] ==> x in xs;
      SumBetween(xs[1..], lo, hi);
    }
  }

  /** The mean lies between the smallest and the largest value that was averaged. */
  lemma MeanBetween(vs: seq<Option<real>>, lo: real, hi: real)
    requires forall i :: 0 <= i < |vs| && vs[i].Some? ==> lo <= vs[i].value <= hi
    requires exists i :: 0 <= i < |vs| && vs[i].Some?
    ensures MeanOfPresent(vs).Some? && lo <= MeanOfPresent(vs).value <= hi
  {
    assert |Present(vs)| > 0 by {
      var i :| 0 <= i < |vs| && vs[i].Some?;
    }
    PresentWithin(vs, lo, hi);
    MeanWithin(Present(vs), lo, hi);
  }

  /** Bounds on the values carry over to the present values. */
  lemma PresentWithin(vs: seq<Option<real>>, lo: real, hi: real)
    requires forall i :: 0 <= i < |vs| && vs[i].Some? ==> lo <= vs[i].value <= hi
    ensures forall x :: x in Present(vs) ==> lo <= x <= hi
  {
    forall x | x in Present(vs) ensures lo <= x <= hi {
      var i :| 0 <= i < |vs| && vs[i] == Some(x);
    }
  }

  lemma DivideBetween(s: real, n: real, lo: real, hi: real)
    requires n > 0.0 && lo * n <= s <= hi * n
    ensures lo <= s / n <= hi
  {
    var m := s / n;
    assert m * n == s;
  }

  /** Values that all agree average to that value, however many are missing. */
  lemma MeanOfConstant(vs: seq<Option<real>>, c: real)
    requires forall i :: 0 <= i < |vs| && vs[i].Some? ==> vs[i].value == c
    requires exists i :: 0 <= i < |vs| && vs[i].Some?
    ensures MeanOfPresent(vs) == Some(c)
  {
    assert |Present(vs)| > 0 by {
      var i :| 0 <= i < |vs| && vs[i].Some?;
    }
    PresentWithin(vs, c, c);
    MeanWithin(Present(vs), c, c);
  }

  lemma {:induction false} PresentAppend(a: seq<Option<real>>, b: seq<Option<real>>)
    ensures Present(a + b) == Present(a) + Present(b)
  {
    if a != [] {
      assert (a + b)[1..] == a[1..] + b;
      PresentAppend(a[1..], b);
    } else {
      assert a + b == b;
    }
  }

  lemma PresentSkipsMissing(a: seq<Option<real>>, b: seq<Option<real>>)
    ensures Present(a + [None] + b) == Present(a + b)
  {
    var none: seq<Option<real>> := [None];
    assert Present(none) == [] by {
      assert none[1..] == [];
    }
    PresentAppend(a, [None]);
    assert Present(a + [None]) == Present(a) + [];
    assert Present(a) + [] == Present(a);
    PresentAppend(a + [None], b);
    PresentAppend(a, b);
  }

  /** A missing value changes no mean: NaN is skipped, not counted as zero. */
  lemma MeanSkipsMissing(a: seq<Option<real>>, b: seq<Option<real>>)
    ensures MeanOfPresent(a + [None] + b) == MeanOfPresent(a + b)
  {
    PresentSkipsMissing(a, b);
  }

  lemma {:induction false} SumAtMost(xs: seq<real>, hi: real)
    requires forall x :: x in xs ==> x <= hi
    ensures Sum(xs) <= hi * (|xs| as real)
  {
    if xs != [] {
      assert xs[0] in xs;
      assert forall x :: x in xs[1..] ==> x in xs;
      SumAtMost(xs[1..], hi);
    }
  }

  /** No value above `hi` was averaged, so the mean is not above `hi` either. */
  lemma MeanAtMost(vs: seq<Option<real>>, hi: real)
    requires forall i :: 0 <= i < |vs| && vs[i].Some? ==> vs[i].value <= hi
    ensures MeanOfPresent(vs).Some? ==> MeanOfPresent(vs).value <= hi
  {
    var xs := Present(vs);
    if xs != [] {
      forall x | x in xs ensures x <= hi {
        var i :| 0 <= i < |vs| && vs[i] == Some(x);
      }
      MeanNotAbove(xs, hi);
    }
  }

  lemma DivideAtMost(s: real, n: real, hi: real)
    requires n > 0.0 && s <= hi * n
    ensures s / n <= hi
  {
    var m := s / n;
    assert m * n == s;
    assert (m - hi) * n == m * n - hi * n;
  }
}
