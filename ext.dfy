/** Real numbers extended with the two infinities.  The search starts its
    accumulators at float('-inf') / float('inf') and opens the alpha-beta
    window as (-inf, +inf); every value an evaluation function returns is
    finite. */
module ExtReal {

  datatype Ext = NegInf | Fin(v: real) | PosInf

  /** The total order -inf < every real < +inf. */
  predicate Le(x: Ext, y: Ext) {
    x.NegInf? || y.PosInf? || (x.Fin? && y.Fin? && x.v <= y.v)
  }

  predicate Lt(x: Ext, y: Ext) {
    !Le(y, x)
  }

  /** Python's max(x, y). */
  function Max(x: Ext, y: Ext): (r: Ext)
    ensures Le(x, r) && Le(y, r)
    ensures r == x || r == y
  {
    if Le(x, y) then y else x
  }

  /** Python's min(x, y). */
  function Min(x: Ext, y: Ext): (r: Ext)
    ensures Le(r, x) && Le(r, y)
    ensures r == x || r == y
  {
    if Le(x, y) then x else y
  }

  /** The running maximum of a left-to-right loop that starts at -inf:
      -inf for no values, otherwise the largest of them. */
  function MaxFold(xs: seq<real>): (r: Ext)
    ensures xs == [] <==> r == NegInf
    ensures xs != [] ==> r.Fin? && r.v in xs && forall x :: x in xs ==> x <= r.v
  {
    if xs == [] then NegInf
    else
      var init := xs[..|xs| - 1];
      assert xs == init + [xs[|xs| - 1]];
      Max(MaxFold(init), Fin(xs[|xs| - 1]))
  }

  /** The running minimum of a left-to-right loop that starts at +inf:
      +inf for no values, otherwise the smallest of them. */
  function MinFold(xs: seq<real>): (r: Ext)
    ensures xs == [] <==> r == PosInf
    ensures xs != [] ==> r.Fin? && r.v in xs && forall x :: x in xs ==> r.v <= x
  {
    if xs == [] then PosInf
    else
      var init := xs[..|xs| - 1];
      assert xs == init + [xs[|xs| - 1]];
      Min(MinFold(init), Fin(xs[|xs| - 1]))
  }

  /** The running total of a left-to-right loop that starts at 0.0. */
  function Sum(xs: seq<real>): real
  {
    if xs == [] then 0.0 else Sum(xs[..|xs| - 1]) + xs[|xs| - 1]
  }

  /** The maximum over a prefix never exceeds the maximum over the whole. */
  lemma MaxFoldPrefix(xs: seq<real>, i: nat)
    requires i <= |xs|
    ensures Le(MaxFold(xs[..i]), MaxFold(xs))
  {
    if i > 0 {
      var p := MaxFold(xs[..i]).v;
      assert p in xs;
    }
  }

  /** The minimum over a prefix is never below the minimum over the whole. */
  lemma MinFoldPrefix(xs: seq<real>, i: nat)
    requires i <= |xs|
    ensures Le(MinFold(xs), MinFold(xs[..i]))
  {
    if i > 0 {
      var p := MinFold(xs[..i]).v;
      assert p in xs;
    }
  }

  /** Raising every value never lowers the maximum. */
  lemma MaxFoldMonotone(xs: seq<real>, ys: seq<real>)
    requires |xs| == |ys| && xs != []
    requires forall i :: 0 <= i < |xs| ==> xs[i] <= ys[i]
    ensures MaxFold(xs).v <= MaxFold(ys).v
  {
    var i :| 0 <= i < |xs| && xs[i] == MaxFold(xs).v;
    assert ys[i] in ys;
  }

  /** Raising every value never lowers the minimum. */
  lemma MinFoldMonotone(xs: seq<real>, ys: seq<real>)
    requires |xs| == |ys| && xs != []
    requires forall i :: 0 <= i < |xs| ==> xs[i] <= ys[i]
    ensures MinFold(xs).v <= MinFold(ys).v
  {
    var j :| 0 <= j < |ys| && ys[j] == MinFold(ys).v;
    assert xs[j] in xs;
  }

  /** A total of n values that all lie in [lo, hi] lies in [n * lo, n * hi]. */
  lemma {:induction false} SumBounds(xs: seq<real>, lo: real, hi: real)
    requires forall x :: x in xs ==> lo <= x <= hi
    ensures |xs| as real * lo <= Sum(xs) <= |xs| as real * hi
  {
    if xs != [] {
      var init := xs[..|xs| - 1];
      assert forall x :: x in init ==> x in xs;
      SumBounds(init, lo, hi);
      assert xs[|xs| - 1] in xs;
    }
  }

  /** Raising every value never lowers the total. */
  lemma {:induction false} SumMonotone(xs: seq<real>, ys: seq<real>)
    requires |xs| == |ys|
    requires forall i :: 0 <= i < |xs| ==> xs[i] <= ys[i]
    ensures Sum(xs) <= Sum(ys)
  {
    if xs != [] {
      var n := |xs| - 1;
      SumMonotone(xs[..n], ys[..n]);
    }
  }

  /** Dividing a total that lies in [n * lo, n * hi] by n > 0 gives a value in [lo, hi]. */
  lemma DivideBounds(total: real, n: real, lo: real, hi: real)
    requires n > 0.0 && n * lo <= total <= n * hi
    ensures lo <= total / n <= hi
  {
    var m := total / n;
    assert total == n * m;
    assert n * (m - lo) >= 0.0;
    assert n * (hi - m) >= 0.0;
  }

  /** The mean of values that all lie in [lo, hi] lies in [lo, hi]. */
  lemma MeanWithin(xs: seq<real>, lo: real, hi: real)
    requires xs != []
    requires forall x :: x in xs ==> lo <= x <= hi
    ensures lo <= Sum(xs) / |xs| as real <= hi
  {
    SumBounds(xs, lo, hi);
    DivideBounds(Sum(xs), |xs| as real, lo, hi);
  }

  /** The arithmetic mean lies between the smallest and the largest value. */
  lemma MeanBetween(xs: seq<real>)
    requires xs != []
    ensures MinFold(xs).v <= Sum(xs) / |xs| as real <= MaxFold(xs).v
  {
    MeanWithin(xs, MinFold(xs).v, MaxFold(xs).v);
  }
}
