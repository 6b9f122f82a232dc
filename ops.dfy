/** The elementwise operations the routines compose into expression trees (scalar
    product, elementwise sum and product, square, absolute value), applied to the
    logical contents of views, and the reference reductions built from them. */
module Ops {
  import opened Reduction

  function Abs(x: int): int { if x < 0 then -x else x }

  /** ScalarOp(prd, alpha, v): every element multiplied by alpha. */
  function Scaled(alpha: int, s: seq<int>): (r: seq<int>)
    ensures |r| == |s|
    ensures forall i :: 0 <= i < |s| ==> r[i] == alpha * s[i]
  {
    seq(|s|, i requires 0 <= i < |s| => alpha * s[i])
  }

  /** BinaryOp(add, ys, ScalarOp(prd, alpha, xs)): the right-hand side of axpy. */
  function AxpyValues(alpha: int, xs: seq<int>, ys: seq<int>): (r: seq<int>)
    requires |xs| == |ys|
    ensures |r| == |xs|
    ensures forall i :: 0 <= i < |xs| ==> r[i] == ys[i] + alpha * xs[i]
  {
    seq(|xs|, i requires 0 <= i < |xs| => ys[i] + alpha * xs[i])
  }

  /** c*x + s*y elementwise: the first output of a plane rotation. */
  function RotFirst(c: int, s: int, xs: seq<int>, ys: seq<int>): (r: seq<int>)
    requires |xs| == |ys|
    ensures |r| == |xs|
    ensures forall i :: 0 <= i < |xs| ==> r[i] == c * xs[i] + s * ys[i]
  {
    seq(|xs|, i requires 0 <= i < |xs| => c * xs[i] + s * ys[i])
  }

  /** -s*x + c*y elementwise: the second output of a plane rotation. */
  function RotSecond(c: int, s: int, xs: seq<int>, ys: seq<int>): (r: seq<int>)
    requires |xs| == |ys|
    ensures |r| == |xs|
    ensures forall i :: 0 <= i < |xs| ==> r[i] == -s * xs[i] + c * ys[i]
  {
    seq(|xs|, i requires 0 <= i < |xs| => -s * xs[i] + c * ys[i])
  }

  /** BinaryOp(prd, u, v). */
  function Products(u: seq<int>, v: seq<int>): (r: seq<int>)
    requires |u| == |v|
    ensures |r| == |u|
    ensures forall i :: 0 <= i < |u| ==> r[i] == u[i] * v[i]
  {
    seq(|u|, i requires 0 <= i < |u| => u[i] * v[i])
  }

  /** UnaryOp(prd): every element squared. */
  function Squares(s: seq<int>): (r: seq<int>)
    ensures |r| == |s|
    ensures forall i :: 0 <= i < |s| ==> r[i] == s[i] * s[i]
  {
    seq(|s|, i requires 0 <= i < |s| => s[i] * s[i])
  }

  function Absolutes(s: seq<int>): (r: seq<int>)
    ensures |r| == |s|
    ensures forall i :: 0 <= i < |s| ==> r[i] == Abs(s[i])
  {
    seq(|s|, i requires 0 <= i < |s| => Abs(s[i]))
  }

  /** Reference inner product: the sum of u[i] * v[i]. */
  function DotProduct(u: seq<int>, v: seq<int>): int
    requires |u| == |v|
  {
    Sum(Products(u, v))
  }

  /** Reference sum of absolute values. */
  function AbsSum(s: seq<int>): int
  {
    Sum(Absolutes(s))
  }

  /** Reference sum of squares (the value nrm2 takes the square root of). */
  function SumOfSquares(s: seq<int>): int
  {
    Sum(Squares(s))
  }

  predicate AllZero(s: seq<int>)
  {
    forall i :: 0 <= i < |s| ==> s[i] == 0
  }

  lemma DotSymmetric(u: seq<int>, v: seq<int>)
    requires |u| == |v|
    ensures DotProduct(u, v) == DotProduct(v, u)
  {
    assert Products(u, v) == Products(v, u);
  }

  /** The squared norm is the inner product of a vector with itself. */
  lemma SumOfSquaresIsSelfDot(s: seq<int>)
    ensures SumOfSquares(s) == DotProduct(s, s)
  {
    assert Squares(s) == Products(s, s);
  }

  lemma AbsSumProperties(s: seq<int>)
    ensures AbsSum(s) >= 0
    ensures AbsSum(s) == 0 <==> AllZero(s)
  {
    var t := Absolutes(s);
    SumNonNegative(t);
    SumZeroIff(t);
  }

  lemma SumOfSquaresProperties(s: seq<int>)
    ensures SumOfSquares(s) >= 0
    ensures SumOfSquares(s) == 0 <==> AllZero(s)
  {
    var t := Squares(s);
    forall i | 0 <= i < |s| ensures t[i] >= 0 && (t[i] == 0 <==> s[i] == 0) {
      if s[i] < 0 {
        assert s[i] * s[i] == (-s[i]) * (-s[i]);
      }
    }
    SumNonNegative(t);
    SumZeroIff(t);
  }

  /** Extending both vectors by one element adds that element's product. */
  lemma DotSnoc(u: seq<int>, v: seq<int>, a: int, b: int)
    requires |u| == |v|
    ensures DotProduct(u + [a], v + [b]) == DotProduct(u, v) + a * b
  {
    assert Products(u + [a], v + [b]) == Products(u, v) + [a * b];
    SumAppend(Products(u, v), [a * b]);
  }

  /** The inner product splits at any point k. */
  lemma DotSplit(u: seq<int>, v: seq<int>, k: nat)
    requires |u| == |v| && k <= |u|
    ensures DotProduct(u, v) == DotProduct(u[..k], v[..k]) + DotProduct(u[k..], v[k..])
  {
    assert Products(u, v) == Products(u[..k], v[..k]) + Products(u[k..], v[k..]);
    SumAppend(Products(u[..k], v[..k]), Products(u[k..], v[k..]));
  }
}
