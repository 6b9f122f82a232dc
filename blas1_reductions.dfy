/** Level-1 reductions: dot, asum, iamax, iamin and nrm2, each in its two forms. The
    buffer form writes its result into element 0 of a one-element result buffer `rs`
    through the two-phase reduction engine; the host-scalar form allocates that buffer,
    runs the buffer form and returns what it wrote. Each routine hands its reduction
    operator the executor's work-group size localSize and localSize * nWG, with
    nWG = 2 * localSize work-groups; the operator's body, which decides how the vector
    is partitioned, is not part of this model. The model partitions the partial phase
    into contiguous groups (see GroupSize), and every result below is proved for every
    group size, so the choice does not show in any result. */
module Blas1Reductions {
  import opened Views
  import opened Reduction
  import opened Ops

  /** The model's choice of group length for the partial phase: contiguous groups of
      2 * localSize elements. Any length >= 2 gives the same results (ReduceIsFold). */
  function GroupSize(localSize: nat): (g: nat)
    requires localSize >= 1
    ensures g >= 2
  {
    2 * localSize
  }

  // ------------------------------------------------------ reduced values

  /** The sum reduction of the elementwise products is the inner product. */
  function DotValue(xs: seq<int>, ys: seq<int>, localSize: nat): (r: int)
    requires |xs| == |ys| && localSize >= 1
    ensures r == DotProduct(xs, ys)
  {
    ReduceSumIsSum(Products(xs, ys), GroupSize(localSize));
    ReduceSum(Products(xs, ys), GroupSize(localSize))
  }

  /** The absolute-sum reduction is the sum of absolute values. */
  function AsumValue(xs: seq<int>, localSize: nat): (r: int)
    requires localSize >= 1
    ensures r == AbsSum(xs) && r >= 0
    ensures r == 0 <==> AllZero(xs)
  {
    ReduceSumIsSum(Absolutes(xs), GroupSize(localSize));
    AbsSumProperties(xs);
    ReduceSum(Absolutes(xs), GroupSize(localSize))
  }

  /** The sum reduction of the squares: the value nrm2 takes the square root of. */
  function SquaresValue(xs: seq<int>, localSize: nat): (r: int)
    requires localSize >= 1
    ensures r == SumOfSquares(xs) && r >= 0
    ensures r == 0 <==> AllZero(xs)
  {
    ReduceSumIsSum(Squares(xs), GroupSize(localSize));
    SumOfSquaresProperties(xs);
    ReduceSum(Squares(xs), GroupSize(localSize))
  }

  /** The max-index / min-index reduction of a non-empty vector: the tuple of the first
      extremal element, carrying its original index. */
  function IndexReduction(e: Extremum, xs: seq<int>, localSize: nat): (r: Reduction.IndexValue)
    requires |xs| >= 1 && localSize >= 1
    ensures r.ind < |xs| && r.val == xs[r.ind]
    ensures IsFirstExtremum(e, xs, r.ind)
  {
    ReduceIndexIsFirstExtremum(e, xs, GroupSize(localSize));
    ReduceIndex(e, xs, GroupSize(localSize))
  }

  // ------------------------------------------------------ buffer forms

  /** _dot: rs[0] := the inner product of the two views. */
  method Dot(n: nat, x: array<int>, offx: nat, incx: nat, y: array<int>, offy: nat, incy: nat,
             rs: array<int>, localSize: nat)
    requires localSize >= 1 && rs.Length >= 1 && rs != x && rs != y
    requires InBounds(x.Length, offx, incx, n) && InBounds(y.Length, offy, incy, n)
    modifies rs
    ensures rs[0] == DotProduct(Gather(x[..], offx, incx, n), Gather(y[..], offy, incy, n))
    ensures rs[1..] == old(rs[1..])
  {
    rs[0] := DotValue(Gather(x[..], offx, incx, n), Gather(y[..], offy, incy, n), localSize);
  }

  /** _asum: rs[0] := the sum of the absolute values of the view. */
  method Asum(n: nat, x: array<int>, offx: nat, incx: nat, rs: array<int>, localSize: nat)
    requires localSize >= 1 && rs.Length >= 1 && rs != x
    requires InBounds(x.Length, offx, incx, n)
    modifies rs
    ensures rs[0] == AbsSum(Gather(x[..], offx, incx, n))
    ensures rs[1..] == old(rs[1..])
  {
    rs[0] := AsumValue(Gather(x[..], offx, incx, n), localSize);
  }

  /** _iamax: rs[0] := the (index, value) tuple of the first maximal element of the view. */
  method Iamax(n: nat, x: array<int>, offx: nat, incx: nat, rs: array<Reduction.IndexValue>, localSize: nat)
    requires n >= 1 && localSize >= 1 && rs.Length >= 1
    requires InBounds(x.Length, offx, incx, n)
    modifies rs
    ensures rs[0].ind < n && rs[0].val == Gather(x[..], offx, incx, n)[rs[0].ind]
    ensures IsFirstExtremum(Max, Gather(x[..], offx, incx, n), rs[0].ind)
    ensures rs[1..] == old(rs[1..])
  {
    rs[0] := IndexReduction(Max, Gather(x[..], offx, incx, n), localSize);
  }

  /** _iamin: rs[0] := the (index, value) tuple of the first minimal element of the view. */
  method Iamin(n: nat, x: array<int>, offx: nat, incx: nat, rs: array<Reduction.IndexValue>, localSize: nat)
    requires n >= 1 && localSize >= 1 && rs.Length >= 1
    requires InBounds(x.Length, offx, incx, n)
    modifies rs
    ensures rs[0].ind < n && rs[0].val == Gather(x[..], offx, incx, n)[rs[0].ind]
    ensures IsFirstExtremum(Min, Gather(x[..], offx, incx, n), rs[0].ind)
    ensures rs[1..] == old(rs[1..])
  {
    rs[0] := IndexReduction(Min, Gather(x[..], offx, incx, n), localSize);
  }

  /** _nrm2: the sum reduction of the squares into rs[0], then rs[0] := root(rs[0]).
      The square root is the parameter `root`. */
  method Nrm2(n: nat, x: array<int>, offx: nat, incx: nat, rs: array<int>, localSize: nat, root: int -> int)
    requires localSize >= 1 && rs.Length >= 1 && rs != x
    requires InBounds(x.Length, offx, incx, n)
    modifies rs
    ensures rs[0] == root(SumOfSquares(Gather(x[..], offx, incx, n)))
    ensures rs[1..] == old(rs[1..])
  {
    rs[0] := SquaresValue(Gather(x[..], offx, incx, n), localSize);
    rs[0] := root(rs[0]);
  }

  // ------------------------------------------------------ host-scalar forms

  /** _dot returning a host scalar: the value the buffer form writes. */
  method DotHost(n: nat, x: array<int>, offx: nat, incx: nat, y: array<int>, offy: nat, incy: nat,
                 localSize: nat) returns (r: int)
    requires localSize >= 1
    requires InBounds(x.Length, offx, incx, n) && InBounds(y.Length, offy, incy, n)
    ensures r == DotProduct(Gather(x[..], offx, incx, n), Gather(y[..], offy, incy, n))
  {
    var res := new int[1];
    Dot(n, x, offx, incx, y, offy, incy, res, localSize);
    r := res[0];
  }

  /** _asum returning a host scalar. */
  method AsumHost(n: nat, x: array<int>, offx: nat, incx: nat, localSize: nat) returns (r: int)
    requires localSize >= 1 && InBounds(x.Length, offx, incx, n)
    ensures r == AbsSum(Gather(x[..], offx, incx, n))
  {
    var res := new int[1](_ => 0);
    Asum(n, x, offx, incx, res, localSize);
    r := res[0];
  }

  /** _iamax returning the host index: the index of the first maximal element. */
  method IamaxHost(n: nat, x: array<int>, offx: nat, incx: nat, localSize: nat) returns (k: nat)
    requires n >= 1 && localSize >= 1 && InBounds(x.Length, offx, incx, n)
    ensures IsFirstExtremum(Max, Gather(x[..], offx, incx, n), k)
  {
    var res := new Reduction.IndexValue[1](_ => Reduction.IndexValue(0, 0));
    Iamax(n, x, offx, incx, res, localSize);
    k := res[0].ind;
  }

  /** _iamin returning the host index: the index of the first minimal element. */
  method IaminHost(n: nat, x: array<int>, offx: nat, incx: nat, localSize: nat) returns (k: nat)
    requires n >= 1 && localSize >= 1 && InBounds(x.Length, offx, incx, n)
    ensures IsFirstExtremum(Min, Gather(x[..], offx, incx, n), k)
  {
    var res := new Reduction.IndexValue[1](_ => Reduction.IndexValue(0, 0));
    Iamin(n, x, offx, incx, res, localSize);
    k := res[0].ind;
  }

  /** _nrm2 returning a host scalar: root of the sum of squares. */
  method Nrm2Host(n: nat, x: array<int>, offx: nat, incx: nat, localSize: nat, root: int -> int) returns (r: int)
    requires localSize >= 1 && InBounds(x.Length, offx, incx, n)
    ensures r == root(SumOfSquares(Gather(x[..], offx, incx, n)))
  {
    var res := new int[1](_ => 0);
    Nrm2(n, x, offx, incx, res, localSize, root);
    r := res[0];
  }

  // ------------------------------------------------------ properties

  /** The inner product does not depend on the order of its two vectors. */
  lemma DotHostSymmetric(xs: seq<int>, ys: seq<int>, localSize: nat)
    requires |xs| == |ys| && localSize >= 1
    ensures DotValue(xs, ys, localSize) == DotValue(ys, xs, localSize)
  {
    DotSymmetric(xs, ys);
  }

  /** The squared norm is the inner product of the vector with itself. */
  lemma SquaresIsSelfDot(xs: seq<int>, localSize: nat)
    requires localSize >= 1
    ensures SquaresValue(xs, localSize) == DotValue(xs, xs, localSize)
  {
    SumOfSquaresIsSelfDot(xs);
  }

  /** Neither reduction depends on the work-group size. */
  lemma ReductionsIndependentOfWorkGroup(xs: seq<int>, ys: seq<int>, l1: nat, l2: nat)
    requires |xs| == |ys| && l1 >= 1 && l2 >= 1
    ensures DotValue(xs, ys, l1) == DotValue(xs, ys, l2)
    ensures |xs| >= 1 ==> IndexReduction(Max, xs, l1) == IndexReduction(Max, xs, l2)
    ensures |xs| >= 1 ==> IndexReduction(Min, xs, l1) == IndexReduction(Min, xs, l2)
  {
    if |xs| >= 1 {
      var a, b := IndexReduction(Max, xs, l1), IndexReduction(Max, xs, l2);
      FirstExtremumUnique(Max, xs, a.ind, b.ind);
      var c, d := IndexReduction(Min, xs, l1), IndexReduction(Min, xs, l2);
      FirstExtremumUnique(Min, xs, c.ind, d.ind);
    }
  }
}
