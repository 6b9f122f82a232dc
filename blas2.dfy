/** Level-2 routines: _gemv and _ger. The device kernels are replaced by sequential
    loops, which is valid because every output element (an element of y, of the
    partial-result matrix, or of A) depends only on inputs that no other output element
    writes. */
module Blas2 {
  import opened Views
  import opened Ops
  import opened GemvSpec

  /** Inner product of row i of the matrix view and x, over the columns lo .. hi - 1. */
  method RowBlockDot(a: array<int>, A: Mat, i: nat, x: array<int>, offx: nat, incx: nat, lo: nat, hi: nat)
    returns (d: int)
    requires Fits(a.Length, A) && i < A.rows && lo <= hi <= A.cols
    requires InBounds(x.Length, offx, incx, A.cols)
    ensures d == DotProduct(Row(a[..], A, i)[lo..hi], Gather(x[..], offx, incx, A.cols)[lo..hi])
  {
    ghost var row, xs := Row(a[..], A, i), Gather(x[..], offx, incx, A.cols);
    d := 0;
    assert DotProduct(row[lo..lo], xs[lo..lo]) == 0;
    var j := lo;
    while j < hi
      invariant lo <= j <= hi
      invariant d == DotProduct(row[lo..j], xs[lo..j])
    {
      EntryAt(a[..], A, i, j);
      GatherAt(x[..], offx, incx, A.cols, j);
      assert row[lo..j + 1] == row[lo..j] + [row[j]];
      assert xs[lo..j + 1] == xs[lo..j] + [xs[j]];
      DotSnoc(row[lo..j], xs[lo..j], row[j], xs[j]);
      d := d + a[MatIdx(A.off, A.ld, i, j)] * x[Idx(offx, incx, j)];
      j := j + 1;
    }
  }

  /** Inner product of column j of the matrix view and x. */
  method ColumnDot(a: array<int>, A: Mat, j: nat, x: array<int>, offx: nat, incx: nat) returns (d: int)
    requires Fits(a.Length, A) && j < A.cols
    requires InBounds(x.Length, offx, incx, A.rows)
    ensures d == DotProduct(Column(a[..], A, j), Gather(x[..], offx, incx, A.rows))
  {
    ghost var col, xs := Column(a[..], A, j), Gather(x[..], offx, incx, A.rows);
    d := 0;
    assert DotProduct(col[..0], xs[..0]) == 0;
    var i := 0;
    while i < A.rows
      invariant i <= A.rows
      invariant d == DotProduct(col[..i], xs[..i])
    {
      EntryAt(a[..], A, i, j);
      GatherAt(x[..], offx, incx, A.rows, i);
      assert col[..i + 1] == col[..i] + [col[i]];
      assert xs[..i + 1] == xs[..i] + [xs[i]];
      DotSnoc(col[..i], xs[..i], col[i], xs[i]);
      d := d + a[MatIdx(A.off, A.ld, i, j)] * x[Idx(offx, incx, i)];
      i := i + 1;
    }
    assert col[..A.rows] == col && xs[..A.rows] == xs;
  }

  /** The kernels of the row strategies: column k of the M x w matrix `mat` receives
      the partial result of every row over column block k (blocks of b columns). */
  method FillPartials(mat: array<int>, a: array<int>, A: Mat, x: array<int>, offx: nat, incx: nat,
                      b: nat, w: nat)
    requires mat != a && mat != x && mat.Length == w * A.rows
    requires Fits(a.Length, A) && InBounds(x.Length, offx, incx, A.cols)
    modifies mat
    ensures mat[..] == PartialMatrix(a[..], A, Gather(x[..], offx, incx, A.cols), b, w)
  {
    ghost var xs := Gather(x[..], offx, incx, A.cols);
    var m, n := A.rows, A.cols;
    var k := 0;
    while k < w
      invariant k <= w && k * m <= mat.Length
      invariant mat[..k * m] == PartialMatrix(a[..], A, xs, b, k)
    {
      ghost var col := PartialColumn(a[..], A, xs, b, k);
      MulLe(k + 1, w, m);
      assert (k + 1) * m == k * m + m;
      BoundMono(k, b, n);
      var lo, hi := Bound(k, b, n), Bound(k + 1, b, n);
      var i := 0;
      while i < m
        invariant i <= m
        invariant mat[..k * m + i] == PartialMatrix(a[..], A, xs, b, k) + col[..i]
      {
        var d := RowBlockDot(a, A, i, x, offx, incx, lo, hi);
        ghost var before := mat[..];
        mat[k * m + i] := d;
        assert mat[..k * m + i + 1] == before[..k * m + i] + [d];
        assert col[..i + 1] == col[..i] + [col[i]];
        i := i + 1;
      }
      assert col[..m] == col;
      k := k + 1;
    }
    assert mat[..] == mat[..w * m];
  }

  /** make_addSetColumns: row i of the result is the sum of row i of the M x w matrix. */
  method SumColumns(mat: array<int>, m: nat, w: nat) returns (r: seq<int>)
    requires w * m <= mat.Length
    ensures r == AddSetColumns(mat[..], m, w)
  {
    r := [];
    var i := 0;
    while i < m
      invariant i <= m && |r| == i
      invariant forall t :: 0 <= t < i ==> r[t] == ColumnSum(mat[..], m, t, w)
    {
      var s := 0;
      var k := 0;
      while k < w
        invariant k <= w && k * m <= w * m
        invariant s == ColumnSum(mat[..], m, i, k)
      {
        MulLe(k + 1, w, m);
        assert (k + 1) * m == k * m + m;
        s := s + mat[k * m + i];
        k := k + 1;
      }
      r := r + [s];
      i := i + 1;
    }
  }

  /** A * x computed one row at a time (make_redRowMatVct). */
  method RowDots(a: array<int>, A: Mat, x: array<int>, offx: nat, incx: nat) returns (r: seq<int>)
    requires Fits(a.Length, A) && InBounds(x.Length, offx, incx, A.cols)
    ensures r == MatVec(a[..], A, Gather(x[..], offx, incx, A.cols))
  {
    ghost var xs := Gather(x[..], offx, incx, A.cols);
    r := [];
    var i := 0;
    while i < A.rows
      invariant i <= A.rows && |r| == i
      invariant forall t :: 0 <= t < i ==> r[t] == DotProduct(Row(a[..], A, t), xs)
    {
      var d := RowBlockDot(a, A, i, x, offx, incx, 0, A.cols);
      assert Row(a[..], A, i)[0..A.cols] == Row(a[..], A, i) && xs[0..A.cols] == xs;
      r := r + [d];
      i := i + 1;
    }
  }

  /** A^T * x computed one output element at a time (the column-access kernels). */
  method ColumnDots(a: array<int>, A: Mat, x: array<int>, offx: nat, incx: nat) returns (r: seq<int>)
    requires Fits(a.Length, A) && InBounds(x.Length, offx, incx, A.rows)
    ensures r == MatTVec(a[..], A, Gather(x[..], offx, incx, A.rows))
  {
    ghost var xs := Gather(x[..], offx, incx, A.rows);
    r := [];
    var j := 0;
    while j < A.cols
      invariant j <= A.cols && |r| == j
      invariant forall t :: 0 <= t < j ==> r[t] == DotProduct(Column(a[..], A, t), xs)
    {
      var d := ColumnDot(a, A, j, x, offx, incx);
      r := r + [d];
      j := j + 1;
    }
  }

  /** The final assignment y := beta * y + alpha * p over the view (offy, incy). */
  method CombineInto(y: array<int>, offy: nat, incy: nat, alpha: int, ps: seq<int>, beta: int)
    requires incy >= 1 && InBounds(y.Length, offy, incy, |ps|)
    modifies y
    ensures y[..] == Scatter(old(y[..]), offy, incy, Combined(alpha, ps, beta, Gather(old(y[..]), offy, incy, |ps|)))
  {
    ghost var vals := Combined(alpha, ps, beta, Gather(y[..], offy, incy, |ps|));
    var i := 0;
    while i < |ps|
      invariant 0 <= i <= |ps| && InBounds(y.Length, offy, incy, i)
      invariant y[..] == Scatter(old(y[..]), offy, incy, vals[..i])
    {
      ScatterNext(old(y[..]), offy, incy, vals, i);
      GatherAt(old(y[..]), offy, incy, |ps|, i);
      var p := Idx(offy, incy, i);
      y[p] := beta * y[p] + alpha * ps[i];
      i := i + 1;
    }
    assert vals[..|ps|] == vals;
  }

  /** op(A) * x as computed by the strategy s (which is not NoBranch), with the
      partial-result matrix valT1 allocated fresh where the strategy uses one. */
  method StrategyProduct(s: Strategy, a: array<int>, A: Mat, x: array<int>, offx: nat, incx: nat)
    returns (ps: seq<int>)
    requires s != NoBranch && Fits(a.Length, A)
    requires InBounds(x.Length, offx, incx, XLen(IsRowStrategy(s), A))
    ensures IsRowStrategy(s) ==> ps == MatVec(a[..], A, Gather(x[..], offx, incx, A.cols))
    ensures !IsRowStrategy(s) ==> ps == MatTVec(a[..], A, Gather(x[..], offx, incx, A.rows))
  {
    var m, n := A.rows, A.cols;
    if UsesPartials(s) {
      ghost var xs := Gather(x[..], offx, incx, n);
      var w := PartialColumns(s, m);
      var valT1 := new int[w * m];
      var b := if w == 0 then 0 else BlockSize(n, w);
      FillPartials(valT1, a, A, x, offx, incx, b, w);
      if s == RowsOneGroup {
        // mat1 has a single column, taken directly as the vector of results
        ps := valT1[..];
        OneColumnIsMatVec(a[..], A, xs, b);
      } else {
        ps := SumColumns(valT1, m, w);
        if m == 0 {
          assert |ps| == 0 == |MatVec(a[..], A, xs)|;
        } else {
          PartialsSumToMatVec(a[..], A, xs, b, w);
        }
      }
    } else if s == RowsDirect {
      ps := RowDots(a, A, x, offx, incx);
    } else {
      ps := ColumnDots(a, A, x, offx, incx);
    }
  }

  /** _gemv: y := beta * y + alpha * op(A) * x, with op decided by the first character
      of the flag and the strategy by OPT. A and x are only read. */
  method Gemv(trans: string, opt: u32, m: nat, n: nat, alpha: int, a: array<int>, offA: nat, lda: nat,
              x: array<int>, offx: nat, incx: nat, beta: int, y: array<int>, offy: nat, incy: nat)
    requires incy >= 1 && a != y && x != y
    requires Fits(a.Length, Mat(offA, lda, m, n))
    requires InBounds(x.Length, offx, incx, XLen(DecodeTrans(trans).rowAccess, Mat(offA, lda, m, n)))
    requires InBounds(y.Length, offy, incy, YLen(DecodeTrans(trans).rowAccess, Mat(offA, lda, m, n)))
    modifies y
    ensures var A, acc := Mat(offA, lda, m, n), DecodeTrans(trans).rowAccess;
            y[..] == if Dispatch(acc, opt) == NoBranch then old(y[..])
                     else Scatter(old(y[..]), offy, incy,
                                  GemvLoops(acc, a[..], A, alpha, Gather(x[..], offx, incx, XLen(acc, A)),
                                          beta, Gather(old(y[..]), offy, incy, YLen(acc, A))))
  {
    var A := Mat(offA, lda, m, n);
    var flag := DecodeTrans(trans);
    var s := Dispatch(flag.rowAccess, opt);
    if s == NoBranch {
      return;
    }
    ghost var xs := Gather(x[..], offx, incx, XLen(flag.rowAccess, A));
    ghost var ys := Gather(y[..], offy, incy, YLen(flag.rowAccess, A));
    var ps := StrategyProduct(s, a, A, x, offx, incx);
    GemvLoopsAreCombined(flag.rowAccess, a[..], A, alpha, xs, beta, ys);
    CombineInto(y, offy, incy, alpha, ps, beta);
  }

  /** _gemv with the quick return of reference xGEMV in front: when M or N is 0 the
      call leaves y alone instead of scaling it by beta. */
  method GemvQuickReturn(trans: string, opt: u32, m: nat, n: nat, alpha: int, a: array<int>, offA: nat, lda: nat,
                         x: array<int>, offx: nat, incx: nat, beta: int, y: array<int>, offy: nat, incy: nat)
    requires incy >= 1 && a != y && x != y
    requires Fits(a.Length, Mat(offA, lda, m, n))
    requires InBounds(x.Length, offx, incx, XLen(DecodeTrans(trans).rowAccess, Mat(offA, lda, m, n)))
    requires InBounds(y.Length, offy, incy, YLen(DecodeTrans(trans).rowAccess, Mat(offA, lda, m, n)))
    modifies y
    ensures var A, acc := Mat(offA, lda, m, n), DecodeTrans(trans).rowAccess;
            y[..] == if Dispatch(acc, opt) == NoBranch then old(y[..])
                     else Scatter(old(y[..]), offy, incy,
                                  NetlibGemv(acc, a[..], A, alpha, Gather(x[..], offx, incx, XLen(acc, A)),
                                             beta, Gather(old(y[..]), offy, incy, YLen(acc, A))))
  {
    var A, acc := Mat(offA, lda, m, n), DecodeTrans(trans).rowAccess;
    ghost var xs := Gather(x[..], offx, incx, XLen(acc, A));
    ghost var ys := Gather(y[..], offy, incy, YLen(acc, A));
    GemvLoopsMatchNetlib(acc, a[..], A, alpha, xs, beta, ys);
    if m == 0 || n == 0 {
      ScatterGather(y[..], offy, incy, YLen(acc, A));
      return;
    }
    Gemv(trans, opt, m, n, alpha, a, offA, lda, x, offx, incx, beta, y, offy, incy);
  }

  /** One work-item column of _ger: column j of the view gains alpha * x * y(j). */
  method GerUpdateColumn(a: array<int>, A: Mat, alpha: int, x: array<int>, offx: nat, incx: nat,
                         y: array<int>, offy: nat, incy: nat, j: nat, ghost a0: seq<int>)
    requires A.rows <= A.ld && a != x && a != y && j < A.cols && |a0| == a.Length
    requires Fits(a.Length, A)
    requires InBounds(x.Length, offx, incx, A.rows) && InBounds(y.Length, offy, incy, A.cols)
    requires a[..] == GerPrefix(a0, A, alpha, Gather(x[..], offx, incx, A.rows), Gather(y[..], offy, incy, A.cols), j)
    modifies a
    ensures a[..] == GerPrefix(a0, A, alpha, Gather(x[..], offx, incx, A.rows), Gather(y[..], offy, incy, A.cols), j + 1)
  {
    ghost var xs, ys := Gather(x[..], offx, incx, A.rows), Gather(y[..], offy, incy, A.cols);
    ColumnInBounds(a.Length, A.off, A.ld, A.rows, A.cols, j);
    var s := Idx(A.off, A.ld, j);
    ghost var before := a[..];
    ghost var vals := GerColumn(a0, A, alpha, xs, ys, j);
    var i := 0;
    while i < A.rows
      invariant i <= A.rows && InBounds(a.Length, s, 1, i)
      invariant a[..] == Scatter(before, s, 1, vals[..i])
    {
      ScatterNext(before, s, 1, vals, i);
      GerPrefixAt(a0, A, alpha, xs, ys, j, i, j);
      EntryAt(a0, A, i, j);
      GatherAt(x[..], offx, incx, A.rows, i);
      GatherAt(y[..], offy, incy, A.cols, j);
      var p := s + i;
      assert p == Idx(s, 1, i) == MatIdx(A.off, A.ld, i, j);
      a[p] := a[p] + alpha * (x[Idx(offx, incx, i)] * y[Idx(offy, incy, j)]);
      i := i + 1;
    }
    assert vals[..A.rows] == vals;
  }

  /** _ger: A := A + alpha * x * y^T over the M x N view; x and y are only read. */
  method Ger(m: nat, n: nat, alpha: int, x: array<int>, offx: nat, incx: nat,
             y: array<int>, offy: nat, incy: nat, a: array<int>, offA: nat, lda: nat)
    requires m <= lda && a != x && a != y
    requires Fits(a.Length, Mat(offA, lda, m, n))
    requires InBounds(x.Length, offx, incx, m) && InBounds(y.Length, offy, incy, n)
    modifies a
    ensures a[..] == GemvSpec.Ger(old(a[..]), Mat(offA, lda, m, n), alpha, Gather(x[..], offx, incx, m), Gather(y[..], offy, incy, n))
    ensures forall i, j :: 0 <= i < m && 0 <= j < n ==>
              && MatIdx(offA, lda, i, j) < a.Length
              && a[MatIdx(offA, lda, i, j)]
                 == old(a[MatIdx(offA, lda, i, j)]) + alpha * (Gather(x[..], offx, incx, m)[i] * Gather(y[..], offy, incy, n)[j])
  {
    var A := Mat(offA, lda, m, n);
    ghost var a0 := a[..];
    ghost var xs, ys := Gather(x[..], offx, incx, m), Gather(y[..], offy, incy, n);
    var j := 0;
    while j < n
      invariant j <= n && a[..] == GerPrefix(a0, A, alpha, xs, ys, j)
    {
      GerUpdateColumn(a, A, alpha, x, offx, incx, y, offy, incy, j, a0);
      j := j + 1;
    }
    forall i, j | 0 <= i < m && 0 <= j < n
      ensures MatIdx(offA, lda, i, j) < a.Length
      ensures a[MatIdx(offA, lda, i, j)] == a0[MatIdx(offA, lda, i, j)] + alpha * (xs[i] * ys[j])
    {
      GerAt(a0, A, alpha, xs, ys, i, j);
    }
  }
}
