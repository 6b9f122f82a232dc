/** Specification of the Level-2 routines: the transpose-flag decoding, the choice of
    matrix-vector strategy from the compile-time variant OPT, the loops of xGEMV (with and
    without the quick return of reference xGEMV) and reference xGER over a column-major
    matrix view, and the partial-result matrices that
    the row strategies fill and then combine by summing across columns. */
module GemvSpec {
  import opened Views
  import opened Reduction
  import opened Ops

  // ------------------------------------------------------------ transpose flag

  /** Character 0 of the flag string; an empty string yields its terminating '\0'. */
  function FirstChar(trans: string): char
  {
    if |trans| == 0 then '\0' else trans[0]
  }

  /** The decoded flag: whether a message is printed, and the access mode of the
      matrix view (true: walked by rows, op(A) = A; false: transposed). */
  datatype TransFlag = TransFlag(warning: bool, rowAccess: bool)

  function DecodeTrans(trans: string): (f: TransFlag)
    ensures f.rowAccess <==> |trans| >= 1 && (trans[0] == 'n' || trans[0] == 'N')
    ensures f.warning <==> !(|trans| >= 1 && trans[0] in {'n', 't', 'c', 'N', 'T', 'C'})
    ensures f.warning ==> !f.rowAccess
  {
    var c := FirstChar(trans);
    TransFlag(c !in {'n', 't', 'c', 'N', 'T', 'C'}, c == 'n' || c == 'N')
  }

  /** Only the first character of the flag matters. */
  lemma DecodeFirstCharOnly(s: string, t: string)
    requires |s| >= 1 && |t| >= 1 && s[0] == t[0]
    ensures DecodeTrans(s) == DecodeTrans(t)
  {
  }

  // ------------------------------------------------------------ strategy dispatch

  /** The template parameter OPT is an unsigned int. */
  newtype u32 = v: int | 0 <= v < 0x1_0000_0000

  /** The literal -1 converted to unsigned int, as in the comparison OPT == -1. */
  const UnsignedMinusOne: u32 := ((-1) % 0x1_0000_0000) as u32

  /** The branches of _gemv, in source order. */
  datatype Strategy =
    | RowsOneGroup      // OPT == -1: one row per work-group, full reduction
    | RowsNoReduction   // OPT == 2: one row per work-group, combined afterwards
    | RowsGroups        // OPT == 1: one row over nWG_col work-groups
    | RowsMultiRow      // OPT == 3: several rows per work-group
    | RowsDirect        // any other OPT, row access: row reduction in one kernel
    | ColsOneThread     // OPT == 1, column access
    | ColsShared        // OPT == 2, column access, shared memory
    | ColsSharedFull    // OPT == 3, column access, shared memory
    | ColsMulti         // second OPT == 2 test of the column chain
    | ColsMultiShared   // second OPT == 3 test of the column chain
    | NoBranch          // column access with any other OPT: nothing runs

  predicate IsRowStrategy(s: Strategy)
  {
    s.RowsOneGroup? || s.RowsNoReduction? || s.RowsGroups? || s.RowsMultiRow? || s.RowsDirect?
  }

  /** The strategies that fill a partial-result matrix valT1 before combining. */
  predicate UsesPartials(s: Strategy)
  {
    s.RowsOneGroup? || s.RowsNoReduction? || s.RowsGroups? || s.RowsMultiRow?
  }

  function Dispatch(rowAccess: bool, opt: u32): (s: Strategy)
    ensures IsRowStrategy(s) <==> rowAccess
    ensures s == RowsOneGroup <==> rowAccess && opt as int == 0xFFFF_FFFF
    ensures s != ColsMulti && s != ColsMultiShared
    ensures s == NoBranch <==> !rowAccess && opt != 1 && opt != 2 && opt != 3
  {
    if rowAccess then
      if opt == UnsignedMinusOne then RowsOneGroup
      else if opt == 2 then RowsNoReduction
      else if opt == 1 then RowsGroups
      else if opt == 3 then RowsMultiRow
      else RowsDirect
    else if opt == 1 then ColsOneThread
    else if opt == 2 then ColsShared
    else if opt == 3 then ColsSharedFull
    else if opt == 2 then ColsMulti
    else if opt == 3 then ColsMultiShared
    else NoBranch
  }

  /** Number of columns of the partial-result matrix (nWG_col, or nWG_col * localSize
      with localSize = min(M, 256) for the strategy without local addition). */
  function PartialColumns(s: Strategy, m: nat): (w: nat)
    ensures UsesPartials(s) && m >= 1 ==> w >= 1
    ensures s.RowsOneGroup? ==> w == 1
  {
    match s
    case RowsOneGroup => 1
    case RowsNoReduction => 1 * (if m < 256 then m else 256)
    case RowsGroups => 4
    case RowsMultiRow => 4
    case _ => 0
  }

  // ------------------------------------------------------------ matrix view

  /** A column-major matrix view: element (i, j) at off + i + j * ld. */
  datatype Mat = Mat(off: nat, ld: nat, rows: nat, cols: nat)

  predicate Fits(len: nat, A: Mat)
  {
    MatInBounds(len, A.off, A.ld, A.rows, A.cols)
  }

  function Row(a: seq<int>, A: Mat, i: nat): (r: seq<int>)
    requires Fits(|a|, A) && i < A.rows
    ensures |r| == A.cols
  {
    RowInBounds(|a|, A.off, A.ld, A.rows, A.cols, i);
    Gather(a, A.off + i, A.ld, A.cols)
  }

  function Column(a: seq<int>, A: Mat, j: nat): (r: seq<int>)
    requires Fits(|a|, A) && j < A.cols
    ensures |r| == A.rows
  {
    ColumnInBounds(|a|, A.off, A.ld, A.rows, A.cols, j);
    Gather(a, Idx(A.off, A.ld, j), 1, A.rows)
  }

  /** Row i and column j of the view meet at buffer position MatIdx(off, ld, i, j). */
  lemma EntryAt(a: seq<int>, A: Mat, i: nat, j: nat)
    requires Fits(|a|, A) && i < A.rows && j < A.cols
    ensures MatIdx(A.off, A.ld, i, j) < |a|
    ensures Row(a, A, i)[j] == a[MatIdx(A.off, A.ld, i, j)]
    ensures Column(a, A, j)[i] == a[MatIdx(A.off, A.ld, i, j)]
  {
    RowInBounds(|a|, A.off, A.ld, A.rows, A.cols, i);
    ColumnInBounds(|a|, A.off, A.ld, A.rows, A.cols, j);
    GatherAt(a, A.off + i, A.ld, A.cols, j);
    GatherAt(a, Idx(A.off, A.ld, j), 1, A.rows, i);
  }

  /** A * x: the inner product of every row with x. */
  function MatVec(a: seq<int>, A: Mat, xs: seq<int>): (r: seq<int>)
    requires Fits(|a|, A) && |xs| == A.cols
    ensures |r| == A.rows
  {
    seq(A.rows, i requires 0 <= i < A.rows => DotProduct(Row(a, A, i), xs))
  }

  /** A^T * x: the inner product of every column with x. */
  function MatTVec(a: seq<int>, A: Mat, xs: seq<int>): (r: seq<int>)
    requires Fits(|a|, A) && |xs| == A.rows
    ensures |r| == A.cols
  {
    seq(A.cols, j requires 0 <= j < A.cols => DotProduct(Column(a, A, j), xs))
  }

  /** The final assignment of every strategy: beta * y + alpha * p, elementwise. */
  function Combined(alpha: int, ps: seq<int>, beta: int, ys: seq<int>): (r: seq<int>)
    requires |ps| == |ys|
    ensures |r| == |ys|
  {
    seq(|ys|, i requires 0 <= i < |ys| => beta * ys[i] + alpha * ps[i])
  }

  // ------------------------------------------------------------ the xGEMV loops

  /** Lengths of x and y: reference BLAS takes x of length N and y of length M for
      'N', and the other way round for the transposed forms. */
  function XLen(rowAccess: bool, A: Mat): nat { if rowAccess then A.cols else A.rows }
  function YLen(rowAccess: bool, A: Mat): nat { if rowAccess then A.rows else A.cols }

  /** The loops of reference xGEMV for 'N', in their order: y := beta * y, then for each
      column k in turn y(i) := y(i) + (alpha * x(k)) * A(i, k). */
  function NetlibN(a: seq<int>, A: Mat, alpha: int, xs: seq<int>, beta: int, ys: seq<int>, k: nat): (r: seq<int>)
    requires Fits(|a|, A) && |xs| == A.cols && |ys| == A.rows && k <= A.cols
    ensures |r| == A.rows
    decreases k
  {
    if k == 0 then Scaled(beta, ys)
    else
      var prev := NetlibN(a, A, alpha, xs, beta, ys, k - 1);
      var col := Column(a, A, k - 1);
      seq(A.rows, i requires 0 <= i < A.rows => prev[i] + (alpha * xs[k - 1]) * col[i])
  }

  /** The loop of reference xGEMV for 'T' and 'C': y(j) := beta * y(j) + alpha * sum_i A(i, j) * x(i). */
  function NetlibT(a: seq<int>, A: Mat, alpha: int, xs: seq<int>, beta: int, ys: seq<int>): (r: seq<int>)
    requires Fits(|a|, A) && |xs| == A.rows && |ys| == A.cols
    ensures |r| == A.cols
  {
    seq(A.cols, j requires 0 <= j < A.cols => beta * ys[j] + alpha * DotProduct(Column(a, A, j), xs))
  }

  /** beta * y + alpha * op(A) * x by the loops of reference xGEMV, run at every size. This is
      what _gemv computes: its final assignment runs even when M or N is 0, so there y
      becomes beta * y. Reference xGEMV itself returns early then (NetlibGemv). */
  function GemvLoops(rowAccess: bool, a: seq<int>, A: Mat, alpha: int, xs: seq<int>, beta: int, ys: seq<int>): (r: seq<int>)
    requires Fits(|a|, A) && |xs| == XLen(rowAccess, A) && |ys| == YLen(rowAccess, A)
    ensures |r| == |ys|
  {
    if rowAccess then NetlibN(a, A, alpha, xs, beta, ys, A.cols) else NetlibT(a, A, alpha, xs, beta, ys)
  }

  /** After k columns the reference loop holds beta * y + alpha * (the inner products of
      the first k entries of each row with the first k entries of x). */
  lemma {:induction false} NetlibNPrefix(a: seq<int>, A: Mat, alpha: int, xs: seq<int>, beta: int, ys: seq<int>,
                                         k: nat, i: nat)
    requires Fits(|a|, A) && |xs| == A.cols && |ys| == A.rows && k <= A.cols && i < A.rows
    ensures NetlibN(a, A, alpha, xs, beta, ys, k)[i]
         == beta * ys[i] + alpha * DotProduct(Row(a, A, i)[..k], xs[..k])
    decreases k
  {
    var row := Row(a, A, i);
    if k == 0 {
      assert DotProduct(row[..0], xs[..0]) == 0;
    } else {
      var prev := NetlibN(a, A, alpha, xs, beta, ys, k - 1);
      NetlibNPrefix(a, A, alpha, xs, beta, ys, k - 1, i);
      EntryAt(a, A, i, k - 1);
      var e, xk := Column(a, A, k - 1)[i], xs[k - 1];
      assert NetlibN(a, A, alpha, xs, beta, ys, k)[i] == prev[i] + (alpha * xk) * e;
      assert row[..k] == row[..k - 1] + [e];
      assert xs[..k] == xs[..k - 1] + [xk];
      DotSnoc(row[..k - 1], xs[..k - 1], e, xk);
      AccumulateStep(alpha, beta * ys[i], DotProduct(row[..k - 1], xs[..k - 1]), e, xk);
    }
  }

  lemma AccumulateStep(alpha: int, base: int, d: int, e: int, xk: int)
    ensures base + alpha * d + (alpha * xk) * e == base + alpha * (d + e * xk)
  {
    assert alpha * (d + e * xk) == alpha * d + alpha * (e * xk);
  }

  /** The xGEMV loops compute beta * y + alpha * op(A) * x: for 'N' the column-by-column
      accumulation equals the row inner products that the row strategies compute. */
  lemma GemvLoopsAreCombined(rowAccess: bool, a: seq<int>, A: Mat, alpha: int, xs: seq<int>, beta: int, ys: seq<int>)
    requires Fits(|a|, A) && |xs| == XLen(rowAccess, A) && |ys| == YLen(rowAccess, A)
    ensures rowAccess ==> GemvLoops(rowAccess, a, A, alpha, xs, beta, ys) == Combined(alpha, MatVec(a, A, xs), beta, ys)
    ensures !rowAccess ==> GemvLoops(rowAccess, a, A, alpha, xs, beta, ys) == Combined(alpha, MatTVec(a, A, xs), beta, ys)
  {
    if rowAccess {
      var r, c := GemvLoops(rowAccess, a, A, alpha, xs, beta, ys), Combined(alpha, MatVec(a, A, xs), beta, ys);
      forall i | 0 <= i < A.rows ensures r[i] == c[i] {
        NetlibNPrefix(a, A, alpha, xs, beta, ys, A.cols, i);
        assert Row(a, A, i)[..A.cols] == Row(a, A, i);
        assert xs[..A.cols] == xs;
      }
    }
  }

  /** With alpha = 0 the result is beta * y. */
  lemma GemvAlphaZero(rowAccess: bool, a: seq<int>, A: Mat, xs: seq<int>, beta: int, ys: seq<int>)
    requires Fits(|a|, A) && |xs| == XLen(rowAccess, A) && |ys| == YLen(rowAccess, A)
    ensures GemvLoops(rowAccess, a, A, 0, xs, beta, ys) == Scaled(beta, ys)
  {
    GemvLoopsAreCombined(rowAccess, a, A, 0, xs, beta, ys);
  }

  /** With beta = 0 the result does not depend on the old y. */
  lemma GemvBetaZero(rowAccess: bool, a: seq<int>, A: Mat, alpha: int, xs: seq<int>, ys: seq<int>, zs: seq<int>)
    requires Fits(|a|, A) && |xs| == XLen(rowAccess, A)
    requires |ys| == YLen(rowAccess, A) && |zs| == |ys|
    ensures GemvLoops(rowAccess, a, A, alpha, xs, 0, ys) == GemvLoops(rowAccess, a, A, alpha, xs, 0, zs)
  {
    GemvLoopsAreCombined(rowAccess, a, A, alpha, xs, 0, ys);
    GemvLoopsAreCombined(rowAccess, a, A, alpha, xs, 0, zs);
  }

  /** Reference xGEMV: the loops above, after its quick return, which leaves y as it is
      when M = 0, N = 0, or alpha = 0 and beta = 1. */
  function NetlibGemv(rowAccess: bool, a: seq<int>, A: Mat, alpha: int, xs: seq<int>, beta: int, ys: seq<int>): (r: seq<int>)
    requires Fits(|a|, A) && |xs| == XLen(rowAccess, A) && |ys| == YLen(rowAccess, A)
    ensures |r| == |ys|
  {
    if A.rows == 0 || A.cols == 0 || (alpha == 0 && beta == 1) then ys
    else GemvLoops(rowAccess, a, A, alpha, xs, beta, ys)
  }

  /** The xGEMV loops agree with reference xGEMV whenever M, N >= 1. On an empty matrix
      the loops still scale y by beta, while reference xGEMV leaves y unchanged. */
  lemma GemvLoopsMatchNetlib(rowAccess: bool, a: seq<int>, A: Mat, alpha: int, xs: seq<int>, beta: int, ys: seq<int>)
    requires Fits(|a|, A) && |xs| == XLen(rowAccess, A) && |ys| == YLen(rowAccess, A)
    ensures A.rows >= 1 && A.cols >= 1 ==>
              GemvLoops(rowAccess, a, A, alpha, xs, beta, ys) == NetlibGemv(rowAccess, a, A, alpha, xs, beta, ys)
    ensures A.rows == 0 || A.cols == 0 ==>
              GemvLoops(rowAccess, a, A, alpha, xs, beta, ys) == Scaled(beta, ys)
              && NetlibGemv(rowAccess, a, A, alpha, xs, beta, ys) == ys
  {
    GemvLoopsAreCombined(rowAccess, a, A, alpha, xs, beta, ys);
    if alpha == 0 && beta == 1 {
      GemvAlphaZero(rowAccess, a, A, xs, beta, ys);
      assert Scaled(1, ys) == ys;
    }
    if A.rows == 0 || A.cols == 0 {
      var p := if rowAccess then MatVec(a, A, xs) else MatTVec(a, A, xs);
      forall i | 0 <= i < |p| ensures p[i] == 0 {
        if rowAccess {
          assert |Row(a, A, i)| == 0;
        } else {
          assert |Column(a, A, i)| == 0;
        }
      }
    }
  }

  /** An input on which the two differ: N = 0 with 'n', beta = 2, y = [5]. The loops give
      y = [10]; reference xGEMV returns y = [5]. */
  lemma GemvEmptyProductScales()
    ensures Fits(0, Mat(0, 1, 1, 0))
    ensures GemvLoops(true, [], Mat(0, 1, 1, 0), 7, [], 2, [5]) == [10]
    ensures NetlibGemv(true, [], Mat(0, 1, 1, 0), 7, [], 2, [5]) == [5]
  {
    GemvLoopsMatchNetlib(true, [], Mat(0, 1, 1, 0), 7, [], 2, [5]);
    assert Scaled(2, [5]) == [10];
  }

  // ------------------------------------------------------------ partial results

  /** Start of column block k when the N columns are cut into blocks of b. */
  function Bound(k: nat, b: nat, n: nat): (r: nat)
    ensures r <= n
  {
    if k * b < n then k * b else n
  }

  lemma BoundMono(k: nat, b: nat, n: nat)
    ensures Bound(k, b, n) <= Bound(k + 1, b, n)
  {
    assert (k + 1) * b == k * b + b;
  }

  /** The partial result of row i over column block k. */
  function BlockDot(a: seq<int>, A: Mat, xs: seq<int>, b: nat, i: nat, k: nat): int
    requires Fits(|a|, A) && |xs| == A.cols && i < A.rows
  {
    BoundMono(k, b, A.cols);
    var lo, hi := Bound(k, b, A.cols), Bound(k + 1, b, A.cols);
    DotProduct(Row(a, A, i)[lo..hi], xs[lo..hi])
  }

  /** Column k of the partial-result matrix: block k of every row. */
  function PartialColumn(a: seq<int>, A: Mat, xs: seq<int>, b: nat, k: nat): (r: seq<int>)
    requires Fits(|a|, A) && |xs| == A.cols
    ensures |r| == A.rows
  {
    seq(A.rows, i requires 0 <= i < A.rows => BlockDot(a, A, xs, b, i, k))
  }

  /** The M x w partial-result matrix, column-major with leading dimension M. */
  function PartialMatrix(a: seq<int>, A: Mat, xs: seq<int>, b: nat, w: nat): (r: seq<int>)
    requires Fits(|a|, A) && |xs| == A.cols
    ensures |r| == w * A.rows
    decreases w
  {
    if w == 0 then []
    else
      assert (w - 1) * A.rows + A.rows == w * A.rows;
      PartialMatrix(a, A, xs, b, w - 1) + PartialColumn(a, A, xs, b, w - 1)
  }

  lemma {:induction false} PartialMatrixAt(a: seq<int>, A: Mat, xs: seq<int>, b: nat, w: nat, i: nat, k: nat)
    requires Fits(|a|, A) && |xs| == A.cols && i < A.rows && k < w
    ensures k * A.rows + i < w * A.rows
    ensures PartialMatrix(a, A, xs, b, w)[k * A.rows + i] == BlockDot(a, A, xs, b, i, k)
    decreases w
  {
    var m := A.rows;
    assert (w - 1) * m + m == w * m;
    if k < w - 1 {
      PartialMatrixAt(a, A, xs, b, w - 1, i, k);
    } else {
      assert k * m + i == (w - 1) * m + i;
    }
  }

  /** Sum of row i over the first w columns of a column-major matrix with M rows. */
  function ColumnSum(mat: seq<int>, m: nat, i: nat, w: nat): int
    requires i < m && w * m <= |mat|
    decreases w
  {
    if w == 0 then 0
    else
      assert (w - 1) * m + m == w * m;
      ColumnSum(mat, m, i, w - 1) + mat[(w - 1) * m + i]
  }

  /** make_addSetColumns: the vector of row sums of the partial-result matrix. */
  function AddSetColumns(mat: seq<int>, m: nat, w: nat): (r: seq<int>)
    requires w * m <= |mat|
    ensures |r| == m
  {
    seq(m, i requires 0 <= i < m => ColumnSum(mat, m, i, w))
  }

  /** The first k partial results of row i add up to the inner product over the columns
      before block k. */
  lemma {:induction false} ColumnSumPartials(a: seq<int>, A: Mat, xs: seq<int>, b: nat, w: nat, i: nat, k: nat)
    requires Fits(|a|, A) && |xs| == A.cols && i < A.rows && k <= w
    ensures k * A.rows <= w * A.rows
    ensures var hi := Bound(k, b, A.cols);
            ColumnSum(PartialMatrix(a, A, xs, b, w), A.rows, i, k) == DotProduct(Row(a, A, i)[..hi], xs[..hi])
    decreases k
  {
    var m, n := A.rows, A.cols;
    MulLe(k, w, m);
    var row := Row(a, A, i);
    if k == 0 {
      assert DotProduct(row[..0], xs[..0]) == 0;
    } else {
      ColumnSumPartials(a, A, xs, b, w, i, k - 1);
      PartialMatrixAt(a, A, xs, b, w, i, k - 1);
      BoundMono(k - 1, b, n);
      var lo, hi := Bound(k - 1, b, n), Bound(k, b, n);
      var u, v := row[..hi], xs[..hi];
      DotSplit(u, v, lo);
      assert u[..lo] == row[..lo] && v[..lo] == xs[..lo];
      assert u[lo..] == row[lo..hi] && v[lo..] == xs[lo..hi];
    }
  }

  /** Summing the partial-result matrix across its columns gives A * x, whenever the w
      blocks of b columns cover all N columns. */
  lemma PartialsSumToMatVec(a: seq<int>, A: Mat, xs: seq<int>, b: nat, w: nat)
    requires Fits(|a|, A) && |xs| == A.cols && w * b >= A.cols
    ensures AddSetColumns(PartialMatrix(a, A, xs, b, w), A.rows, w) == MatVec(a, A, xs)
  {
    var n := A.cols;
    assert Bound(w, b, n) == n;
    forall i | 0 <= i < A.rows
      ensures AddSetColumns(PartialMatrix(a, A, xs, b, w), A.rows, w)[i] == MatVec(a, A, xs)[i]
    {
      ColumnSumPartials(a, A, xs, b, w, i, w);
      assert Row(a, A, i)[..n] == Row(a, A, i) && xs[..n] == xs;
    }
  }

  /** A one-column partial-result matrix whose block spans all columns is A * x itself. */
  lemma OneColumnIsMatVec(a: seq<int>, A: Mat, xs: seq<int>, b: nat)
    requires Fits(|a|, A) && |xs| == A.cols && b >= A.cols
    ensures PartialMatrix(a, A, xs, b, 1) == MatVec(a, A, xs)
  {
    var n := A.cols;
    assert Bound(0, b, n) == 0 && Bound(1, b, n) == n;
    forall i | 0 <= i < A.rows ensures PartialMatrix(a, A, xs, b, 1)[i] == MatVec(a, A, xs)[i] {
      PartialMatrixAt(a, A, xs, b, 1, i, 0);
      assert Row(a, A, i)[0..n] == Row(a, A, i) && xs[0..n] == xs;
    }
  }

  /** Every row-access strategy that builds a partial-result matrix yields A * x, for
      every width w >= 1 and block size covering the columns. */
  lemma RowStrategiesAgree(a: seq<int>, A: Mat, xs: seq<int>, b1: nat, w: nat, b: nat)
    requires Fits(|a|, A) && |xs| == A.cols && b1 >= A.cols && w * b >= A.cols
    ensures PartialMatrix(a, A, xs, b1, 1) == AddSetColumns(PartialMatrix(a, A, xs, b, w), A.rows, w)
  {
    OneColumnIsMatVec(a, A, xs, b1);
    PartialsSumToMatVec(a, A, xs, b, w);
  }

  /** Block size for cutting N columns into w blocks: ceil(N / w). */
  function BlockSize(n: nat, w: nat): (b: nat)
    requires w >= 1
    ensures w * b >= n
  {
    var q := (n + w - 1) / w;
    assert q * w + (n + w - 1) % w == n + w - 1;
    q
  }

  // ------------------------------------------------------------ reference xGER

  /** New contents of column j: A(i, j) + alpha * (x(i) * y(j)). */
  function GerColumn(a: seq<int>, A: Mat, alpha: int, xs: seq<int>, ys: seq<int>, j: nat): (r: seq<int>)
    requires Fits(|a|, A) && |xs| == A.rows && |ys| == A.cols && j < A.cols
    ensures |r| == A.rows
  {
    var col := Column(a, A, j);
    seq(A.rows, i requires 0 <= i < A.rows => col[i] + alpha * (xs[i] * ys[j]))
  }

  /** The buffer after the first k columns of the rank-one update have been written. */
  function GerPrefix(a: seq<int>, A: Mat, alpha: int, xs: seq<int>, ys: seq<int>, k: nat): (r: seq<int>)
    requires Fits(|a|, A) && |xs| == A.rows && |ys| == A.cols && k <= A.cols
    ensures |r| == |a|
    decreases k
  {
    if k == 0 then a
    else
      ColumnInBounds(|a|, A.off, A.ld, A.rows, A.cols, k - 1);
      Scatter(GerPrefix(a, A, alpha, xs, ys, k - 1), Idx(A.off, A.ld, k - 1), 1, GerColumn(a, A, alpha, xs, ys, k - 1))
  }

  /** Reference xGER: A := A + alpha * x * y^T. */
  function Ger(a: seq<int>, A: Mat, alpha: int, xs: seq<int>, ys: seq<int>): (r: seq<int>)
    requires Fits(|a|, A) && |xs| == A.rows && |ys| == A.cols
    ensures |r| == |a|
  {
    GerPrefix(a, A, alpha, xs, ys, A.cols)
  }

  /** Position p is on none of the first k columns of the view. */
  ghost predicate OffColumns(p: nat, A: Mat, k: nat)
  {
    forall j :: 0 <= j < k ==> OffView(p, Idx(A.off, A.ld, j), 1, A.rows)
  }

  /** The buffer position of (i, j), for i < ld, is on no column of the view other than j. */
  lemma OffOtherColumns(A: Mat, i: nat, j: nat, k: nat)
    requires i < A.ld && A.rows <= A.ld
    ensures forall c :: 0 <= c < k && c != j ==> OffView(MatIdx(A.off, A.ld, i, j), Idx(A.off, A.ld, c), 1, A.rows)
  {
    var p := MatIdx(A.off, A.ld, i, j);
    forall c | 0 <= c < k && c != j ensures OffView(p, Idx(A.off, A.ld, c), 1, A.rows) {
      var s := Idx(A.off, A.ld, c);
      forall r | 0 <= r < A.rows ensures p != Idx(s, 1, r) {
        if c < j {
          MulLe(c + 1, j, A.ld);
          assert (c + 1) * A.ld == c * A.ld + A.ld;
        } else {
          MulLe(j + 1, c, A.ld);
          assert (j + 1) * A.ld == j * A.ld + A.ld;
        }
      }
      OffViewAt(p, s, 1, A.rows);
    }
  }

  /** After k columns, entry (i, j) of the view holds its new value when j < k and
      its old value otherwise; positions off the first k columns are untouched. */
  lemma {:induction false} GerPrefixAt(a: seq<int>, A: Mat, alpha: int, xs: seq<int>, ys: seq<int>,
                                       k: nat, i: nat, j: nat)
    requires Fits(|a|, A) && |xs| == A.rows && |ys| == A.cols && k <= A.cols
    requires A.rows <= A.ld && i < A.rows && j < A.cols
    ensures MatIdx(A.off, A.ld, i, j) < |a|
    ensures GerPrefix(a, A, alpha, xs, ys, k)[MatIdx(A.off, A.ld, i, j)]
         == if j < k then a[MatIdx(A.off, A.ld, i, j)] + alpha * (xs[i] * ys[j]) else a[MatIdx(A.off, A.ld, i, j)]
    decreases k
  {
    EntryAt(a, A, i, j);
    if k > 0 {
      var p := MatIdx(A.off, A.ld, i, j);
      var prev := GerPrefix(a, A, alpha, xs, ys, k - 1);
      var s := Idx(A.off, A.ld, k - 1);
      var v := GerColumn(a, A, alpha, xs, ys, k - 1);
      ColumnInBounds(|a|, A.off, A.ld, A.rows, A.cols, k - 1);
      GerPrefixAt(a, A, alpha, xs, ys, k - 1, i, j);
      if j == k - 1 {
        ScatterAt(prev, s, 1, v, i);
        assert Idx(s, 1, i) == p;
      } else {
        OffOtherColumns(A, i, j, k);
        ScatterOff(prev, s, 1, v, p);
      }
    }
  }

  /** Positions on none of the first k columns keep their value. */
  lemma {:induction false} GerPrefixOff(a: seq<int>, A: Mat, alpha: int, xs: seq<int>, ys: seq<int>, k: nat, p: nat)
    requires Fits(|a|, A) && |xs| == A.rows && |ys| == A.cols && k <= A.cols
    requires p < |a| && OffColumns(p, A, k)
    ensures GerPrefix(a, A, alpha, xs, ys, k)[p] == a[p]
    decreases k
  {
    if k > 0 {
      ColumnInBounds(|a|, A.off, A.ld, A.rows, A.cols, k - 1);
      GerPrefixOff(a, A, alpha, xs, ys, k - 1, p);
      ScatterOff(GerPrefix(a, A, alpha, xs, ys, k - 1), Idx(A.off, A.ld, k - 1), 1,
                 GerColumn(a, A, alpha, xs, ys, k - 1), p);
    }
  }

  /** Every entry (i, j) of the view gains alpha * x(i) * y(j). */
  lemma GerAt(a: seq<int>, A: Mat, alpha: int, xs: seq<int>, ys: seq<int>, i: nat, j: nat)
    requires Fits(|a|, A) && |xs| == A.rows && |ys| == A.cols && A.rows <= A.ld
    requires i < A.rows && j < A.cols
    ensures MatIdx(A.off, A.ld, i, j) < |a|
    ensures Ger(a, A, alpha, xs, ys)[MatIdx(A.off, A.ld, i, j)] == a[MatIdx(A.off, A.ld, i, j)] + alpha * (xs[i] * ys[j])
  {
    GerPrefixAt(a, A, alpha, xs, ys, A.cols, i, j);
  }

  /** The padding rows M .. ld - 1 of each column keep their value. */
  lemma GerPadding(a: seq<int>, A: Mat, alpha: int, xs: seq<int>, ys: seq<int>, i: nat, j: nat)
    requires Fits(|a|, A) && |xs| == A.rows && |ys| == A.cols && A.rows <= A.ld
    requires A.rows <= i < A.ld && j < A.cols && MatIdx(A.off, A.ld, i, j) < |a|
    ensures Ger(a, A, alpha, xs, ys)[MatIdx(A.off, A.ld, i, j)] == a[MatIdx(A.off, A.ld, i, j)]
  {
    var p := MatIdx(A.off, A.ld, i, j);
    OffOtherColumns(A, i, j, A.cols);
    forall r | 0 <= r < A.rows ensures p != Idx(Idx(A.off, A.ld, j), 1, r) {
    }
    OffViewAt(p, Idx(A.off, A.ld, j), 1, A.rows);
    GerPrefixOff(a, A, alpha, xs, ys, A.cols, p);
  }

  /** With alpha = 0 the rank-one update changes nothing. */
  lemma {:induction false} GerAlphaZero(a: seq<int>, A: Mat, xs: seq<int>, ys: seq<int>, k: nat)
    requires Fits(|a|, A) && |xs| == A.rows && |ys| == A.cols && k <= A.cols
    ensures GerPrefix(a, A, 0, xs, ys, k) == a
    decreases k
  {
    if k > 0 {
      GerAlphaZero(a, A, xs, ys, k - 1);
      ColumnInBounds(|a|, A.off, A.ld, A.rows, A.cols, k - 1);
      assert GerColumn(a, A, 0, xs, ys, k - 1) == Column(a, A, k - 1);
      ScatterGather(a, Idx(A.off, A.ld, k - 1), 1, A.rows);
    }
  }
}
