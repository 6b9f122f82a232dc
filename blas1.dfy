/** Level-1 point-wise routines: axpy, copy, the tiled copy with its scratch movers,
    swap, scal and rot. Each routine assigns, through a strided view, values computed
    from the views' values before the call; the sequential loop below replaces the
    device's one-work-item-per-element launch, which is valid because every output
    element depends only on input elements of the same logical index. */
module Blas1 {
  import opened Views
  import opened Ops

  /** _axpy: y := y + alpha * x over the views (offx, incx) and (offy, incy) of length n. */
  method Axpy(n: nat, alpha: int, x: array<int>, offx: nat, incx: nat,
              y: array<int>, offy: nat, incy: nat)
    requires incy >= 1 && x != y
    requires InBounds(x.Length, offx, incx, n) && InBounds(y.Length, offy, incy, n)
    modifies y
    ensures y[..] == Scatter(old(y[..]), offy, incy,
                             AxpyValues(alpha, Gather(x[..], offx, incx, n), Gather(old(y[..]), offy, incy, n)))
    ensures Gather(y[..], offy, incy, n)
         == AxpyValues(alpha, Gather(x[..], offx, incx, n), Gather(old(y[..]), offy, incy, n))
    ensures forall k :: 0 <= k < y.Length && OffView(k, offy, incy, n) ==> y[k] == old(y[k])
  {
    ghost var xs := Gather(x[..], offx, incx, n);
    ghost var ys := Gather(y[..], offy, incy, n);
    ghost var vals := AxpyValues(alpha, xs, ys);
    var i := 0;
    while i < n
      invariant 0 <= i <= n && InBounds(y.Length, offy, incy, i)
      invariant y[..] == Scatter(old(y[..]), offy, incy, vals[..i])
    {
      ScatterNext(old(y[..]), offy, incy, vals, i);
      GatherAt(x[..], offx, incx, n, i);
      GatherAt(old(y[..]), offy, incy, n, i);
      var p := Idx(offy, incy, i);
      y[p] := y[p] + alpha * x[Idx(offx, incx, i)];
      i := i + 1;
    }
    WriteBack(old(y[..]), offy, incy, vals);
  }

  /** _copy: y := x over the views (offx, incx) and (offy, incy) of length n. */
  method Copy(n: nat, x: array<int>, offx: nat, incx: nat, y: array<int>, offy: nat, incy: nat)
    requires incy >= 1 && x != y
    requires InBounds(x.Length, offx, incx, n) && InBounds(y.Length, offy, incy, n)
    modifies y
    ensures y[..] == Scatter(old(y[..]), offy, incy, Gather(x[..], offx, incx, n))
    ensures Gather(y[..], offy, incy, n) == Gather(x[..], offx, incx, n)
    ensures forall k :: 0 <= k < y.Length && OffView(k, offy, incy, n) ==> y[k] == old(y[k])
  {
    ghost var vals := Gather(x[..], offx, incx, n);
    var i := 0;
    while i < n
      invariant 0 <= i <= n && InBounds(y.Length, offy, incy, i)
      invariant y[..] == Scatter(old(y[..]), offy, incy, vals[..i])
    {
      ScatterNext(old(y[..]), offy, incy, vals, i);
      GatherAt(x[..], offx, incx, n, i);
      y[Idx(offy, incy, i)] := x[Idx(offx, incx, i)];
      i := i + 1;
    }
    WriteBack(old(y[..]), offy, incy, vals);
  }

  /** After the last write: the view holds the written values and nothing else changed. */
  lemma WriteBack(a: seq<int>, off: nat, inc: nat, v: seq<int>)
    requires inc >= 1 && InBounds(|a|, off, inc, |v|)
    ensures v[..|v|] == v
    ensures Gather(Scatter(a, off, inc, v), off, inc, |v|) == v
    ensures forall k :: 0 <= k < |a| && OffView(k, off, inc, |v|) ==> Scatter(a, off, inc, v)[k] == a[k]
  {
    GatherScatter(a, off, inc, v);
    forall k | 0 <= k < |a| && OffView(k, off, inc, |v|) ensures Scatter(a, off, inc, v)[k] == a[k] {
      ScatterOff(a, off, inc, v, k);
    }
  }

  /** _copy_into_scratch: tile[0 .. size) := source[base .. base + size). */
  method CopyIntoScratch(tile: array<int>, source: array<int>, size: nat, base: nat)
    requires tile != source && size <= tile.Length && base + size <= source.Length
    modifies tile
    ensures tile[..size] == source[base..base + size]
    ensures tile[size..] == old(tile[size..])
  {
    forall k | 0 <= k < size {
      tile[k] := source[base + k];
    }
  }

  /** _copy_from_scratch: dest[base .. base + size) := tile[0 .. size), the rest of dest kept. */
  method CopyFromScratch(tile: array<int>, dest: array<int>, size: nat, base: nat)
    requires tile != dest && size <= tile.Length && base + size <= dest.Length
    modifies dest
    ensures dest[..] == old(dest[..])[..base] + tile[..size] + old(dest[..])[base + size..]
  {
    forall k | base <= k < base + size {
      dest[k] := tile[k - base];
    }
  }

  /** t*c < q*c forces the next multiple of c to fit below q*c. */
  lemma MulLessStep(t: nat, q: nat, c: nat)
    requires t * c < q * c
    ensures t * c + c <= q * c
  {
    var d := q - t;
    assert d * c == q * c - t * c;
    assert d >= 1;
    MulLe(1, d, c);
  }

  /** The address arithmetic of one tile of the tiled copy through the view (base, inc). */
  lemma TileBounds(n: nat, i: nat, tile: nat, base: nat, inc: nat, len: nat)
    requires tile >= 1 && inc >= 1 && i + tile <= n && base + n * inc <= len
    ensures Idx(base, inc, i) == base + i * inc
    ensures base + i * inc + tile * inc <= len
    ensures InBounds(tile * inc, 0, inc, tile)
    ensures InBounds(len, base, inc, i + tile)
  {
    MulLe(i + tile, n, inc);
    assert (i + tile) * inc == i * inc + tile * inc;
    MulLess(tile - 1, tile, inc);
    InBoundsLast(tile * inc, 0, inc, tile);
    MulLess(i + tile - 1, i + tile, inc);
    InBoundsLast(len, base, inc, i + tile);
  }

  /** The copy between the tile views acts as if the y tile had been staged: when
      incy == 1 the view covers the whole tile, so the staged contents do not matter. */
  lemma TileStaging(stage: seq<int>, slice: seq<int>, incy: nat, w: seq<int>)
    requires |stage| == |slice| && InBounds(|slice|, 0, incy, |w|)
    requires incy != 1 ==> stage == slice
    requires incy == 1 ==> |slice| == |w|
    ensures Scatter(stage, 0, incy, w) == Scatter(slice, 0, incy, w)
  {
    if incy == 1 {
      ScatterFull(stage, w);
      ScatterFull(slice, w);
    }
  }

  /** Draining a tile that was assigned through its view is a scatter through the
      view of y that starts at the tile, which extends the copied prefix g by w. */
  lemma TileDrain(yOld: seq<int>, y0: seq<int>, g: seq<int>, w: seq<int>, yb: nat, incy: nat, lo: nat, hi: nat)
    requires InBounds(|yOld|, yb, incy, |g| + |w|) && InBounds(|yOld|, yb, incy, |g|)
    requires y0 == Scatter(yOld, yb, incy, g)
    requires lo == Idx(yb, incy, |g|) && lo <= hi <= |y0| && InBounds(hi - lo, 0, incy, |w|)
    ensures y0[..lo] + Scatter(y0[lo..hi], 0, incy, w) + y0[hi..] == Scatter(yOld, yb, incy, g + w)
  {
    ScatterAfterPrefix(yOld, y0, g, w, yb, incy, lo);
    ScatterInSlice(y0, w, incy, lo, hi);
  }

  /** The scatter of g + w continues, after g, at the view element |g|. */
  lemma ScatterAfterPrefix(yOld: seq<int>, y0: seq<int>, g: seq<int>, w: seq<int>, yb: nat, incy: nat, lo: nat)
    requires InBounds(|yOld|, yb, incy, |g| + |w|)
    requires InBounds(|yOld|, yb, incy, |g|) && y0 == Scatter(yOld, yb, incy, g)
    requires lo == Idx(yb, incy, |g|)
    ensures InBounds(|y0|, lo, incy, |w|)
    ensures Scatter(yOld, yb, incy, g + w) == Scatter(y0, lo, incy, w)
  {
    ScatterAppend(yOld, yb, incy, g, w);
  }

  /** A scatter that starts at lo and stays below hi only rewrites the slice [lo, hi). */
  lemma ScatterInSlice(y0: seq<int>, w: seq<int>, incy: nat, lo: nat, hi: nat)
    requires lo <= hi <= |y0| && InBounds(hi - lo, 0, incy, |w|)
    ensures InBounds(|y0|, lo, incy, |w|)
    ensures Scatter(y0, lo, incy, w) == y0[..lo] + Scatter(y0[lo..hi], 0, incy, w) + y0[hi..]
  {
    ScatterSlice(y0, lo, hi, 0, incy, w);
  }

  /** The contents after one iteration of the tiled copy over the views that start at
      xb and yb: xt is the staged x tile, yt the y tile after the assignment between the
      tile views, y1 the buffer y after the drain. Together they extend the copied
      prefix by one tile. */
  lemma TileIteration(xs: seq<int>, yOld: seq<int>, y0: seq<int>, stage: seq<int>,
                      xt: seq<int>, yt: seq<int>, y1: seq<int>,
                      i: nat, tile: nat, xb: nat, incx: nat, yb: nat, incy: nat, xlo: nat, ylo: nat)
    requires incx >= 1 && incy >= 1 && |y0| == |yOld|
    requires xlo == Idx(xb, incx, i) && ylo == Idx(yb, incy, i)
    requires xlo + |xt| <= |xs| && ylo + |stage| <= |y0|
    requires InBounds(|xt|, 0, incx, tile) && InBounds(|stage|, 0, incy, tile)
    requires InBounds(|xs|, xb, incx, i) && InBounds(|yOld|, yb, incy, i)
    requires InBounds(|xs|, xb, incx, i + tile) && InBounds(|yOld|, yb, incy, i + tile)
    requires y0 == Scatter(yOld, yb, incy, Gather(xs, xb, incx, i))
    requires incy != 1 ==> stage == y0[ylo..ylo + |stage|]
    requires incy == 1 ==> |stage| == tile
    requires xt == xs[xlo..xlo + |xt|]
    requires yt == Scatter(stage, 0, incy, Gather(xt, 0, incx, tile))
    requires y1 == y0[..ylo] + yt + y0[ylo + |stage|..]
    ensures y1 == Scatter(yOld, yb, incy, Gather(xs, xb, incx, i + tile))
  {
    var g := Gather(xs, xb, incx, i);
    var w := Gather(xt, 0, incx, tile);
    GatherSlice(xs, xlo, xlo + |xt|, 0, incx, tile);
    GatherSplit(xs, xb, incx, i, tile);
    assert Gather(xs, xb, incx, i + tile) == g + w;
    var slice := y0[ylo..ylo + |stage|];
    TileStaging(stage, slice, incy, w);
    assert yt == Scatter(slice, 0, incy, w);
    TileDrain(yOld, y0, g, w, yb, incy, ylo, ylo + |stage|);
    var front, back := y0[..ylo], y0[ylo + |stage|..];
    assert y1 == front + yt + back;
    assert front + yt + back == front + Scatter(slice, 0, incy, w) + back;
  }

  /** One iteration of the tiled copy's loop over the views that start at xb and yb:
      stage the next x tile (and y tile when incy != 1) into scratch, copy between the
      tile views, drain the y tile back. */
  method CopyTile(x: array<int>, y: array<int>, xTile: array<int>, yTile: array<int>,
                  ghost yOld: seq<int>, n: nat, i: nat, tile: nat, xb: nat, incx: nat, yb: nat, incy: nat)
    requires tile >= 1 && incx >= 1 && incy >= 1 && i + tile <= n
    requires x != y && xTile != x && xTile != y && yTile != x && yTile != y && xTile != yTile
    requires xTile.Length == tile * incx && yTile.Length == tile * incy
    requires xb + n * incx <= x.Length && yb + n * incy <= y.Length && |yOld| == y.Length
    requires InBounds(x.Length, xb, incx, i) && InBounds(y.Length, yb, incy, i)
    requires y[..] == Scatter(yOld, yb, incy, Gather(x[..], xb, incx, i))
    modifies y, xTile, yTile
    ensures InBounds(x.Length, xb, incx, i + tile) && InBounds(y.Length, yb, incy, i + tile)
    ensures y[..] == Scatter(yOld, yb, incy, Gather(x[..], xb, incx, i + tile))
  {
    TileBounds(n, i, tile, xb, incx, x.Length);
    TileBounds(n, i, tile, yb, incy, y.Length);
    var xlo, ylo := xb + i * incx, yb + i * incy;
    var xsz, ysz := tile * incx, tile * incy;
    ghost var y0 := y[..];
    CopyIntoScratch(xTile, x, xsz, xlo);
    assert xTile[..] == xTile[..xsz];
    if incy != 1 {
      CopyIntoScratch(yTile, y, ysz, ylo);
      assert yTile[..] == yTile[..ysz];
    }
    ghost var stage := yTile[..];
    Copy(tile, xTile, 0, incx, yTile, 0, incy);
    CopyFromScratch(yTile, y, ysz, ylo);
    assert yTile[..ysz] == yTile[..];
    TileIteration(x[..], yOld, y0, stage, xTile[..], yTile[..], y[..], i, tile, xb, incx, yb, incy, xlo, ylo);
  }

  /** The tile loop of _copy_tiled over the views that start at positions xb and yb of
      the two buffers: whole tiles of tile*inc elements are staged through scratch, so y
      receives its old gap elements back. */
  method CopyTiledLoop(n: nat, x: array<int>, xb: nat, incx: nat, y: array<int>, yb: nat, incy: nat, tile: nat)
    requires tile >= 1 && incx >= 1 && incy >= 1 && x != y && n % tile == 0
    requires xb + n * incx <= x.Length && yb + n * incy <= y.Length
    requires InBounds(x.Length, xb, incx, n) && InBounds(y.Length, yb, incy, n)
    modifies y
    ensures y[..] == Scatter(old(y[..]), yb, incy, Gather(x[..], xb, incx, n))
  {
    var xTile := new int[tile * incx];
    var yTile := new int[tile * incy];
    ghost var q := n / tile;
    assert n == q * tile;
    ghost var t := 0;
    var i := 0;
    assert Gather(x[..], xb, incx, 0) == [];
    while i < n
      invariant i == t * tile && i <= n
      invariant InBounds(x.Length, xb, incx, i) && InBounds(y.Length, yb, incy, i)
      invariant y[..] == Scatter(old(y[..]), yb, incy, Gather(x[..], xb, incx, i))
    {
      MulLessStep(t, q, tile);
      CopyTile(x, y, xTile, yTile, old(y[..]), n, i, tile, xb, incx, yb, incy);
      assert i + tile == (t + 1) * tile;
      i, t := i + tile, t + 1;
    }
  }

  /** _copy_tiled as written: the plain copy over the containers' views (offx, offy) when
      tile_size does not divide n (after a warning, not modelled); otherwise the tile loop
      over the raw buffers, which starts at position 0 whatever the containers' offsets. */
  method CopyTiled(n: nat, x: array<int>, offx: nat, incx: nat, y: array<int>, offy: nat, incy: nat, tile: nat)
    requires tile >= 1 && incx >= 1 && incy >= 1 && x != y
    requires InBounds(x.Length, offx, incx, n) && InBounds(y.Length, offy, incy, n)
    requires n % tile == 0 ==> InBounds(x.Length, 0, incx, n) && InBounds(y.Length, 0, incy, n)
    requires n % tile == 0 ==> n * incx <= x.Length && n * incy <= y.Length
    modifies y
    ensures n % tile != 0 ==> y[..] == Scatter(old(y[..]), offy, incy, Gather(x[..], offx, incx, n))
    ensures n % tile == 0 ==> y[..] == Scatter(old(y[..]), 0, incy, Gather(x[..], 0, incx, n))
    ensures offx == 0 && offy == 0 ==> Gather(y[..], offy, incy, n) == Gather(x[..], offx, incx, n)
    ensures offx == 0 && offy == 0 ==>
              forall k :: 0 <= k < y.Length && OffView(k, offy, incy, n) ==> y[k] == old(y[k])
  {
    if n % tile != 0 {
      Copy(n, x, offx, incx, y, offy, incy);
      return;
    }
    CopyTiledLoop(n, x, 0, incx, y, 0, incy, tile);
    WriteBack(old(y[..]), 0, incy, Gather(x[..], 0, incx, n));
  }

  /** With a container offset, the tiled path and the fallback write different
      positions: x = [5, 7] seen from offset 1 is [7], but the tiled path copies 5. */
  lemma CopyTiledIgnoresOffset()
    ensures InBounds(2, 1, 1, 1) && InBounds(2, 0, 1, 1)
    ensures Scatter([0, 0], 0, 1, Gather([5, 7], 0, 1, 1)) == [5, 0]
    ensures Scatter([0, 0], 0, 1, Gather([5, 7], 1, 1, 1)) == [7, 0]
  {
    assert Gather([5, 7], 0, 1, 1) == [5];
    assert Gather([5, 7], 1, 1, 1) == [7];
  }

  /** _copy_tiled with the tile loop addressed from the containers' offsets, as the
      fallback is: for every tile size the result is exactly the plain copy. */
  method CopyTiledAtOffsets(n: nat, x: array<int>, offx: nat, incx: nat, y: array<int>, offy: nat, incy: nat, tile: nat)
    requires tile >= 1 && incx >= 1 && incy >= 1 && x != y
    requires InBounds(x.Length, offx, incx, n) && InBounds(y.Length, offy, incy, n)
    requires n % tile == 0 ==> offx + n * incx <= x.Length && offy + n * incy <= y.Length
    modifies y
    ensures y[..] == Scatter(old(y[..]), offy, incy, Gather(x[..], offx, incx, n))
    ensures Gather(y[..], offy, incy, n) == Gather(x[..], offx, incx, n)
    ensures forall k :: 0 <= k < y.Length && OffView(k, offy, incy, n) ==> y[k] == old(y[k])
  {
    if n % tile != 0 {
      Copy(n, x, offx, incx, y, offy, incy);
      return;
    }
    CopyTiledLoop(n, x, offx, incx, y, offy, incy, tile);
    WriteBack(old(y[..]), offy, incy, Gather(x[..], offx, incx, n));
  }

  /** _swap: the dual assignment (x, y) := (y, x) over the two views. */
  method Swap(n: nat, x: array<int>, offx: nat, incx: nat, y: array<int>, offy: nat, incy: nat)
    requires incx >= 1 && incy >= 1 && x != y
    requires InBounds(x.Length, offx, incx, n) && InBounds(y.Length, offy, incy, n)
    modifies x, y
    ensures x[..] == Scatter(old(x[..]), offx, incx, Gather(old(y[..]), offy, incy, n))
    ensures y[..] == Scatter(old(y[..]), offy, incy, Gather(old(x[..]), offx, incx, n))
    ensures Gather(x[..], offx, incx, n) == Gather(old(y[..]), offy, incy, n)
    ensures Gather(y[..], offy, incy, n) == Gather(old(x[..]), offx, incx, n)
  {
    ghost var xs := Gather(x[..], offx, incx, n);
    ghost var ys := Gather(y[..], offy, incy, n);
    var i := 0;
    while i < n
      invariant 0 <= i <= n && InBounds(x.Length, offx, incx, i) && InBounds(y.Length, offy, incy, i)
      invariant x[..] == Scatter(old(x[..]), offx, incx, ys[..i])
      invariant y[..] == Scatter(old(y[..]), offy, incy, xs[..i])
    {
      ScatterNext(old(x[..]), offx, incx, ys, i);
      ScatterNext(old(y[..]), offy, incy, xs, i);
      GatherAt(old(x[..]), offx, incx, n, i);
      GatherAt(old(y[..]), offy, incy, n, i);
      var px, py := Idx(offx, incx, i), Idx(offy, incy, i);
      ghost var x0, y0 := x[..], y[..];
      x[px], y[py] := y[py], x[px];
      assert x[..] == x0[px := y0[py]];
      assert y[..] == y0[py := x0[px]];
      i := i + 1;
    }
    WriteBack(old(x[..]), offx, incx, ys);
    WriteBack(old(y[..]), offy, incy, xs);
  }

  /** _scal: x := alpha * x over the view (offx, incx) of length n. */
  method Scal(n: nat, alpha: int, x: array<int>, offx: nat, incx: nat)
    requires incx >= 1 && InBounds(x.Length, offx, incx, n)
    modifies x
    ensures x[..] == Scatter(old(x[..]), offx, incx, Scaled(alpha, Gather(old(x[..]), offx, incx, n)))
    ensures Gather(x[..], offx, incx, n) == Scaled(alpha, Gather(old(x[..]), offx, incx, n))
    ensures forall k :: 0 <= k < x.Length && OffView(k, offx, incx, n) ==> x[k] == old(x[k])
  {
    ghost var vals := Scaled(alpha, Gather(x[..], offx, incx, n));
    var i := 0;
    while i < n
      invariant 0 <= i <= n && InBounds(x.Length, offx, incx, i)
      invariant x[..] == Scatter(old(x[..]), offx, incx, vals[..i])
    {
      ScatterNext(old(x[..]), offx, incx, vals, i);
      GatherAt(old(x[..]), offx, incx, n, i);
      var p := Idx(offx, incx, i);
      x[p] := alpha * x[p];
      i := i + 1;
    }
    WriteBack(old(x[..]), offx, incx, vals);
  }

  /** _rot: the dual assignment (x, y) := (c*x + s*y, -s*x + c*y), both from the old values. */
  method Rot(n: nat, x: array<int>, offx: nat, incx: nat, y: array<int>, offy: nat, incy: nat,
             c: int, s: int)
    requires incx >= 1 && incy >= 1 && x != y
    requires InBounds(x.Length, offx, incx, n) && InBounds(y.Length, offy, incy, n)
    modifies x, y
    ensures x[..] == Scatter(old(x[..]), offx, incx,
                             RotFirst(c, s, Gather(old(x[..]), offx, incx, n), Gather(old(y[..]), offy, incy, n)))
    ensures y[..] == Scatter(old(y[..]), offy, incy,
                             RotSecond(c, s, Gather(old(x[..]), offx, incx, n), Gather(old(y[..]), offy, incy, n)))
    ensures Gather(x[..], offx, incx, n)
         == RotFirst(c, s, Gather(old(x[..]), offx, incx, n), Gather(old(y[..]), offy, incy, n))
    ensures Gather(y[..], offy, incy, n)
         == RotSecond(c, s, Gather(old(x[..]), offx, incx, n), Gather(old(y[..]), offy, incy, n))
  {
    ghost var xs := Gather(x[..], offx, incx, n);
    ghost var ys := Gather(y[..], offy, incy, n);
    ghost var xv := RotFirst(c, s, xs, ys);
    ghost var yv := RotSecond(c, s, xs, ys);
    var i := 0;
    while i < n
      invariant 0 <= i <= n && InBounds(x.Length, offx, incx, i) && InBounds(y.Length, offy, incy, i)
      invariant x[..] == Scatter(old(x[..]), offx, incx, xv[..i])
      invariant y[..] == Scatter(old(y[..]), offy, incy, yv[..i])
    {
      ScatterNext(old(x[..]), offx, incx, xv, i);
      ScatterNext(old(y[..]), offy, incy, yv, i);
      GatherAt(old(x[..]), offx, incx, n, i);
      GatherAt(old(y[..]), offy, incy, n, i);
      var px, py := Idx(offx, incx, i), Idx(offy, incy, i);
      ghost var x0, y0 := x[..], y[..];
      var xi, yi := x[px], y[py];
      assert xi == xs[i] && yi == ys[i];
      x[px], y[py] := c * xi + s * yi, -s * xi + c * yi;
      assert x[..] == x0[px := xv[i]];
      assert y[..] == y0[py := yv[i]];
      i := i + 1;
    }
    WriteBack(old(x[..]), offx, incx, xv);
    WriteBack(old(y[..]), offy, incy, yv);
  }

  // ------------------------------------------------------------ properties

  /** Copying x into y and then y into z hands z the contents of x's view. */
  lemma CopyRoundTrip(xs: seq<int>, offx: nat, incx: nat, ys: seq<int>, offy: nat, incy: nat,
                                         zs: seq<int>, offz: nat, incz: nat, n: nat)
    requires incy >= 1 && incz >= 1
    requires InBounds(|xs|, offx, incx, n) && InBounds(|ys|, offy, incy, n) && InBounds(|zs|, offz, incz, n)
    ensures Gather(Scatter(zs, offz, incz, Gather(Scatter(ys, offy, incy, Gather(xs, offx, incx, n)), offy, incy, n)),
                   offz, incz, n)
         == Gather(xs, offx, incx, n)
  {
    var v := Gather(xs, offx, incx, n);
    GatherScatter(ys, offy, incy, v);
    GatherScatter(zs, offz, incz, v);
  }

  /** With alpha = 0, axpy writes back what y's view already holds. */
  lemma AxpyZero(xs: seq<int>, offx: nat, incx: nat, ys: seq<int>, offy: nat, incy: nat, n: nat)
    requires InBounds(|xs|, offx, incx, n) && InBounds(|ys|, offy, incy, n)
    ensures Scatter(ys, offy, incy, AxpyValues(0, Gather(xs, offx, incx, n), Gather(ys, offy, incy, n))) == ys
  {
    var g := Gather(ys, offy, incy, n);
    assert AxpyValues(0, Gather(xs, offx, incx, n), g) == g;
    ScatterGather(ys, offy, incy, n);
  }

  /** Swapping twice restores both vectors. */
  lemma SwapTwice(xs: seq<int>, offx: nat, incx: nat, ys: seq<int>, offy: nat, incy: nat, n: nat)
    requires incx >= 1 && incy >= 1
    requires InBounds(|xs|, offx, incx, n) && InBounds(|ys|, offy, incy, n)
    ensures var x1 := Scatter(xs, offx, incx, Gather(ys, offy, incy, n));
            var y1 := Scatter(ys, offy, incy, Gather(xs, offx, incx, n));
            && Scatter(x1, offx, incx, Gather(y1, offy, incy, n)) == xs
            && Scatter(y1, offy, incy, Gather(x1, offx, incx, n)) == ys
  {
    var gx, gy := Gather(xs, offx, incx, n), Gather(ys, offy, incy, n);
    GatherScatter(ys, offy, incy, gx);
    GatherScatter(xs, offx, incx, gy);
    ScatterTwice(xs, offx, incx, gy, gx);
    ScatterTwice(ys, offy, incy, gx, gy);
    ScatterGather(xs, offx, incx, n);
    ScatterGather(ys, offy, incy, n);
  }

  /** Scaling by 1 leaves the vector unchanged. */
  lemma ScalOne(xs: seq<int>, offx: nat, incx: nat, n: nat)
    requires InBounds(|xs|, offx, incx, n)
    ensures Scatter(xs, offx, incx, Scaled(1, Gather(xs, offx, incx, n))) == xs
  {
    var g := Gather(xs, offx, incx, n);
    assert Scaled(1, g) == g;
    ScatterGather(xs, offx, incx, n);
  }

  /** The rotation with c = 1, s = 0 leaves both vectors unchanged. */
  lemma RotIdentity(xs: seq<int>, offx: nat, incx: nat, ys: seq<int>, offy: nat, incy: nat, n: nat)
    requires InBounds(|xs|, offx, incx, n) && InBounds(|ys|, offy, incy, n)
    ensures var gx, gy := Gather(xs, offx, incx, n), Gather(ys, offy, incy, n);
            && Scatter(xs, offx, incx, RotFirst(1, 0, gx, gy)) == xs
            && Scatter(ys, offy, incy, RotSecond(1, 0, gx, gy)) == ys
  {
    var gx, gy := Gather(xs, offx, incx, n), Gather(ys, offy, incy, n);
    assert RotFirst(1, 0, gx, gy) == gx;
    assert RotSecond(1, 0, gx, gy) == gy;
    ScatterGather(xs, offx, incx, n);
    ScatterGather(ys, offy, incy, n);
  }
}
