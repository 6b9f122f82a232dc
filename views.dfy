/** Strided vector and column-major matrix views over a linear buffer.
    A vector view (off, inc, n) addresses logical element i at buf[off + i*inc];
    a matrix view (off, ld, m, n) addresses element (r, c) at buf[off + r + c*ld].
    The contents of a buffer are a `seq<int>`; `Gather` reads a view and `Scatter`
    writes values through one, element 0 first. Both walk the view by adding the
    increment, and the lemmas below relate them to the affine address `Idx`. */
module Views {

  /** Buffer position of logical element i of the vector view (off, inc). */
  function Idx(off: nat, inc: nat, i: nat): nat
  {
    off + i * inc
  }

  /** Buffer position of element (r, c) of a column-major matrix with leading dimension ld. */
  function MatIdx(off: nat, ld: nat, r: nat, c: nat): nat
  {
    Idx(off + r, ld, c)
  }

  /** Element i + 1 of a view is element i of the view that starts one step later. */
  lemma IdxStep(off: nat, inc: nat, i: nat)
    ensures Idx(off + inc, inc, i) == Idx(off, inc, i + 1)
  {
  }

  lemma MulLe(a: nat, b: nat, c: nat)
    requires a <= b
    ensures a * c <= b * c
  {
    assert b * c == a * c + (b - a) * c;
  }

  lemma MulLess(a: nat, b: nat, c: nat)
    requires a < b && c >= 1
    ensures a * c < b * c
  {
    MulLe(a + 1, b, c);
    assert (a + 1) * c == a * c + c;
  }

  /** Distinct elements of a view with a positive increment lie at distinct positions. */
  lemma IdxInjective(off: nat, inc: nat, i: nat, j: nat)
    requires inc >= 1 && j < i
    ensures Idx(off, inc, j) < Idx(off, inc, i)
  {
    MulLess(j, i, inc);
  }

  /** All n positions of the view (off, inc) lie below len. */
  predicate InBounds(len: nat, off: nat, inc: nat, n: nat)
    decreases n
  {
    n == 0 || (off < len && InBounds(len, off + inc, inc, n - 1))
  }

  /** Position k is none of the n positions of the view (off, inc). */
  predicate OffView(k: nat, off: nat, inc: nat, n: nat)
    decreases n
  {
    n == 0 || (k != off && OffView(k, off + inc, inc, n - 1))
  }

  /** Element i of an in-bounds view lies in the buffer. */
  lemma {:induction false} InBoundsAt(len: nat, off: nat, inc: nat, n: nat, i: nat)
    requires InBounds(len, off, inc, n) && i < n
    ensures Idx(off, inc, i) < len
    decreases n
  {
    if i > 0 {
      InBoundsAt(len, off + inc, inc, n - 1, i - 1);
      IdxStep(off, inc, i - 1);
    }
  }

  /** A view lies in the buffer exactly when its last element does. */
  lemma {:induction false} InBoundsLast(len: nat, off: nat, inc: nat, n: nat)
    ensures InBounds(len, off, inc, n) <==> (n == 0 || Idx(off, inc, n - 1) < len)
    decreases n
  {
    if n > 1 {
      InBoundsLast(len, off + inc, inc, n - 1);
      IdxStep(off, inc, n - 2);
      assert off <= Idx(off, inc, n - 1);
    }
  }

  /** The position k is off the view exactly when it differs from every element's position. */
  lemma {:induction false} OffViewAt(k: nat, off: nat, inc: nat, n: nat)
    ensures OffView(k, off, inc, n) <==> forall i :: 0 <= i < n ==> k != Idx(off, inc, i)
    decreases n
  {
    if n > 0 {
      OffViewAt(k, off + inc, inc, n - 1);
      if OffView(k, off, inc, n) {
        forall i | 0 <= i < n ensures k != Idx(off, inc, i) {
          if i > 0 {
            IdxStep(off, inc, i - 1);
          }
        }
      } else if k == off {
        assert k == Idx(off, inc, 0);
      } else {
        var j :| 0 <= j < n - 1 && k == Idx(off + inc, inc, j);
        IdxStep(off, inc, j);
        assert k == Idx(off, inc, j + 1);
      }
    }
  }

  lemma {:induction false} InBoundsPrefix(len: nat, off: nat, inc: nat, n: nat, k: nat)
    requires InBounds(len, off, inc, n) && k <= n
    ensures InBounds(len, off, inc, k)
    decreases k
  {
    if k > 0 {
      InBoundsPrefix(len, off + inc, inc, n - 1, k - 1);
    }
  }

  /** A view of n + k elements is in bounds exactly when its first n elements and the
      view of k elements that starts at element n are. */
  lemma {:induction false} InBoundsSplit(len: nat, off: nat, inc: nat, n: nat, k: nat)
    ensures InBounds(len, off, inc, n + k)
        <==> InBounds(len, off, inc, n) && InBounds(len, Idx(off, inc, n), inc, k)
    decreases n
  {
    if n > 0 {
      InBoundsSplit(len, off + inc, inc, n - 1, k);
      IdxStep(off, inc, n - 1);
    }
  }

  /** A view of a slice [lo, ...) of a buffer is a view of the buffer shifted by lo. */
  lemma {:induction false} InBoundsShift(len: nat, big: nat, lo: nat, p: nat, inc: nat, n: nat)
    requires InBounds(len, p, inc, n) && lo + len <= big
    ensures InBounds(big, lo + p, inc, n)
    decreases n
  {
    if n > 0 {
      InBoundsShift(len, big, lo, p + inc, inc, n - 1);
    }
  }

  /** A unit-stride view is in bounds when its extent is. */
  lemma {:induction false} InBoundsUnit(len: nat, p: nat, n: nat)
    requires p + n <= len
    ensures InBounds(len, p, 1, n)
    decreases n
  {
    if n > 0 {
      InBoundsUnit(len, p + 1, n - 1);
    }
  }

  // ------------------------------------------------------------ vector views

  /** The logical contents of the view (off, inc) of length n. */
  function Gather(a: seq<int>, off: nat, inc: nat, n: nat): (r: seq<int>)
    requires InBounds(|a|, off, inc, n)
    ensures |r| == n
    decreases n
  {
    if n == 0 then [] else [a[off]] + Gather(a, off + inc, inc, n - 1)
  }

  /** Logical element i of the view is the buffer element at Idx(off, inc, i). */
  lemma {:induction false} GatherAt(a: seq<int>, off: nat, inc: nat, n: nat, i: nat)
    requires InBounds(|a|, off, inc, n) && i < n
    ensures Idx(off, inc, i) < |a| && Gather(a, off, inc, n)[i] == a[Idx(off, inc, i)]
    decreases n
  {
    InBoundsAt(|a|, off, inc, n, i);
    if i > 0 {
      GatherAt(a, off + inc, inc, n - 1, i - 1);
      IdxStep(off, inc, i - 1);
    }
  }

  /** Writes v[0], v[1], ... in turn to the positions of the view (off, inc). */
  function Scatter(a: seq<int>, off: nat, inc: nat, v: seq<int>): (r: seq<int>)
    requires InBounds(|a|, off, inc, |v|)
    ensures |r| == |a|
    decreases |v|
  {
    if |v| == 0 then a else Scatter(a[off := v[0]], off + inc, inc, v[1..])
  }

  /** Positions below the view's offset are not written. */
  lemma {:induction false} ScatterBelow(a: seq<int>, off: nat, inc: nat, v: seq<int>, k: nat)
    requires InBounds(|a|, off, inc, |v|) && k < off && k < |a|
    ensures Scatter(a, off, inc, v)[k] == a[k]
    decreases |v|
  {
    if |v| > 0 {
      ScatterBelow(a[off := v[0]], off + inc, inc, v[1..], k);
    }
  }

  /** A write below the view's offset commutes with the scatter. */
  lemma {:induction false} ScatterUpdateBelow(a: seq<int>, off: nat, inc: nat, v: seq<int>, k: nat, x: int)
    requires InBounds(|a|, off, inc, |v|) && k < off && k < |a|
    ensures Scatter(a, off, inc, v)[k := x] == Scatter(a[k := x], off, inc, v)
    decreases |v|
  {
    if |v| > 0 {
      assert a[k := x][off := v[0]] == a[off := v[0]][k := x];
      ScatterUpdateBelow(a[off := v[0]], off + inc, inc, v[1..], k, x);
    }
  }

  /** Position i of the view holds v[i] after the scatter. */
  lemma {:induction false} ScatterAt(a: seq<int>, off: nat, inc: nat, v: seq<int>, i: nat)
    requires inc >= 1 && InBounds(|a|, off, inc, |v|) && i < |v|
    ensures Idx(off, inc, i) < |a| && Scatter(a, off, inc, v)[Idx(off, inc, i)] == v[i]
    decreases |v|
  {
    InBoundsAt(|a|, off, inc, |v|, i);
    if i == 0 {
      ScatterBelow(a[off := v[0]], off + inc, inc, v[1..], off);
    } else {
      ScatterAt(a[off := v[0]], off + inc, inc, v[1..], i - 1);
      IdxStep(off, inc, i - 1);
    }
  }

  /** Positions off the view keep their value. */
  lemma {:induction false} ScatterOff(a: seq<int>, off: nat, inc: nat, v: seq<int>, k: nat)
    requires InBounds(|a|, off, inc, |v|) && k < |a| && OffView(k, off, inc, |v|)
    ensures Scatter(a, off, inc, v)[k] == a[k]
    decreases |v|
  {
    if |v| > 0 {
      ScatterOff(a[off := v[0]], off + inc, inc, v[1..], k);
    }
  }

  /** After a scatter, every position off the view keeps its value. */
  lemma ScatterFrame(a: seq<int>, off: nat, inc: nat, v: seq<int>)
    requires InBounds(|a|, off, inc, |v|)
    ensures forall k :: 0 <= k < |a| && OffView(k, off, inc, |v|) ==> Scatter(a, off, inc, v)[k] == a[k]
  {
    forall k | 0 <= k < |a| && OffView(k, off, inc, |v|) ensures Scatter(a, off, inc, v)[k] == a[k] {
      ScatterOff(a, off, inc, v, k);
    }
  }

  /** Reading a view back after writing it yields what was written. */
  lemma {:induction false} GatherScatter(a: seq<int>, off: nat, inc: nat, v: seq<int>)
    requires inc >= 1 && InBounds(|a|, off, inc, |v|)
    ensures Gather(Scatter(a, off, inc, v), off, inc, |v|) == v
    decreases |v|
  {
    if |v| > 0 {
      var a1 := a[off := v[0]];
      GatherScatter(a1, off + inc, inc, v[1..]);
      ScatterBelow(a1, off + inc, inc, v[1..], off);
      assert v == [v[0]] + v[1..];
    }
  }

  /** Writing back what a view already holds leaves the buffer unchanged. */
  lemma {:induction false} ScatterGather(a: seq<int>, off: nat, inc: nat, n: nat)
    requires InBounds(|a|, off, inc, n)
    ensures Scatter(a, off, inc, Gather(a, off, inc, n)) == a
    decreases n
  {
    if n > 0 {
      var g := Gather(a, off, inc, n);
      assert g[0] == a[off] && g[1..] == Gather(a, off + inc, inc, n - 1);
      assert a[off := a[off]] == a;
      ScatterGather(a, off + inc, inc, n - 1);
    }
  }

  /** A second write through the same view overrides the first completely. */
  lemma {:induction false} ScatterTwice(a: seq<int>, off: nat, inc: nat, v: seq<int>, w: seq<int>)
    requires inc >= 1 && |v| == |w| && InBounds(|a|, off, inc, |v|)
    ensures Scatter(Scatter(a, off, inc, v), off, inc, w) == Scatter(a, off, inc, w)
    decreases |v|
  {
    if |v| > 0 {
      var a1 := a[off := v[0]];
      ScatterUpdateBelow(a1, off + inc, inc, v[1..], off, w[0]);
      assert a1[off := w[0]] == a[off := w[0]];
      ScatterTwice(a[off := w[0]], off + inc, inc, v[1..], w[1..]);
    }
  }

  /** Scattering v ++ w is scattering v, then w through the view that starts after v. */
  lemma {:induction false} ScatterAppend(a: seq<int>, off: nat, inc: nat, v: seq<int>, w: seq<int>)
    requires InBounds(|a|, off, inc, |v| + |w|)
    ensures InBounds(|a|, off, inc, |v|) && InBounds(|a|, Idx(off, inc, |v|), inc, |w|)
    ensures Scatter(a, off, inc, v + w)
         == Scatter(Scatter(a, off, inc, v), Idx(off, inc, |v|), inc, w)
    decreases |v|
  {
    InBoundsSplit(|a|, off, inc, |v|, |w|);
    if |v| == 0 {
      assert v + w == w;
    } else {
      assert (v + w)[0] == v[0] && (v + w)[1..] == v[1..] + w;
      InBoundsSplit(|a|, off + inc, inc, |v| - 1, |w|);
      ScatterAppend(a[off := v[0]], off + inc, inc, v[1..], w);
      IdxStep(off, inc, |v| - 1);
    }
  }

  /** A scatter confined to the slice [lo, hi) only rewrites that slice. */
  lemma {:induction false} ScatterSlice(a: seq<int>, lo: nat, hi: nat, p: nat, inc: nat, w: seq<int>)
    requires lo <= hi <= |a| && InBounds(hi - lo, p, inc, |w|)
    ensures InBounds(|a|, lo + p, inc, |w|)
    ensures Scatter(a, lo + p, inc, w) == a[..lo] + Scatter(a[lo..hi], p, inc, w) + a[hi..]
    decreases |w|
  {
    InBoundsShift(hi - lo, |a|, lo, p, inc, |w|);
    if |w| == 0 {
      assert a == a[..lo] + a[lo..hi] + a[hi..];
    } else {
      var b := a[lo + p := w[0]];
      assert b[lo..hi] == a[lo..hi][p := w[0]];
      assert b[..lo] == a[..lo] && b[hi..] == a[hi..];
      ScatterSlice(b, lo, hi, p + inc, inc, w[1..]);
    }
  }

  /** Scattering through a unit-stride view overwrites a contiguous block. */
  lemma {:induction false} ScatterUnit(t: seq<int>, p: nat, w: seq<int>)
    requires p + |w| <= |t|
    ensures InBounds(|t|, p, 1, |w|)
    ensures Scatter(t, p, 1, w) == t[..p] + w + t[p + |w|..]
    decreases |w|
  {
    InBoundsUnit(|t|, p, |w|);
    if |w| == 0 {
      assert t == t[..p] + t[p..];
    } else {
      var b := t[p := w[0]];
      ScatterUnit(b, p + 1, w[1..]);
      assert b[..p + 1] == t[..p] + [w[0]];
      assert b[p + 1 + |w[1..]|..] == t[p + |w|..];
      assert w == [w[0]] + w[1..];
    }
  }

  /** A unit-stride scatter of a whole buffer replaces it. */
  lemma ScatterFull(t: seq<int>, w: seq<int>)
    requires |w| == |t|
    ensures InBounds(|t|, 0, 1, |w|)
    ensures Scatter(t, 0, 1, w) == w
  {
    ScatterUnit(t, 0, w);
    assert t[..0] + w + t[|w|..] == w;
  }

  /** One more step of a loop that writes v through a view: element i of the view
      still holds its original value, and writing v[i] there extends the prefix. */
  lemma ScatterNext(a: seq<int>, off: nat, inc: nat, v: seq<int>, i: nat)
    requires inc >= 1 && InBounds(|a|, off, inc, |v|) && i < |v|
    ensures InBounds(|a|, off, inc, i) && InBounds(|a|, off, inc, i + 1)
    ensures Idx(off, inc, i) < |a|
    ensures Scatter(a, off, inc, v[..i])[Idx(off, inc, i)] == a[Idx(off, inc, i)]
    ensures Scatter(a, off, inc, v[..i + 1])
         == Scatter(a, off, inc, v[..i])[Idx(off, inc, i) := v[i]]
  {
    InBoundsPrefix(|a|, off, inc, |v|, i);
    InBoundsPrefix(|a|, off, inc, |v|, i + 1);
    InBoundsAt(|a|, off, inc, |v|, i);
    var p := Idx(off, inc, i);
    forall j | 0 <= j < i ensures p != Idx(off, inc, j) {
      IdxInjective(off, inc, i, j);
    }
    OffViewAt(p, off, inc, i);
    ScatterOff(a, off, inc, v[..i], p);
    assert v[..i + 1] == v[..i] + [v[i]];
    ScatterAppend(a, off, inc, v[..i], [v[i]]);
  }

  /** A view of a slice of the buffer is the view shifted by the slice's start. */
  lemma {:induction false} GatherSlice(a: seq<int>, lo: nat, hi: nat, p: nat, inc: nat, n: nat)
    requires lo <= hi <= |a| && InBounds(hi - lo, p, inc, n)
    ensures InBounds(|a|, lo + p, inc, n)
    ensures Gather(a[lo..hi], p, inc, n) == Gather(a, lo + p, inc, n)
    decreases n
  {
    InBoundsShift(hi - lo, |a|, lo, p, inc, n);
    if n > 0 {
      GatherSlice(a, lo, hi, p + inc, inc, n - 1);
    }
  }

  /** The view of n + k elements is the view of n elements followed by the view of k
      elements that starts at element n. */
  lemma {:induction false} GatherSplit(a: seq<int>, off: nat, inc: nat, n: nat, k: nat)
    requires InBounds(|a|, off, inc, n + k)
    ensures InBounds(|a|, off, inc, n) && InBounds(|a|, Idx(off, inc, n), inc, k)
    ensures Gather(a, off, inc, n + k) == Gather(a, off, inc, n) + Gather(a, Idx(off, inc, n), inc, k)
    decreases n
  {
    InBoundsSplit(|a|, off, inc, n, k);
    if n > 0 {
      GatherSplitStep(a, off, inc, n, k, Idx(off, inc, n));
    }
  }

  lemma {:induction false} GatherSplitStep(a: seq<int>, off: nat, inc: nat, n: nat, k: nat, mid: nat)
    requires n > 0 && InBounds(|a|, off, inc, n + k) && mid == Idx(off + inc, inc, n - 1)
    requires InBounds(|a|, off, inc, n) && InBounds(|a|, mid, inc, k)
    ensures Gather(a, off, inc, n + k) == Gather(a, off, inc, n) + Gather(a, mid, inc, k)
    decreases n, 0
  {
    InBoundsSplit(|a|, off + inc, inc, n - 1, k);
    GatherSplit(a, off + inc, inc, n - 1, k);
    var head, front, back := [a[off]], Gather(a, off + inc, inc, n - 1), Gather(a, mid, inc, k);
    assert Gather(a, off, inc, n + k) == head + Gather(a, off + inc, inc, n - 1 + k);
    assert head + (front + back) == (head + front) + back;
  }

  // ------------------------------------------------------------ matrix views

  /** Every column of the m x n column-major view (off, ld) lies below len. */
  predicate MatInBounds(len: nat, off: nat, ld: nat, m: nat, n: nat)
    decreases n
  {
    n == 0 || (InBounds(len, off, 1, m) && MatInBounds(len, off + ld, ld, m, n - 1))
  }

  /** Column c of an in-bounds matrix view is the unit-stride view of length m that
      starts at MatIdx(off, ld, 0, c). */
  lemma {:induction false} ColumnInBounds(len: nat, off: nat, ld: nat, m: nat, n: nat, c: nat)
    requires MatInBounds(len, off, ld, m, n) && c < n
    ensures InBounds(len, Idx(off, ld, c), 1, m)
    decreases n
  {
    if c > 0 {
      ColumnInBounds(len, off + ld, ld, m, n - 1, c - 1);
      IdxStep(off, ld, c - 1);
    }
  }

  /** Row r of an in-bounds matrix view is the vector view (off + r, ld) of length n. */
  lemma {:induction false} RowInBounds(len: nat, off: nat, ld: nat, m: nat, n: nat, r: nat)
    requires MatInBounds(len, off, ld, m, n) && r < m
    ensures InBounds(len, off + r, ld, n)
    decreases n
  {
    if n > 0 {
      InBoundsAt(len, off, 1, m, r);
      RowInBounds(len, off + ld, ld, m, n - 1, r);
    }
  }
}
