/** The two-phase reduction engine. An N-element input is split into consecutive groups
    of g elements (the last group may be shorter); each group is folded into one partial
    result (partial phase), and the partials are reduced again, by the same algorithm,
    until a single group remains (combine phase). For an associative combine rule the
    result is the flat left fold, whatever the group size. */
module Reduction {

  ghost predicate Associative<T(!new)>(op: (T, T) -> T)
  {
    forall a, b, c :: op(op(a, b), c) == op(a, op(b, c))
  }

  /** Left fold of a non-empty sequence. */
  function Fold<T>(op: (T, T) -> T, s: seq<T>): T
    requires |s| >= 1
    decreases |s|
  {
    if |s| == 1 then s[0] else op(Fold(op, s[..|s| - 1]), s[|s| - 1])
  }

  /** Partial phase: one folded value per group of g consecutive elements. */
  function Partials<T>(op: (T, T) -> T, s: seq<T>, g: nat): (r: seq<T>)
    requires |s| >= 1 && g >= 1
    ensures 1 <= |r| <= |s|
    ensures g >= 2 && |s| > g ==> |r| < |s|
    decreases |s|
  {
    if |s| <= g then [Fold(op, s)]
    else [Fold(op, s[..g])] + Partials(op, s[g..], g)
  }

  /** Partial phase followed by the recursive combine phase. */
  function Reduce<T>(op: (T, T) -> T, s: seq<T>, g: nat): T
    requires |s| >= 1 && g >= 2
    decreases |s|
  {
    if |s| <= g then Fold(op, s) else Reduce(op, Partials(op, s, g), g)
  }

  lemma {:induction false} FoldAppend<T(!new)>(op: (T, T) -> T, a: seq<T>, b: seq<T>)
    requires Associative(op) && |a| >= 1 && |b| >= 1
    ensures Fold(op, a + b) == op(Fold(op, a), Fold(op, b))
    decreases |b|
  {
    if |b| == 1 {
      assert (a + b)[..|a + b| - 1] == a;
    } else {
      assert (a + b)[..|a + b| - 1] == a + b[..|b| - 1];
      FoldAppend(op, a, b[..|b| - 1]);
    }
  }

  lemma FoldPrepend<T(!new)>(op: (T, T) -> T, x: T, b: seq<T>)
    requires Associative(op) && |b| >= 1
    ensures Fold(op, [x] + b) == op(x, Fold(op, b))
  {
    FoldAppend(op, [x], b);
  }

  /** Folding the partials gives the fold of the whole input. */
  lemma {:induction false} FoldPartials<T(!new)>(op: (T, T) -> T, s: seq<T>, g: nat)
    requires Associative(op) && |s| >= 1 && g >= 1
    ensures Fold(op, Partials(op, s, g)) == Fold(op, s)
    decreases |s|
  {
    if |s| > g {
      var rest := Partials(op, s[g..], g);
      FoldPartials(op, s[g..], g);
      FoldPrepend(op, Fold(op, s[..g]), rest);
      assert s == s[..g] + s[g..];
      FoldAppend(op, s[..g], s[g..]);
    }
  }

  /** The two-phase reduction equals the flat fold. */
  lemma {:induction false} ReduceIsFold<T(!new)>(op: (T, T) -> T, s: seq<T>, g: nat)
    requires Associative(op) && |s| >= 1 && g >= 2
    ensures Reduce(op, s, g) == Fold(op, s)
    decreases |s|
  {
    if |s| > g {
      ReduceIsFold(op, Partials(op, s, g), g);
      FoldPartials(op, s, g);
    }
  }

  // ---------------------------------------------------------------- sums

  function Add(a: int, b: int): int { a + b }

  /** Sum of a sequence, accumulated from the left. */
  function Sum(s: seq<int>): int
    decreases |s|
  {
    if |s| == 0 then 0 else Sum(s[..|s| - 1]) + s[|s| - 1]
  }

  lemma AddAssociative()
    ensures Associative(Add)
  {
  }

  lemma {:induction false} FoldAddIsSum(s: seq<int>)
    requires |s| >= 1
    ensures Fold(Add, s) == Sum(s)
    decreases |s|
  {
    if |s| > 1 {
      FoldAddIsSum(s[..|s| - 1]);
    }
  }

  /** Sum reduction (the rule of dot, asum and nrm2); an empty input gives 0. */
  function ReduceSum(s: seq<int>, g: nat): int
    requires g >= 2
  {
    if |s| == 0 then 0 else Reduce(Add, s, g)
  }

  lemma ReduceSumIsSum(s: seq<int>, g: nat)
    requires g >= 2
    ensures ReduceSum(s, g) == Sum(s)
  {
    if |s| > 0 {
      AddAssociative();
      ReduceIsFold(Add, s, g);
      FoldAddIsSum(s);
    }
  }

  lemma {:induction false} SumAppend(a: seq<int>, b: seq<int>)
    ensures Sum(a + b) == Sum(a) + Sum(b)
    decreases |b|
  {
    if |b| == 0 {
      assert a + b == a;
    } else {
      assert (a + b)[..|a + b| - 1] == a + b[..|b| - 1];
      SumAppend(a, b[..|b| - 1]);
    }
  }

  lemma {:induction false} SumNonNegative(s: seq<int>)
    requires forall i :: 0 <= i < |s| ==> s[i] >= 0
    ensures Sum(s) >= 0
    decreases |s|
  {
    if |s| > 0 {
      SumNonNegative(s[..|s| - 1]);
    }
  }

  /** A sum of non-negative terms is zero exactly when every term is zero. */
  lemma {:induction false} SumZeroIff(s: seq<int>)
    requires forall i :: 0 <= i < |s| ==> s[i] >= 0
    ensures Sum(s) == 0 <==> forall i :: 0 <= i < |s| ==> s[i] == 0
    decreases |s|
  {
    if |s| > 0 {
      var p := s[..|s| - 1];
      SumZeroIff(p);
      SumNonNegative(p);
      assert forall i :: 0 <= i < |p| ==> p[i] == s[i];
    }
  }

  // ------------------------------------------------------- index-value tuples

  /** A value paired with the logical index it came from. */
  datatype IndexValue = IndexValue(ind: nat, val: int)

  datatype Extremum = Max | Min

  /** Value u is strictly preferable to v for the rule e. */
  predicate Better(e: Extremum, u: int, v: int)
  {
    match e
    case Max => u > v
    case Min => u < v
  }

  /** Tuple p wins against q: better value, or equal value and no larger index. */
  predicate Beats(e: Extremum, p: IndexValue, q: IndexValue)
  {
    Better(e, p.val, q.val) || (p.val == q.val && p.ind <= q.ind)
  }

  /** The combine rule of the max-index and min-index reductions. */
  function Pick(e: Extremum, p: IndexValue, q: IndexValue): (r: IndexValue)
    ensures r == p || r == q
    ensures Beats(e, r, p) && Beats(e, r, q)
  {
    if Beats(e, p, q) then p else q
  }

  function PickOp(e: Extremum): (IndexValue, IndexValue) -> IndexValue
  {
    (p, q) => Pick(e, p, q)
  }

  lemma PickAssociative(e: Extremum)
    ensures Associative(PickOp(e))
  {
  }

  /** Pairs every element with its index (the tuple operation fed to the reduction). */
  function Tuples(s: seq<int>): (t: seq<IndexValue>)
    ensures |t| == |s|
    ensures forall i :: 0 <= i < |s| ==> t[i] == IndexValue(i, s[i])
  {
    seq(|s|, i requires 0 <= i < |s| => IndexValue(i, s[i]))
  }

  /** k is the first index of an extremal element of s. */
  predicate IsFirstExtremum(e: Extremum, s: seq<int>, k: nat)
  {
    && k < |s|
    && (forall j :: 0 <= j < |s| ==> !Better(e, s[j], s[k]))
    && (forall j :: 0 <= j < k ==> Better(e, s[k], s[j]))
  }

  /** The first extremal index is unique. */
  lemma FirstExtremumUnique(e: Extremum, s: seq<int>, k1: nat, k2: nat)
    requires IsFirstExtremum(e, s, k1) && IsFirstExtremum(e, s, k2)
    ensures k1 == k2
  {
    var v1, v2 := s[k1], s[k2];
    assert !Better(e, v1, v2) && !Better(e, v2, v1);
  }

  /** The flat fold of the index-value tuples selects the first extremal element. */
  lemma {:induction false} FoldPickFirstExtremum(e: Extremum, s: seq<int>)
    requires |s| >= 1
    ensures Fold(PickOp(e), Tuples(s)).ind < |s|
    ensures Fold(PickOp(e), Tuples(s)).val == s[Fold(PickOp(e), Tuples(s)).ind]
    ensures IsFirstExtremum(e, s, Fold(PickOp(e), Tuples(s)).ind)
    decreases |s|
  {
    var n := |s|;
    if n > 1 {
      var p := s[..n - 1];
      FoldPickFirstExtremum(e, p);
      assert Tuples(s)[..n - 1] == Tuples(p);
      var w := Fold(PickOp(e), Tuples(p));
      assert Fold(PickOp(e), Tuples(s)) == Pick(e, w, IndexValue(n - 1, s[n - 1]));
    }
  }

  /** Max-index / min-index reduction of a non-empty input. */
  function ReduceIndex(e: Extremum, s: seq<int>, g: nat): IndexValue
    requires |s| >= 1 && g >= 2
  {
    Reduce(PickOp(e), Tuples(s), g)
  }

  /** The two-phase index reduction reports the first extremal element, with its
      original index, whatever the group size. */
  lemma ReduceIndexIsFirstExtremum(e: Extremum, s: seq<int>, g: nat)
    requires |s| >= 1 && g >= 2
    ensures ReduceIndex(e, s, g).ind < |s|
    ensures ReduceIndex(e, s, g).val == s[ReduceIndex(e, s, g).ind]
    ensures IsFirstExtremum(e, s, ReduceIndex(e, s, g).ind)
  {
    PickAssociative(e);
    ReduceIsFold(PickOp(e), Tuples(s), g);
    FoldPickFirstExtremum(e, s);
  }
}
