/**
  convert_lora_to_gguf.py: the operations of `LoraTorchTensor` with their refusals.  Whatever an
  operation returns stands for the same operation on the dense product.
  */
module LoraOps {
  import opened Basics
  import opened Lora

  /** A pair, or an exception. */
  datatype Outcome = Done(pair: Pair) | Raised

  // ----- permute and transpose (lines 163-180) -----

  /** `permute` with the axes counted from the start. */
  ghost function PermuteBy(p: Pair, axes: seq<nat>): Outcome
    requires Valid(p) && Permutation(axes) && |axes| == |p.b.shape|
  {
    var n := |axes|;
    if axes[n - 1] == n - 1 then
      if LeadingOnes(p) then Done(Pair(p.a, Permuted(p.b, axes))) else Raised
    else if n == 2 then
      Done(Pair(Permuted(p.b, axes), Permuted(p.a, axes)))
    else
      Raised
  }

  lemma PermuteByMeansPermute(p: Pair, axes: seq<nat>)
    requires Valid(p) && Permutation(axes) && |axes| == |p.b.shape|
    ensures var q := PermuteBy(p, axes);
            q.Done? ==> Valid(q.pair) && Same(Product(q.pair), Permuted(Product(p), axes))
  {
    var n := |axes|;
    if axes[n - 1] == n - 1 {
      if LeadingOnes(p) {
        PermuteCommutes(p, axes);
      }
    } else if n == 2 {
      SwapMatrix(p, axes);
    }
  }

  /** Dimensions that are not negative are counted from the end (line 165). */
  function FromEnd(dims: seq<int>, n: nat): (r: seq<int>)
    ensures |r| == |dims| && forall i :: 0 <= i < |r| ==> r[i] == if dims[i] >= 0 then dims[i] - n else dims[i]
  {
    seq(|dims|, i requires 0 <= i < |dims| => if dims[i] >= 0 then dims[i] - n else dims[i])
  }

  predicate InAxes(ds: seq<int>, n: nat) { forall i :: 0 <= i < |ds| ==> 0 <= ds[i] + n < 2 * n }

  /** The axes that torch takes the dimensions for. */
  function AxesOf(ds: seq<int>, n: nat): (r: seq<nat>)
    requires InAxes(ds, n)
    ensures |r| == |ds| && forall i :: 0 <= i < |r| ==> r[i] == Normal(ds[i], n)
  {
    seq(|ds|, i requires 0 <= i < |ds| => Normal(ds[i], n))
  }

  /** What torch accepts as the dimensions of a permutation. */
  ghost predicate Permutes(ds: seq<int>, n: nat) { |ds| == n && InAxes(ds, n) && Permutation(AxesOf(ds, n)) }

  /** `permute`. */
  ghost function Permute(p: Pair, dims: seq<int>): Outcome
    requires Valid(p)
  {
    var n, k, ds := |p.b.shape|, |dims|, FromEnd(dims, |p.b.shape|);
    if dims == [] then Raised
    else if ds[k - 1] == -1 then
      if LeadingOnes(p) && Permutes(ds, n) then Done(Pair(p.a, Permuted(p.b, AxesOf(ds, n)))) else Raised
    else if n == 2 && k >= 2 && ds[k - 1] == -2 && ds[k - 2] == -1 && Permutes(ds, n) then
      Done(Pair(Permuted(p.b, AxesOf(ds, n)), Permuted(p.a, AxesOf(ds, n))))
    else
      Raised
  }

  /** Dimensions in the range of torch are the axes they name, counted from either end. */
  lemma DimsAreAxes(dims: seq<int>, n: nat)
    requires InAxes(dims, n)
    ensures InAxes(FromEnd(dims, n), n) && AxesOf(FromEnd(dims, n), n) == AxesOf(dims, n)
  {
  }

  /**
    Every permutation that is not refused permutes the product by the axes its dimensions name.  A dimension
    from n to 2n - 1, which torch would refuse, is taken for the one n below it.
    */
  lemma PermuteMeansPermute(p: Pair, dims: seq<int>)
    requires Valid(p)
    ensures var q, n, ds := Permute(p, dims), |p.b.shape|, FromEnd(dims, |p.b.shape|);
            && (q.Done? ==> Permutes(ds, n) && Valid(q.pair) && Same(Product(q.pair), Permuted(Product(p), AxesOf(ds, n))))
            && (InAxes(dims, n) ==> InAxes(ds, n) && AxesOf(ds, n) == AxesOf(dims, n))
  {
    var n, ds := |p.b.shape|, FromEnd(dims, |p.b.shape|);
    if InAxes(dims, n) {
      DimsAreAxes(dims, n);
    }
    if Permute(p, dims).Done? {
      PermuteIsBy(p, dims);
      PermuteByMeansPermute(p, AxesOf(ds, n));
    }
  }

  /** The branch is chosen by the axes that are named. */
  lemma PermuteIsBy(p: Pair, dims: seq<int>)
    requires Valid(p) && Permute(p, dims).Done?
    ensures var n, ds := |p.b.shape|, FromEnd(dims, |p.b.shape|);
            Permutes(ds, n) && Permute(p, dims) == PermuteBy(p, AxesOf(ds, n))
  {
    var n, ds := |p.b.shape|, FromEnd(dims, |p.b.shape|);
    assert AxesOf(ds, n)[n - 1] == Normal(ds[n - 1], n);
  }

  lemma TwoAxes(dims: seq<nat>)
    requires Permutation(dims) && |dims| == 2 && dims[1] != 1
    ensures dims == [1, 0] && Position(dims, 0) == 1 && Position(dims, 1) == 0
  {
    assert dims[1] == 0 && dims[0] == 1;
  }

  lemma SwappedIndex(dims: seq<nat>, idx: Index)
    requires Permutation(dims) && |dims| == |idx| == 2 && dims[1] != 1
    ensures Unpermuted(dims, idx) == [idx[1], idx[0]]
  {
    TwoAxes(dims);
  }

  lemma SwapMatrix(p: Pair, dims: seq<nat>)
    requires Valid(p) && Permutation(dims) && |dims| == |p.b.shape| == 2 && dims[1] != 1
    ensures var q := Pair(Permuted(p.b, dims), Permuted(p.a, dims));
            Valid(q) && Same(Product(q), Permuted(Product(p), dims))
  {
    var q := Pair(Permuted(p.b, dims), Permuted(p.a, dims));
    SwappedShapes(p, dims);
    forall idx: Index ensures SameAt(Product(q), Permuted(Product(p), dims), idx) {
      if InBounds(Shape(q), idx) {
        SwappedIndex(dims, idx);
        SwappedEntry(p, dims, idx);
      }
    }
  }

  lemma SwappedShapes(p: Pair, dims: seq<nat>)
    requires Valid(p) && Permutation(dims) && |dims| == |p.b.shape| == 2 && dims[1] != 1
    ensures var q := Pair(Permuted(p.b, dims), Permuted(p.a, dims));
            Valid(q) && Shape(q) == Permuted(Product(p), dims).shape && Rank(q) == Rank(p)
  {
    TwoAxes(dims);
    var q := Pair(Permuted(p.b, dims), Permuted(p.a, dims));
    assert Permuted(Product(p), dims).shape == [p.a.shape[1], p.b.shape[0]] == Shape(q);
  }

  lemma SwappedEntry(p: Pair, dims: seq<nat>, idx: Index)
    requires Valid(p) && Permutation(dims) && |dims| == |p.b.shape| == |idx| == 2 && dims[1] != 1
    requires Valid(Pair(Permuted(p.b, dims), Permuted(p.a, dims)))
    ensures Product(Pair(Permuted(p.b, dims), Permuted(p.a, dims))).at(idx) == Product(p).at([idx[1], idx[0]])
  {
    var q, jdx := Pair(Permuted(p.b, dims), Permuted(p.a, dims)), [idx[1], idx[0]];
    SwappedShapes(p, dims);
    forall k: nat | k < Rank(q) ensures TermsAgree(q, idx, p, jdx, k) {
      SwappedTerm(p, dims, idx, jdx, k);
    }
    EntriesAgree(q, idx, p, jdx);
  }

  lemma SwappedTerm(p: Pair, dims: seq<nat>, idx: Index, jdx: Index, k: nat)
    requires Valid(p) && Permutation(dims) && |dims| == |p.b.shape| == |idx| == 2 && dims[1] != 1
    requires jdx == [idx[1], idx[0]] && Valid(Pair(Permuted(p.b, dims), Permuted(p.a, dims)))
    ensures TermsAgree(Pair(Permuted(p.b, dims), Permuted(p.a, dims)), idx, p, jdx, k)
  {
    MatrixTerm(Pair(Permuted(p.b, dims), Permuted(p.a, dims)), idx, k);
    MatrixTerm(p, jdx, k);
    SwappedIndex(dims, [idx[0], k]);
    SwappedIndex(dims, [k, idx[1]]);
  }

  /** The list `transpose` hands to `permute`. */
  function SwapAxes(n: nat, d: nat, e: nat): (r: seq<nat>)
    requires d < n && e < n
    ensures |r| == n
  {
    seq(n, i => i)[d := e][e := d]
  }

  lemma SwapAxesIsPermutation(n: nat, d: nat, e: nat)
    requires d < n && e < n
    ensures Permutation(SwapAxes(n, d, e))
  {
    var r := SwapAxes(n, d, e);
    forall m | 0 <= m < n ensures m in r {
      assert r[if m == d then e else if m == e then d else m] == m;
    }
  }

  /** `u` is `t` with two axes exchanged. */
  ghost predicate AxesExchanged(t: Tensor, u: Tensor, d: nat, e: nat)
    requires d < |t.shape| && e < |t.shape|
  {
    && u.shape == t.shape[d := t.shape[e]][e := t.shape[d]]
    && forall idx: Index :: InBounds(u.shape, idx) ==> u.at(idx) == t.at(idx[d := idx[e]][e := idx[d]])
  }

  lemma SwappedAt(n: nat, d: nat, e: nat, idx: Index)
    requires d < n && e < n && |idx| == n
    ensures Permutation(SwapAxes(n, d, e))
    ensures Unpermuted(SwapAxes(n, d, e), idx) == idx[d := idx[e]][e := idx[d]]
  {
    SwapAxesIsPermutation(n, d, e);
    var dims := SwapAxes(n, d, e);
    forall m | 0 <= m < n ensures Unpermuted(dims, idx)[m] == idx[d := idx[e]][e := idx[d]][m] {
      var i := if m == d then e else if m == e then d else m;
      assert dims[i] == m == dims[Position(dims, m)];
    }
  }

  /** Exchanging two axes of any tensor. */
  lemma SwappedTensor(t: Tensor, d: nat, e: nat)
    requires d < |t.shape| && e < |t.shape|
    ensures var dims := SwapAxes(|t.shape|, d, e);
            && Permutation(dims)
            && Permuted(t, dims).shape == t.shape[d := t.shape[e]][e := t.shape[d]]
            && forall idx: Index :: |idx| == |t.shape| ==>
                 Permuted(t, dims).at(idx) == t.at(idx[d := idx[e]][e := idx[d]])
  {
    var dims := SwapAxes(|t.shape|, d, e);
    SwapAxesIsPermutation(|t.shape|, d, e);
    forall idx: Index | |idx| == |t.shape| ensures Permuted(t, dims).at(idx) == t.at(idx[d := idx[e]][e := idx[d]]) {
      SwappedAt(|t.shape|, d, e, idx);
    }
  }

  /** `transpose`; Python refuses a dimension outside the list. */
  ghost function Transpose(p: Pair, d: int, e: int): Outcome
    requires Valid(p)
  {
    var n := |p.b.shape|;
    if 0 <= d + n < 2 * n && 0 <= e + n < 2 * n then Permute(p, SwapAxes(n, Normal(d, n), Normal(e, n))) else Raised
  }

  lemma SwapAxesByPermute(p: Pair, d: nat, e: nat)
    requires Valid(p) && d < |p.b.shape| && e < |p.b.shape|
    ensures var n, q := |p.b.shape|, Permute(p, SwapAxes(|p.b.shape|, d, e));
            && Permutation(SwapAxes(n, d, e))
            && (q.Done? ==> Valid(q.pair) && Same(Product(q.pair), Permuted(Product(p), SwapAxes(n, d, e))))
  {
    var n := |p.b.shape|;
    var dims: seq<int> := SwapAxes(n, d, e);
    SwapAxesIsPermutation(n, d, e);
    PermuteMeansPermute(p, dims);
    assert InAxes(dims, n) && AxesOf(dims, n) == dims;
  }

  /** `transpose`, unless refused, exchanges two axes of the product, counted from either end. */
  lemma TransposeMeansTranspose(p: Pair, d: int, e: int)
    requires Valid(p)
    ensures var n, q := |p.b.shape|, Transpose(p, d, e);
            q.Done? ==>
              && 0 <= d + n < 2 * n && 0 <= e + n < 2 * n && Valid(q.pair)
              && AxesExchanged(Product(p), Product(q.pair), Normal(d, n), Normal(e, n))
  {
    var n := |p.b.shape|;
    if Transpose(p, d, e).Done? {
      SwapAxesByPermute(p, Normal(d, n), Normal(e, n));
      ExchangedBySame(Product(p), Product(Transpose(p, d, e).pair), Normal(d, n), Normal(e, n));
    }
  }

  lemma ExchangedBySame(t: Tensor, u: Tensor, d: nat, e: nat)
    requires d < |t.shape| && e < |t.shape| && Permutation(SwapAxes(|t.shape|, d, e))
    requires Same(u, Permuted(t, SwapAxes(|t.shape|, d, e)))
    ensures AxesExchanged(t, u, d, e)
  {
    var v := Permuted(t, SwapAxes(|t.shape|, d, e));
    SwappedTensor(t, d, e);
    forall idx: Index | InBounds(u.shape, idx) ensures u.at(idx) == t.at(idx[d := idx[e]][e := idx[d]]) {
      assert SameAt(u, v, idx);
    }
  }

  // ----- reshape (lines 131-155) -----

  function Numel(shape: seq<nat>): nat {
    if shape == [] then 1 else Numel(shape[..|shape| - 1]) * shape[|shape| - 1]
  }

  /** torch refuses a reshape that changes the number of entries, of either factor. */
  predicate SizesKept(p: Pair, shape: seq<nat>)
    requires Valid(p) && |shape| >= 2
  {
    && Numel(seq(|shape| - 2, _ => 1) + [Rank(p), p.a.shape[|p.a.shape| - 1]]) == Numel(p.a.shape)
    && Numel(shape[..|shape| - 1] + [Rank(p)]) == Numel(p.b.shape)
  }

  /** `reshape` to a shape without -1. */
  function ReshapeTo(p: Pair, shape: seq<nat>): Outcome
    requires Valid(p)
  {
    if |shape| < 2 then Raised
    else if shape[|shape| - 1] != Shape(p)[|Shape(p)| - 1] then Raised
    else if SizesKept(p, shape) then Done(ReshapedPair(p, shape))
    else Raised
  }

  lemma NumelSnoc(shape: seq<nat>, d: nat)
    ensures Numel(shape + [d]) == Numel(shape) * d
  {
    assert (shape + [d])[..|shape|] == shape;
  }

  lemma NumelTwo(shape: seq<nat>, h: nat, w: nat)
    ensures Numel(shape + [h, w]) == Numel(shape) * (h * w)
  {
    assert shape + [h, w] == (shape + [h]) + [w];
    NumelSnoc(shape, h);
    NumelSnoc(shape + [h], w);
    assert Numel(shape) * h * w == Numel(shape) * (h * w);
  }

  lemma {:induction false} NumelOnes(ones: seq<nat>)
    requires forall i :: 0 <= i < |ones| ==> ones[i] == 1
    ensures Numel(ones) == 1
  {
    if ones != [] {
      NumelOnes(ones[..|ones| - 1]);
    }
  }

  lemma ProductIsOne(a: nat, b: nat)
    requires a * b == 1
    ensures a == 1 && b == 1
  {
    if a >= 2 && b >= 1 {
      MultipleBelow(0, b, a);
    }
  }

  lemma {:induction false} OneEntryMeansOnes(shape: seq<nat>)
    requires Numel(shape) == 1
    ensures forall i :: 0 <= i < |shape| ==> shape[i] == 1
  {
    if shape != [] {
      var n := |shape| - 1;
      ProductIsOne(Numel(shape[..n]), shape[n]);
      OneEntryMeansOnes(shape[..n]);
      assert forall i :: 0 <= i < n ==> shape[i] == shape[..n][i];
    }
  }

  lemma CancelFactor(x: nat, y: nat, c: nat)
    requires c > 0
    ensures x * c == y * c <==> x == y
  {
    if x < y { MultipleBelow(x, y, c); }
    if y < x { MultipleBelow(y, x, c); }
  }

  /** The number of entries of A is kept exactly when A is one matrix, unless it has no entries at all. */
  lemma SizeOfA(p: Pair, m: nat)
    requires Valid(p) && Rank(p) > 0 && p.a.shape[|p.a.shape| - 1] > 0
    ensures Numel(seq(m, _ => 1) + [Rank(p), p.a.shape[|p.a.shape| - 1]]) == Numel(p.a.shape) <==> LeadingOnes(p)
  {
    var n := |p.a.shape|;
    var lead, r, w := p.a.shape[..n - 2], Rank(p), p.a.shape[n - 1];
    assert p.a.shape == lead + [r, w];
    NumelTwo(lead, r, w);
    NumelTwo(seq(m, _ => 1), r, w);
    NumelOnes(seq(m, _ => 1));
    assert r * w > 0 by { MultipleBelow(0, r, w); }
    CancelFactor(1, Numel(lead), r * w);
    if Numel(lead) == 1 {
      OneEntryMeansOnes(lead);
      assert forall i :: 0 <= i < n - 2 ==> p.a.shape[i] == lead[i];
    }
    if LeadingOnes(p) {
      NumelOnes(lead);
    }
  }

  lemma ReshapedShapes(p: Pair, shape: seq<nat>)
    requires Valid(p) && |shape| >= 2 && shape[|shape| - 1] == p.a.shape[|p.a.shape| - 1]
    ensures Valid(ReshapedPair(p, shape)) && Shape(ReshapedPair(p, shape)) == shape
    ensures Rank(ReshapedPair(p, shape)) == Rank(p)
  {
    var q, m := ReshapedPair(p, shape), |shape|;
    assert q.a.shape[m - 2] == Rank(p) && q.a.shape[m - 1] == shape[m - 1];
  }

  lemma EmptyReshape(p: Pair, shape: seq<nat>)
    requires Valid(p) && |shape| >= 2 && shape[|shape| - 1] == p.a.shape[|p.a.shape| - 1]
    requires Rank(p) == 0 || shape[|shape| - 1] == 0
    ensures Valid(ReshapedPair(p, shape)) && Same(Product(ReshapedPair(p, shape)), Reshaped(Product(p), shape))
  {
    ReshapedShapes(p, shape);
    forall idx: Index | InBounds(shape, idx)
      ensures Product(ReshapedPair(p, shape)).at(idx) == Reshaped(Product(p), shape).at(idx)
    {
      assert Product(p).at(Unravel(Shape(p), Ravel(shape, idx))) == 0;
    }
  }

  lemma FullReshape(p: Pair, shape: seq<nat>)
    requires Valid(p) && |shape| >= 2 && shape[|shape| - 1] == p.a.shape[|p.a.shape| - 1]
    requires Rank(p) > 0 && shape[|shape| - 1] > 0 && SizesKept(p, shape)
    ensures Valid(ReshapedPair(p, shape)) && Same(Product(ReshapedPair(p, shape)), Reshaped(Product(p), shape))
  {
    SizeOfA(p, |shape| - 2);
    ReshapeCommutes(p, shape);
  }

  lemma ReshapeToMeansReshape(p: Pair, shape: seq<nat>)
    requires Valid(p) && ReshapeTo(p, shape).Done?
    ensures var q := ReshapeTo(p, shape).pair; Valid(q) && Same(Product(q), Reshaped(Product(p), shape))
  {
    if Rank(p) > 0 && shape[|shape| - 1] > 0 {
      FullReshape(p, shape);
    } else {
      EmptyReshape(p, shape);
    }
  }

  lemma RowsKept(rows: seq<nat>, newRows: seq<nat>, r: nat, w: nat)
    requires r > 0 && w > 0
    ensures Numel(newRows + [r]) == Numel(rows + [r]) <==> Numel(newRows + [w]) == Numel(rows + [w])
  {
    NumelSnoc(rows, r);
    NumelSnoc(newRows, r);
    NumelSnoc(rows, w);
    NumelSnoc(newRows, w);
    CancelFactor(Numel(newRows), Numel(rows), r);
    CancelFactor(Numel(newRows), Numel(rows), w);
  }

  lemma SizeOfB(p: Pair, shape: seq<nat>)
    requires Valid(p) && |shape| >= 2 && shape[|shape| - 1] == p.a.shape[|p.a.shape| - 1]
    requires Rank(p) > 0 && shape[|shape| - 1] > 0
    ensures Numel(shape[..|shape| - 1] + [Rank(p)]) == Numel(p.b.shape) <==> Numel(shape) == Numel(Shape(p))
  {
    var n, m := |p.b.shape|, |shape|;
    var rows, newRows := p.b.shape[..n - 1], shape[..m - 1];
    RowsKept(rows, newRows, Rank(p), shape[m - 1]);
    assert p.b.shape == rows + [Rank(p)];
    assert shape == newRows + [shape[m - 1]];
  }

  lemma SizesKeptExactly(p: Pair, shape: seq<nat>)
    requires Valid(p) && |shape| >= 2 && shape[|shape| - 1] == p.a.shape[|p.a.shape| - 1]
    requires LeadingOnes(p) && Rank(p) > 0 && shape[|shape| - 1] > 0
    ensures SizesKept(p, shape) <==> Numel(shape) == Numel(Shape(p))
  {
    SizeOfA(p, |shape| - 2);
    SizeOfB(p, shape);
  }

  lemma ReshapeToRefusals(p: Pair, shape: seq<nat>)
    requires Valid(p) && Rank(p) > 0 && p.a.shape[|p.a.shape| - 1] > 0
    ensures ReshapeTo(p, shape).Done? <==>
              && LeadingOnes(p) && |shape| >= 2 && shape[|shape| - 1] == Shape(p)[|Shape(p)| - 1]
              && Numel(shape) == Numel(Shape(p))
  {
    if |shape| >= 2 && shape[|shape| - 1] == p.a.shape[|p.a.shape| - 1] {
      SizeOfA(p, |shape| - 2);
      if LeadingOnes(p) {
        SizesKeptExactly(p, shape);
      }
    }
  }

  /** Without entries the size of A never refuses, and that of B only counts the rows. */
  lemma EmptySizes(p: Pair, shape: seq<nat>)
    requires Valid(p) && |shape| >= 2 && (Rank(p) == 0 || p.a.shape[|p.a.shape| - 1] == 0)
    ensures SizesKept(p, shape) <==> Rank(p) == 0 || Numel(shape[..|shape| - 1]) == Numel(p.b.shape[..|p.b.shape| - 1])
  {
    var n, r, w := |p.a.shape|, Rank(p), p.a.shape[|p.a.shape| - 1];
    assert p.a.shape == p.a.shape[..n - 2] + [r, w];
    NumelTwo(p.a.shape[..n - 2], r, w);
    NumelTwo(seq(|shape| - 2, _ => 1), r, w);
    assert p.b.shape == p.b.shape[..n - 1] + [r];
    NumelSnoc(p.b.shape[..n - 1], r);
    NumelSnoc(shape[..|shape| - 1], r);
    if r > 0 {
      CancelFactor(Numel(shape[..|shape| - 1]), Numel(p.b.shape[..n - 1]), r);
    }
  }

  // ----- sizes left to be inferred (lines 141-146) -----

  /** The shape with `v` wherever it says -1. */
  function Fill(shape: seq<int>, v: nat): (r: seq<nat>)
    requires NoneBelow(shape)
    ensures |r| == |shape| && forall i :: 0 <= i < |r| ==> r[i] == if shape[i] == -1 then v else shape[i]
  {
    seq(|shape|, i requires 0 <= i < |shape| => if shape[i] == -1 then v else shape[i])
  }

  predicate NoneBelow(shape: seq<int>) { forall i :: 0 <= i < |shape| ==> shape[i] >= -1 }

  /** The product of the given sizes. */
  function Known(shape: seq<int>): nat
    requires NoneBelow(shape)
  {
    if shape == [] then 1
    else var n := |shape| - 1; Known(shape[..n]) * (if shape[n] == -1 then 1 else shape[n])
  }

  /** How many sizes are to be inferred. */
  function Open(shape: seq<int>): nat {
    if shape == [] then 0 else var n := |shape| - 1; Open(shape[..n]) + (if shape[n] == -1 then 1 else 0)
  }

  /** Every -1 becomes the quotient; torch refuses any other negative size, and Python a division by zero. */
  function Inferred(shape: seq<int>, total: nat): (r: Option<seq<nat>>)
    ensures r.Some? ==> NoneBelow(shape) && exists v :: r.value == Fill(shape, v)
  {
    if !NoneBelow(shape) then None
    else if Open(shape) == 0 then Some(Fill(shape, 0))
    else if Known(shape) == 0 || total % Known(shape) != 0 then None
    else Some(Fill(shape, total / Known(shape)))
  }

  /** `reshape`. */
  function Reshape(p: Pair, shape: seq<int>): Outcome
    requires Valid(p)
  {
    match Inferred(shape, Numel(Shape(p)))
    case None => Raised
    case Some(sizes) => ReshapeTo(p, sizes)
  }

  /**
    Every reshape that is not refused reshapes the product, also when a factor has no entries, to a shape
    that agrees with the given one and, when there are entries, keeps their number.
    */
  lemma ReshapeMeansReshape(p: Pair, shape: seq<int>) returns (sizes: seq<nat>)
    requires Valid(p) && Reshape(p, shape).Done?
    ensures NoneBelow(shape) && exists v :: sizes == Fill(shape, v)
    ensures var q := Reshape(p, shape).pair; Valid(q) && Same(Product(q), Reshaped(Product(p), sizes))
    ensures Rank(p) > 0 && p.a.shape[|p.a.shape| - 1] > 0 ==> Numel(sizes) == Numel(Shape(p))
  {
    sizes := Inferred(shape, Numel(Shape(p))).value;
    ReshapeToMeansReshape(p, sizes);
    if Rank(p) > 0 && p.a.shape[|p.a.shape| - 1] > 0 {
      SizeOfB(p, sizes);
    }
  }

  lemma FillInit(shape: seq<int>, v: nat)
    requires shape != [] && NoneBelow(shape)
    ensures var n := |shape| - 1;
            NoneBelow(shape[..n]) && Fill(shape, v) == Fill(shape[..n], v) + [if shape[n] == -1 then v else shape[n]]
  {
  }

  function Power(v: nat, k: nat): nat { if k == 0 then 1 else v * Power(v, k - 1) }

  lemma {:induction false} NumelFilled(shape: seq<int>, v: nat)
    requires NoneBelow(shape)
    ensures Numel(Fill(shape, v)) == Known(shape) * Power(v, Open(shape))
  {
    if shape != [] {
      var n := |shape| - 1;
      var k := Open(shape[..n]);
      FillInit(shape, v);
      NumelFilled(shape[..n], v);
      NumelSnoc(Fill(shape[..n], v), if shape[n] == -1 then v else shape[n]);
      if shape[n] == -1 {
        Reorder(Known(shape[..n]), Power(v, k), v);
      } else {
        Reorder(Known(shape[..n]), Power(v, k), shape[n]);
      }
    }
  }

  /** A power is its base only for the exponent 1 or the bases 0 and 1. */
  lemma {:induction false} PowerIsBase(v: nat, k: nat)
    requires k > 0
    ensures Power(v, k) == v <==> k == 1 || v <= 1
    ensures v > 0 ==> Power(v, k) >= v
  {
    if k > 1 {
      PowerIsBase(v, k - 1);
      if v >= 2 {
        MultipleBelow(1, Power(v, k - 1), v);
      }
    }
  }

  lemma Reorder(a: nat, b: nat, c: nat)
    ensures (a * b) * c == (a * c) * b
  {
  }

  lemma {:induction false} FilledWithout(shape: seq<int>, v: nat, w: nat)
    requires NoneBelow(shape) && Open(shape) == 0
    ensures Fill(shape, v) == Fill(shape, w)
  {
    if shape != [] {
      FillInit(shape, v);
      FillInit(shape, w);
      FilledWithout(shape[..|shape| - 1], v, w);
    }
  }

  /** The quotient is the one value that fits. */
  lemma QuotientFits(total: nat, k: nat, v: nat)
    requires k > 0
    ensures k * v == total <==> total % k == 0 && v == total / k
  {
    if k * v == total {
      DivideRow(v, k, 0);
    }
  }

  ghost predicate FillsTo(shape: seq<int>, v: nat, p: Pair)
    requires Valid(p) && NoneBelow(shape) && |shape| >= 2
  {
    var sizes := Fill(shape, v);
    sizes[|sizes| - 1] == Shape(p)[|Shape(p)| - 1] && Numel(sizes) == Numel(Shape(p))
  }

  /**
    For a pair with entries, reshape is done exactly when there is one A and the sizes to infer can be given
    one value, by which the number of entries stays and rows are not cut; more than one such size can only be 0 or 1.
    */
  lemma ReshapeRefusals(p: Pair, shape: seq<int>)
    requires Valid(p) && Rank(p) > 0 && p.a.shape[|p.a.shape| - 1] > 0
    ensures Reshape(p, shape).Done? <==>
              && LeadingOnes(p) && NoneBelow(shape) && |shape| >= 2 && (Open(shape) > 0 ==> Known(shape) > 0)
              && exists v :: FillsTo(shape, v, p) && (Open(shape) > 1 ==> v <= 1)
  {
    if Reshape(p, shape).Done? {
      var v := DoneMeansFills(p, shape);
    }
    if LeadingOnes(p) && NoneBelow(shape) && |shape| >= 2 && (Open(shape) > 0 ==> Known(shape) > 0) {
      if v :| FillsTo(shape, v, p) && (Open(shape) > 1 ==> v <= 1) {
        FillsMeansDone(p, shape, v);
      }
    }
  }

  /**
    For a pair without entries in a factor, it is done exactly when rows keep their size and, with a rank, their
    number: at rank 0 any number of rows is accepted.
    */
  lemma EmptyRefusals(p: Pair, shape: seq<int>)
    requires Valid(p) && (Rank(p) == 0 || p.a.shape[|p.a.shape| - 1] == 0)
    ensures var sizes := Inferred(shape, Numel(Shape(p)));
            Reshape(p, shape).Done? <==>
              && sizes.Some? && |shape| >= 2 && sizes.value[|shape| - 1] == Shape(p)[|Shape(p)| - 1]
              && (Rank(p) > 0 ==> Numel(sizes.value[..|shape| - 1]) == Numel(Shape(p)[..|Shape(p)| - 1]))
  {
    var sizes := Inferred(shape, Numel(Shape(p)));
    assert Shape(p)[..|Shape(p)| - 1] == p.b.shape[..|p.b.shape| - 1];
    if sizes.Some? && |shape| >= 2 {
      EmptySizes(p, sizes.value);
    }
  }

  lemma DoneMeansFills(p: Pair, shape: seq<int>) returns (v: nat)
    requires Valid(p) && Rank(p) > 0 && p.a.shape[|p.a.shape| - 1] > 0 && Reshape(p, shape).Done?
    ensures LeadingOnes(p) && NoneBelow(shape) && |shape| >= 2 && (Open(shape) > 0 ==> Known(shape) > 0)
    ensures FillsTo(shape, v, p) && (Open(shape) > 1 ==> v <= 1)
  {
    var total := Numel(Shape(p));
    v := if Open(shape) == 0 then 0 else total / Known(shape);
    ReshapeToRefusals(p, Fill(shape, v));
    if Open(shape) > 0 {
      NumelFilled(shape, v);
      OneValue(total, Known(shape), v, Open(shape));
    }
  }

  /** The quotient, put in `k` places, keeps the total only if it equals its own power. */
  lemma OneValue(total: nat, known: nat, v: nat, k: nat)
    requires known > 0 && k > 0 && total % known == 0 && v == total / known
    ensures known * Power(v, k) == total <==> k == 1 || v <= 1
  {
    QuotientFits(total, known, v);
    CancelFactor(Power(v, k), v, known);
    PowerIsBase(v, k);
  }

  lemma FillsMeansDone(p: Pair, shape: seq<int>, v: nat)
    requires Valid(p) && Rank(p) > 0 && p.a.shape[|p.a.shape| - 1] > 0 && LeadingOnes(p)
    requires NoneBelow(shape) && |shape| >= 2 && (Open(shape) > 0 ==> Known(shape) > 0)
    requires FillsTo(shape, v, p) && (Open(shape) > 1 ==> v <= 1)
    ensures Reshape(p, shape).Done?
  {
    NumelFilled(shape, v);
    if Open(shape) == 0 {
      FilledWithout(shape, v, 0);
    } else {
      PowerIsBase(v, Open(shape));
      QuotientFits(Numel(Shape(p)), Known(shape), v);
    }
    ReshapeToRefusals(p, Fill(shape, v));
  }

  // ----- indexing with a tuple (lines 78-112) -----

  /** What a Python slice with a positive step selects from an axis. */
  ghost predicate Ascending(sel: seq<nat>, size: nat) {
    && (forall i :: 0 <= i < |sel| ==> sel[i] < size)
    && (forall i, j :: 0 <= i < j < |sel| ==> sel[i] < sel[j])
  }

  lemma {:induction false} AscendingBelow(sel: seq<nat>, size: nat)
    requires Ascending(sel, size)
    ensures forall i :: 0 <= i < |sel| ==> i <= sel[i] <= size - (|sel| - i)
  {
    if sel != [] {
      var n := |sel| - 1;
      AscendingBelow(sel[..n], sel[n]);
      assert forall i :: 0 <= i < n ==> sel[i] == sel[..n][i];
      if n > 0 {
        assert sel[n - 1] == sel[..n][n - 1];
      }
    }
  }

  /** A slice selects everything exactly when it selects as many as there are. */
  lemma FullSlice(sel: seq<nat>, size: nat)
    requires Ascending(sel, size)
    ensures |sel| == size <==> Slice(sel) == All(size)
  {
    AscendingBelow(sel, size);
    if |sel| == size {
      assert sel == seq(size, i => i);
    }
  }

  ghost predicate Sliced(other: seq<nat>, lead: seq<Pick>)
    requires |other| == |lead|
  {
    forall i :: 0 <= i < |lead| && lead[i].Slice? ==> Ascending(lead[i].sel, other[i])
  }

  predicate SizesFit(s: seq<nat>, t: seq<nat>) {
    |s| == |t| && forall i :: 0 <= i < |s| ==> s[i] == 1 || s[i] == t[i]
  }

  lemma SizesFitSnoc(s: seq<nat>, t: seq<nat>, x: nat, y: nat)
    requires |s| == |t|
    ensures SizesFit(s + [x], t + [y]) <==> SizesFit(s, t) && (x == 1 || x == y)
  {
    var s', t' := s + [x], t + [y];
    if SizesFit(s', t') {
      assert forall i :: 0 <= i < |s| ==> s[i] == s'[i] && t[i] == t'[i];
      assert s'[|s|] == x && t'[|s|] == y;
    }
  }

  lemma SharedSnoc(sizes: seq<nat>, lead: seq<Pick>)
    requires |sizes| == |lead| > 0
    ensures var n := |lead| - 1;
            SlicesShared(sizes, lead) <==>
              SlicesShared(sizes[..n], lead[..n]) && (lead[n].Slice? ==> sizes[n] == 1 || lead[n] == All(sizes[n]))
  {
    var n := |lead| - 1;
    if SlicesShared(sizes[..n], lead[..n]) {
      assert forall i :: 0 <= i < n ==> sizes[..n][i] == sizes[i] && lead[..n][i] == lead[i];
    }
  }

  lemma LastShapes(sizes: seq<nat>, lead: seq<Pick>)
    requires |sizes| == |lead| > 0
    ensures var n := |lead| - 1;
            var s, t := PickedShape(LeadForA(sizes[..n], lead[..n])), PickedShape(lead[..n]);
            && PickedShape(LeadForA(sizes, lead)) == (if lead[n].At? then s else s + [sizes[n]])
            && PickedShape(lead) == (if lead[n].At? then t else t + [|lead[n].sel|])
  {
    LeadForASnoc(sizes, lead);
  }

  lemma {:induction false} SharedExactly(sizes: seq<nat>, other: seq<nat>, lead: seq<Pick>)
    requires |sizes| == |lead| == |other| && Sliced(other, lead)
    requires forall i :: 0 <= i < |sizes| ==> sizes[i] == 1 || sizes[i] == other[i]
    ensures |PickedShape(LeadForA(sizes, lead))| == |PickedShape(lead)|
    ensures SizesFit(PickedShape(LeadForA(sizes, lead)), PickedShape(lead)) <==> SlicesShared(sizes, lead)
  {
    if lead != [] {
      var n := |lead| - 1;
      SharedExactly(sizes[..n], other[..n], lead[..n]);
      LastShapes(sizes, lead);
      SharedSnoc(sizes, lead);
      if lead[n].Slice? {
        SharedLast(sizes[n], other[n], lead[n].sel);
        SizesFitSnoc(PickedShape(LeadForA(sizes[..n], lead[..n])), PickedShape(lead[..n]), sizes[n], |lead[n].sel|);
      }
    }
  }

  lemma SharedLast(size: nat, other: nat, sel: seq<nat>)
    requires Ascending(sel, other) && (size == 1 || size == other)
    ensures size == 1 || size == |sel| <==> size == 1 || Slice(sel) == All(size)
  {
    FullSlice(sel, other);
  }

  /** A tuple of numbers and slices, the last two of them slices, that selects from the product. */
  ghost predicate Tuple(p: Pair, ix: seq<Pick>) {
    && Valid(p) && |ix| == |p.b.shape| && PicksFrom(Shape(p), ix) && Sliced(Shape(p), ix)
    && ix[|ix| - 2].Slice? && ix[|ix| - 1].Slice?
  }

  lemma PickedShapes(p: Pair, ix: seq<Pick>)
    requires Tuple(p, ix)
    ensures var n := |ix|;
            && PickedPair(p, ix).a.shape ==
                 PickedShape(LeadForA(p.a.shape[..n - 2], ix[..n - 2])) + [Rank(p), |ix[n - 1].sel|]
            && PickedPair(p, ix).b.shape == PickedShape(ix[..n - 2]) + [|ix[n - 2].sel|, Rank(p)]
  {
    var n := |ix|;
    var lead, rows, cols, r := ix[..n - 2], ix[n - 2].sel, ix[n - 1].sel, seq(Rank(p), i => i);
    ShapeOfTwo(LeadForA(p.a.shape[..n - 2], lead), r, cols);
    ShapeOfTwo(lead, rows, r);
    assert ix[..n - 1] + [All(Rank(p))] == lead + [Slice(rows), Slice(r)];
    assert ix[n - 1] == Slice(cols);
  }

  /**
    The tuple picks the right entries exactly when every leading slice meets a shared A or selects
    everything.  Otherwise the factors no longer fit each other: A keeps a size that B has lost.
    */
  lemma PickExactly(p: Pair, ix: seq<Pick>)
    requires Tuple(p, ix)
    ensures var n := |ix|;
            (Valid(PickedPair(p, ix)) && Same(Product(PickedPair(p, ix)), Picked(Product(p), ix))) <==>
            SlicesShared(p.a.shape[..n - 2], ix[..n - 2])
  {
    var n := |ix|;
    var sizes, lead := p.a.shape[..n - 2], ix[..n - 2];
    var s, t := PickedShape(LeadForA(sizes, lead)), PickedShape(lead);
    assert forall i :: 0 <= i < n - 2 ==> p.b.shape[..n - 2][i] == Shape(p)[i] && lead[i] == ix[i];
    SharedExactly(sizes, p.b.shape[..n - 2], lead);
    PickedShapes(p, ix);
    if Valid(PickedPair(p, ix)) {
      assert forall i :: 0 <= i < |s| ==> PickedPair(p, ix).a.shape[i] == s[i] && PickedPair(p, ix).b.shape[i] == t[i];
      assert SizesFit(s, t);
    }
    if SlicesShared(sizes, lead) {
      PickCommutes(p, ix);
    }
  }
}
