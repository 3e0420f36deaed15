/**
  convert_lora_to_gguf.py:41-226: a low-rank pair (A, B) that stands for the dense tensor B x A.  The
  operations on pairs commute with forming the product, over exact integers.
  */
module Lora {

  type Index = seq<nat>

  /** A tensor of any rank: its shape and its entry at every index. */
  datatype Tensor = Tensor(shape: seq<nat>, at: Index -> int)

  predicate InBounds(shape: seq<nat>, idx: Index) {
    |idx| == |shape| && forall i :: 0 <= i < |idx| ==> idx[i] < shape[i]
  }

  predicate SameAt(s: Tensor, t: Tensor, idx: Index) {
    InBounds(s.shape, idx) ==> s.at(idx) == t.at(idx)
  }

  /** The same shape and the same entries. */
  ghost predicate Same(s: Tensor, t: Tensor) {
    s.shape == t.shape && forall idx: Index :: SameAt(s, t, idx)
  }

  /** A number counted from the end when negative. */
  function Normal(j: int, size: nat): (r: nat)
    requires 0 <= j + size < 2 * size
    ensures r < size
  {
    if j < 0 then j + size else j
  }

  function Sum(n: nat, f: nat -> int): int {
    if n == 0 then 0 else Sum(n - 1, f) + f(n - 1)
  }

  lemma {:induction false} SumSame(n: nat, f: nat -> int, g: nat -> int)
    requires forall k :: 0 <= k < n ==> f(k) == g(k)
    ensures Sum(n, f) == Sum(n, g)
  {
    if n > 0 {
      SumSame(n - 1, f, g);
    }
  }

  // ----- pairs -----

  /** `_lora_A` of shape (lead.., rank, row) and `_lora_B` of shape (lead.., col, rank). */
  datatype Pair = Pair(a: Tensor, b: Tensor)

  /** The assertions of the constructor (lines 47-48), and leading sizes of A that match B's or are 1. */
  ghost predicate ShapesFit(a: seq<nat>, b: seq<nat>) {
    var n := |b|;
    && |a| == n >= 2
    && a[n - 2] == b[n - 1]
    && forall i :: 0 <= i < n - 2 ==> a[i] == 1 || a[i] == b[i]
  }

  ghost predicate Valid(p: Pair) {
    ShapesFit(p.a.shape, p.b.shape)
  }

  function Rank(p: Pair): nat
    requires Valid(p)
  {
    p.b.shape[|p.b.shape| - 1]
  }

  function DenseShape(a: seq<nat>, b: seq<nat>): (r: seq<nat>)
    requires |a| == |b| >= 2
    ensures |r| == |b|
  {
    b[..|b| - 1] + [a[|a| - 1]]
  }

  /** `shape` (lines 123-126). */
  function Shape(p: Pair): (r: seq<nat>)
    requires Valid(p)
    ensures |r| == |p.b.shape|
  {
    DenseShape(p.a.shape, p.b.shape)
  }

  /** The leading index used in A: a size of 1 is shared by all. */
  function Broadcast(sizes: seq<nat>, lead: Index): (r: Index)
    requires |sizes| == |lead|
    ensures |r| == |lead| && forall i :: 0 <= i < |r| ==> r[i] == if sizes[i] == 1 then 0 else lead[i]
  {
    seq(|lead|, i requires 0 <= i < |lead| => if sizes[i] == 1 then 0 else lead[i])
  }

  function Term(p: Pair, idx: Index): nat -> int
    requires Valid(p) && |idx| == |p.b.shape|
  {
    var n := |idx|;
    (k: nat) => p.b.at(idx[..n - 1] + [k]) * p.a.at(Broadcast(p.a.shape[..n - 2], idx[..n - 2]) + [k, idx[n - 1]])
  }

  predicate TermsAgree(p: Pair, idx: Index, q: Pair, jdx: Index, k: nat)
    requires Valid(p) && Valid(q) && |idx| == |p.b.shape| && |jdx| == |q.b.shape|
  {
    Term(p, idx)(k) == Term(q, jdx)(k)
  }

  /** The dense tensor B x A. */
  function Product(p: Pair): Tensor
    requires Valid(p)
  {
    Tensor(Shape(p), idx => if |idx| == |p.b.shape| then Sum(Rank(p), Term(p, idx)) else 0)
  }

  /** Two entries agree when all their terms do. */
  lemma EntriesAgree(p: Pair, idx: Index, q: Pair, jdx: Index)
    requires Valid(p) && Valid(q) && |idx| == |p.b.shape| && |jdx| == |q.b.shape| && Rank(p) == Rank(q)
    requires forall k: nat :: k < Rank(p) ==> TermsAgree(p, idx, q, jdx, k)
    ensures Product(p).at(idx) == Product(q).at(jdx)
  {
    forall k: nat | k < Rank(p) ensures Term(p, idx)(k) == Term(q, jdx)(k) {
      assert TermsAgree(p, idx, q, jdx, k);
    }
    SumSame(Rank(p), Term(p, idx), Term(q, jdx));
  }

  /** One term of an entry of a matrix product. */
  lemma MatrixTerm(p: Pair, idx: Index, k: nat)
    requires Valid(p) && |p.b.shape| == 2 && |idx| == 2
    ensures Term(p, idx)(k) == p.b.at([idx[0], k]) * p.a.at([k, idx[1]])
  {
    assert idx[..1] + [k] == [idx[0], k];
    assert Broadcast(p.a.shape[..0], idx[..0]) + [k, idx[1]] == [k, idx[1]];
  }

  // ----- permuting all but the last axis (lines 166-169) -----

  /** `dims` lists each axis once. */
  ghost predicate Permutation(dims: seq<nat>) {
    && (forall i :: 0 <= i < |dims| ==> dims[i] < |dims|)
    && (forall m :: 0 <= m < |dims| ==> m in dims)
    && (forall i, j :: 0 <= i < j < |dims| ==> dims[i] != dims[j])
  }

  function Position(dims: seq<nat>, m: nat): (i: nat)
    requires m in dims
    ensures i < |dims| && dims[i] == m
  {
    if dims[0] == m then 0 else assert m in dims[1..]; 1 + Position(dims[1..], m)
  }

  /** The index of the original that an index of the permuted tensor stands for. */
  ghost function Unpermuted(dims: seq<nat>, idx: Index): (r: Index)
    requires Permutation(dims) && |idx| == |dims|
    ensures |r| == |idx| && forall m :: 0 <= m < |r| ==> r[m] == idx[Position(dims, m)]
  {
    seq(|idx|, m requires 0 <= m < |idx| => idx[Position(dims, m)])
  }

  ghost function Permuted(t: Tensor, dims: seq<nat>): Tensor
    requires Permutation(dims) && |dims| == |t.shape|
  {
    Tensor(seq(|dims|, i requires 0 <= i < |dims| => t.shape[dims[i]]),
           idx => if |idx| == |dims| then t.at(Unpermuted(dims, idx)) else 0)
  }

  ghost predicate LeadingOnes(p: Pair)
    requires Valid(p)
  {
    forall i :: 0 <= i < |p.a.shape| - 2 ==> p.a.shape[i] == 1
  }

  /** A permutation of the axes before the last one. */
  ghost predicate LeadingPermutation(dims: seq<nat>) {
    Permutation(dims) && |dims| >= 2 && dims[|dims| - 1] == |dims| - 1
  }

  lemma LastStaysLast(dims: seq<nat>, idx: Index, k: nat)
    requires LeadingPermutation(dims) && |idx| == |dims|
    ensures var n := |dims|; Unpermuted(dims, idx[..n - 1] + [k]) == Unpermuted(dims, idx)[..n - 1] + [k]
    ensures Unpermuted(dims, idx)[|dims| - 1] == idx[|dims| - 1]
  {
    var n := |dims|;
    var l, r := Unpermuted(dims, idx[..n - 1] + [k]), Unpermuted(dims, idx)[..n - 1] + [k];
    forall m | 0 <= m < n ensures l[m] == r[m] {
      var i := Position(dims, m);
      assert m < n - 1 ==> i < n - 1;
    }
  }

  lemma PermutedEntry(p: Pair, dims: seq<nat>, idx: Index)
    requires Valid(p) && LeadingOnes(p) && LeadingPermutation(dims) && |dims| == |p.b.shape| == |idx|
    requires Valid(Pair(p.a, Permuted(p.b, dims)))
    ensures Product(Pair(p.a, Permuted(p.b, dims))).at(idx) == Product(p).at(Unpermuted(dims, idx))
  {
    var n, q, jdx := |dims|, Pair(p.a, Permuted(p.b, dims)), Unpermuted(dims, idx);
    assert Broadcast(p.a.shape[..n - 2], idx[..n - 2]) == Broadcast(p.a.shape[..n - 2], jdx[..n - 2]);
    forall k: nat | 0 <= k < Rank(p) ensures Term(q, idx)(k) == Term(p, jdx)(k) {
      LastStaysLast(dims, idx, k);
    }
    SumSame(Rank(p), Term(q, idx), Term(p, jdx));
  }

  lemma PermutedShapes(p: Pair, dims: seq<nat>)
    requires Valid(p) && LeadingOnes(p) && LeadingPermutation(dims) && |dims| == |p.b.shape|
    ensures var q := Pair(p.a, Permuted(p.b, dims)); Valid(q) && Shape(q) == Permuted(Product(p), dims).shape
  {
    var q, n := Pair(p.a, Permuted(p.b, dims)), |dims|;
    assert q.b.shape[n - 1] == p.b.shape[n - 1];
    var s, t := Shape(q), Permuted(Product(p), dims).shape;
    forall i | 0 <= i < n ensures s[i] == t[i] {
    }
  }

  lemma PermuteCommutes(p: Pair, dims: seq<nat>)
    requires Valid(p) && LeadingOnes(p) && LeadingPermutation(dims) && |dims| == |p.b.shape|
    ensures var q := Pair(p.a, Permuted(p.b, dims)); Valid(q) && Same(Product(q), Permuted(Product(p), dims))
  {
    var q := Pair(p.a, Permuted(p.b, dims));
    PermutedShapes(p, dims);
    forall idx: Index ensures SameAt(Product(q), Permuted(Product(p), dims), idx) {
      if InBounds(Shape(q), idx) {
        PermutedEntry(p, dims, idx);
      }
    }
  }

  // ----- reshaping (lines 131-155) -----

  /** Row-major position of an index. */
  function Ravel(shape: seq<nat>, idx: Index): nat
    requires |idx| == |shape|
  {
    if idx == [] then 0
    else var n := |idx| - 1; Ravel(shape[..n], idx[..n]) * shape[n] + idx[n]
  }

  /** The index at a row-major position. */
  function Unravel(shape: seq<nat>, pos: nat): (r: Index)
    ensures |r| == |shape|
  {
    if shape == [] then []
    else
      var n := |shape| - 1;
      if shape[n] == 0 then Unravel(shape[..n], 0) + [0]
      else Unravel(shape[..n], pos / shape[n]) + [pos % shape[n]]
  }

  function Reshaped(t: Tensor, shape: seq<nat>): Tensor {
    Tensor(shape, idx => if |idx| == |shape| then t.at(Unravel(t.shape, Ravel(shape, idx))) else 0)
  }

  lemma MultipleBelow(a: int, b: int, d: nat)
    requires a < b
    ensures a * d + d <= b * d
  {
    assert (b - a - 1) * d >= 0;
    assert b * d == a * d + d + (b - a - 1) * d;
  }

  lemma DivideRow(q: nat, d: nat, r: nat)
    requires r < d
    ensures (q * d + r) / d == q && (q * d + r) % d == r
  {
    var x := q * d + r;
    var a, b := x / d, x % d;
    assert x == a * d + b && 0 <= b < d;
    if a < q { MultipleBelow(a, q, d); }
    if q < a { MultipleBelow(q, a, d); }
  }

  /** A last axis of the same size is left alone by reshaping. */
  lemma LastAxisStays(lead: seq<nat>, newLead: seq<nat>, d: nat, idx: Index, r: nat)
    requires |idx| == |newLead| && r < d
    ensures Unravel(lead + [d], Ravel(newLead + [d], idx + [r])) == Unravel(lead, Ravel(newLead, idx)) + [r]
  {
    RavelSnoc(newLead, d, idx, r);
    UnravelRow(lead, d, Ravel(newLead, idx), r);
  }

  lemma UnravelRow(lead: seq<nat>, d: nat, q: nat, r: nat)
    requires r < d
    ensures Unravel(lead + [d], q * d + r) == Unravel(lead, q) + [r]
  {
    DivideRow(q, d, r);
    UnravelSnoc(lead, d, q * d + r);
  }

  lemma RavelSnoc(shape: seq<nat>, d: nat, idx: Index, r: nat)
    requires |idx| == |shape|
    ensures Ravel(shape + [d], idx + [r]) == Ravel(shape, idx) * d + r
  {
    assert (shape + [d])[..|shape|] == shape && (idx + [r])[..|idx|] == idx;
  }

  lemma UnravelSnoc(shape: seq<nat>, d: nat, pos: nat)
    requires d > 0
    ensures Unravel(shape + [d], pos) == Unravel(shape, pos / d) + [pos % d]
  {
    assert (shape + [d])[..|shape|] == shape;
  }

  /** `reshape`: A becomes a matrix behind ones, B keeps its last axis. */
  function ReshapedPair(p: Pair, shape: seq<nat>): Pair
    requires Valid(p) && |shape| >= 2
  {
    var n, m := |p.b.shape|, |shape|;
    Pair(Reshaped(p.a, seq(m - 2, _ => 1) + [Rank(p), p.a.shape[n - 1]]), Reshaped(p.b, shape[..m - 1] + [Rank(p)]))
  }

  /** An index of zeros before a matrix index is the matrix index. */
  lemma {:induction false} RavelOnes(m: nat, zeros: Index, h: nat, w: nat, i: nat, j: nat)
    requires |zeros| == m && (forall x :: 0 <= x < m ==> zeros[x] == 0) && i < h && j < w
    ensures Ravel(seq(m, _ => 1) + [h, w], zeros + [i, j]) == i * w + j
  {
    var shape, idx := seq(m, _ => 1) + [h, w], zeros + [i, j];
    RavelZeros(seq(m, _ => 1), zeros);
    assert shape[..m + 1] == seq(m, _ => 1) + [h] && idx[..m + 1] == zeros + [i];
    assert (seq(m, _ => 1) + [h])[..m] == seq(m, _ => 1) && (zeros + [i])[..m] == zeros;
    assert Ravel(shape[..m + 1], idx[..m + 1]) == Ravel(seq(m, _ => 1), zeros) * h + i;
  }

  lemma {:induction false} RavelZeros(shape: seq<nat>, zeros: Index)
    requires |shape| == |zeros| && forall x :: 0 <= x < |zeros| ==> zeros[x] == 0
    ensures Ravel(shape, zeros) == 0
  {
    if zeros != [] {
      RavelZeros(shape[..|zeros| - 1], zeros[..|zeros| - 1]);
    }
  }

  lemma {:induction false} UnravelZero(ones: seq<nat>)
    requires forall x :: 0 <= x < |ones| ==> ones[x] == 1
    ensures forall x :: 0 <= x < |ones| ==> Unravel(ones, 0)[x] == 0
  {
    if ones != [] {
      UnravelZero(ones[..|ones| - 1]);
    }
  }

  lemma UnravelOnes(ones: seq<nat>, h: nat, w: nat, i: nat, j: nat)
    requires (forall x :: 0 <= x < |ones| ==> ones[x] == 1) && i < h && j < w
    ensures var r := Unravel(ones + [h, w], i * w + j);
            r[|ones|] == i && r[|ones| + 1] == j && forall x :: 0 <= x < |ones| ==> r[x] == 0
  {
    var shape := ones + [h, w];
    var m := |ones|;
    assert shape[..m + 1] == ones + [h] && (ones + [h])[..m] == ones;
    DivideRow(i, w, j);
    DivideRow(0, h, i);
    UnravelZero(ones);
    assert Unravel(shape, i * w + j) == Unravel(ones + [h], i) + [j];
    assert Unravel(ones + [h], i) == Unravel(ones, 0) + [i];
  }

  /** The entries of A are found again after the reshape. */
  lemma ReshapedA(p: Pair, shape: seq<nat>, lead: Index, oldLead: Index, k: nat, j: nat)
    requires Valid(p) && LeadingOnes(p) && |shape| >= 2 && |lead| == |shape| - 2 && |oldLead| == |p.b.shape| - 2
    requires k < Rank(p) && j < p.a.shape[|p.a.shape| - 1]
    requires (forall x :: 0 <= x < |lead| ==> lead[x] == 0) && (forall x :: 0 <= x < |oldLead| ==> oldLead[x] == 0)
    ensures ReshapedPair(p, shape).a.at(lead + [k, j]) == p.a.at(oldLead + [k, j])
  {
    var n := |p.a.shape|;
    var w := p.a.shape[n - 1];
    RavelOnes(|lead|, lead, Rank(p), w, k, j);
    assert p.a.shape == p.a.shape[..n - 2] + [Rank(p), w];
    UnravelOnes(p.a.shape[..n - 2], Rank(p), w, k, j);
    assert Unravel(p.a.shape, k * w + j) == oldLead + [k, j];
  }

  lemma ReshapeCommutes(p: Pair, shape: seq<nat>)
    requires Valid(p) && LeadingOnes(p) && |shape| >= 2 && shape[|shape| - 1] == p.a.shape[|p.a.shape| - 1]
    ensures Valid(ReshapedPair(p, shape)) && Same(Product(ReshapedPair(p, shape)), Reshaped(Product(p), shape))
  {
    var q, n, m := ReshapedPair(p, shape), |p.b.shape|, |shape|;
    assert q.a.shape[m - 2] == Rank(p) && q.a.shape[m - 1] == p.a.shape[n - 1];
    assert Shape(q) == shape;
    forall idx: Index | InBounds(shape, idx) ensures Product(q).at(idx) == Reshaped(Product(p), shape).at(idx) {
      ReshapedEntry(p, shape, idx);
    }
  }

  /** The row of the original that a row of the reshaped tensor stands for. */
  function OldRow(p: Pair, shape: seq<nat>, idx: Index): (r: Index)
    requires Valid(p) && |idx| == |shape| >= 2
    ensures |r| == |p.b.shape| - 1
  {
    Unravel(p.b.shape[..|p.b.shape| - 1], Ravel(shape[..|shape| - 1], idx[..|idx| - 1]))
  }

  /** Reshaping a tensor with B's leading sizes and any last size finds the same row. */
  lemma SameRow(p: Pair, shape: seq<nat>, idx: Index, d: nat, r: nat)
    requires Valid(p) && |idx| == |shape| >= 2 && r < d
    ensures var n, m := |p.b.shape|, |shape|;
            Unravel(p.b.shape[..n - 1] + [d], Ravel(shape[..m - 1] + [d], idx[..m - 1] + [r])) == OldRow(p, shape, idx) + [r]
  {
    LastAxisStays(p.b.shape[..|p.b.shape| - 1], shape[..|shape| - 1], d, idx[..|idx| - 1], r);
  }

  lemma ReshapedTerm(p: Pair, shape: seq<nat>, idx: Index, jdx: Index, k: nat)
    requires Valid(p) && LeadingOnes(p) && |shape| >= 2 && shape[|shape| - 1] == p.a.shape[|p.a.shape| - 1]
    requires Valid(ReshapedPair(p, shape)) && InBounds(shape, idx) && k < Rank(p)
    requires jdx == OldRow(p, shape, idx) + [idx[|idx| - 1]]
    ensures Term(ReshapedPair(p, shape), idx)(k) == Term(p, jdx)(k)
  {
    var q, n, m := ReshapedPair(p, shape), |p.b.shape|, |shape|;
    SameRow(p, shape, idx, Rank(p), k);
    assert p.b.shape == p.b.shape[..n - 1] + [Rank(p)];
    assert jdx[..n - 1] == OldRow(p, shape, idx);
    var leadA, leadP := Broadcast(q.a.shape[..m - 2], idx[..m - 2]), Broadcast(p.a.shape[..n - 2], jdx[..n - 2]);
    ReshapedA(p, shape, leadA, leadP, k, idx[m - 1]);
  }

  lemma ReshapedSum(p: Pair, shape: seq<nat>, idx: Index, jdx: Index)
    requires Valid(p) && LeadingOnes(p) && |shape| >= 2 && shape[|shape| - 1] == p.a.shape[|p.a.shape| - 1]
    requires Valid(ReshapedPair(p, shape)) && InBounds(shape, idx)
    requires jdx == OldRow(p, shape, idx) + [idx[|idx| - 1]]
    ensures Product(ReshapedPair(p, shape)).at(idx) == Product(p).at(jdx)
  {
    var q := ReshapedPair(p, shape);
    forall k: nat | 0 <= k < Rank(p) ensures Term(q, idx)(k) == Term(p, jdx)(k) {
      ReshapedTerm(p, shape, idx, jdx, k);
    }
    SumSame(Rank(p), Term(q, idx), Term(p, jdx));
  }

  lemma ReshapedEntry(p: Pair, shape: seq<nat>, idx: Index)
    requires Valid(p) && LeadingOnes(p) && |shape| >= 2 && shape[|shape| - 1] == p.a.shape[|p.a.shape| - 1]
    requires Valid(ReshapedPair(p, shape)) && InBounds(shape, idx)
    ensures Product(ReshapedPair(p, shape)).at(idx) == Reshaped(Product(p), shape).at(idx)
  {
    OldIndex(p, shape, idx);
    ReshapedSum(p, shape, idx, Unravel(Shape(p), Ravel(shape, idx)));
  }

  /** Reshaping leaves the position within a row alone. */
  lemma OldIndex(p: Pair, shape: seq<nat>, idx: Index)
    requires Valid(p) && |shape| >= 2 && shape[|shape| - 1] == p.a.shape[|p.a.shape| - 1] && InBounds(shape, idx)
    ensures Unravel(Shape(p), Ravel(shape, idx)) == OldRow(p, shape, idx) + [idx[|idx| - 1]]
  {
    RowOf(Shape(p), shape, idx);
    assert Shape(p)[..|p.b.shape| - 1] == p.b.shape[..|p.b.shape| - 1];
  }

  lemma LastApart(s: seq<nat>)
    requires s != []
    ensures s == s[..|s| - 1] + [s[|s| - 1]]
  {
  }

  lemma RowOf(was: seq<nat>, shape: seq<nat>, idx: Index)
    requires was != [] && shape != [] && was[|was| - 1] == shape[|shape| - 1] && InBounds(shape, idx)
    ensures Unravel(was, Ravel(shape, idx)) ==
              Unravel(was[..|was| - 1], Ravel(shape[..|shape| - 1], idx[..|idx| - 1])) + [idx[|idx| - 1]]
  {
    var m := |shape| - 1;
    LastApart(was);
    LastApart(shape);
    LastApart(idx);
    LastAxisStays(was[..|was| - 1], shape[..m], shape[m], idx[..m], idx[m]);
  }

  // ----- indexing with a tuple (lines 78-112) -----

  /** One component of an index tuple: a number, or a slice given by the positions it selects. */
  datatype Pick = At(j: nat) | Slice(sel: seq<nat>)

  function All(n: nat): Pick { Slice(seq(n, i => i)) }

  function PickedShape(ix: seq<Pick>): seq<nat> {
    if ix == [] then []
    else
      var n := |ix| - 1;
      if ix[n].At? then PickedShape(ix[..n]) else PickedShape(ix[..n]) + [|ix[n].sel|]
  }

  /** The index of the original that an index of the result stands for. */
  function Expand(ix: seq<Pick>, idx: Index): (r: Index)
    requires InBounds(PickedShape(ix), idx)
    ensures |r| == |ix|
  {
    if ix == [] then []
    else
      var n := |ix| - 1;
      if ix[n].At? then Expand(ix[..n], idx) + [ix[n].j]
      else
        var m := |idx| - 1;
        assert InBounds(PickedShape(ix[..n]), idx[..m]);
        Expand(ix[..n], idx[..m]) + [ix[n].sel[idx[m]]]
  }

  function Picked(t: Tensor, ix: seq<Pick>): Tensor {
    Tensor(PickedShape(ix), idx => if InBounds(PickedShape(ix), idx) then t.at(Expand(ix, idx)) else 0)
  }

  predicate PicksFrom(shape: seq<nat>, ix: seq<Pick>) {
    |ix| == |shape| &&
    forall i :: 0 <= i < |ix| ==>
      match ix[i]
      case At(j) => j < shape[i]
      case Slice(sel) => forall x :: x in sel ==> x < shape[i]
  }

  function Wrapped(j: int, size: nat): nat { if size == 0 then 0 else j % size }

  /** The leading part of `indices_A`: numbers modulo A's size, slices replaced by full ones. */
  function LeadForA(sizes: seq<nat>, lead: seq<Pick>): (r: seq<Pick>)
    requires |sizes| == |lead|
    ensures |r| == |lead|
  {
    if lead == [] then []
    else
      var n := |lead| - 1;
      LeadForA(sizes[..n], lead[..n]) + [if lead[n].At? then At(Wrapped(lead[n].j, sizes[n])) else All(sizes[n])]
  }

  function PickedPair(p: Pair, ix: seq<Pick>): Pair
    requires Valid(p) && |ix| == |p.b.shape|
  {
    var n := |ix|;
    var leadA := LeadForA(p.a.shape[..n - 2], ix[..n - 2]);
    Pair(Picked(p.a, leadA + [All(Rank(p)), ix[n - 1]]), Picked(p.b, ix[..n - 1] + [All(Rank(p))]))
  }

  /** A leading slice may select anything where A is shared, and must select everything where it is not. */
  ghost predicate SlicesShared(sizes: seq<nat>, lead: seq<Pick>)
    requires |sizes| == |lead|
  {
    forall i :: 0 <= i < |lead| && lead[i].Slice? ==> sizes[i] == 1 || lead[i] == All(sizes[i])
  }

  lemma ExpandTwo(lead: seq<Pick>, a: seq<nat>, b: seq<nat>, l: Index, i: nat, j: nat)
    requires InBounds(PickedShape(lead), l) && i < |a| && j < |b|
    ensures PickedShape(lead + [Slice(a), Slice(b)]) == PickedShape(lead) + [|a|, |b|]
    ensures InBounds(PickedShape(lead + [Slice(a), Slice(b)]), l + [i, j])
    ensures Expand(lead + [Slice(a), Slice(b)], l + [i, j]) == Expand(lead, l) + [a[i], b[j]]
  {
    var one, two := lead + [Slice(a)], lead + [Slice(a), Slice(b)];
    assert two[..|two| - 1] == one && one[..|one| - 1] == lead;
    assert PickedShape(one) == PickedShape(lead) + [|a|];
    assert (l + [i, j])[..|l| + 1] == l + [i] && (l + [i])[..|l|] == l;
    assert Expand(one, l + [i]) == Expand(lead, l) + [a[i]];
  }

  lemma ShapeOfTwo(lead: seq<Pick>, a: seq<nat>, b: seq<nat>)
    ensures PickedShape(lead + [Slice(a), Slice(b)]) == PickedShape(lead) + [|a|, |b|]
  {
    var one, two := lead + [Slice(a)], lead + [Slice(a), Slice(b)];
    assert two[..|two| - 1] == one && one[..|one| - 1] == lead;
  }

  /** The sizes left on A's side are 1 or those left on B's side, and both keep the same axes. */
  lemma {:induction false} LeadShapes(sizes: seq<nat>, lead: seq<Pick>)
    requires |sizes| == |lead| && SlicesShared(sizes, lead)
    ensures var s, t := PickedShape(LeadForA(sizes, lead)), PickedShape(lead);
            |s| == |t| && forall i :: 0 <= i < |s| ==> s[i] == 1 || s[i] == t[i]
  {
    if lead != [] {
      var n := |lead| - 1;
      LeadShapes(sizes[..n], lead[..n]);
      var r := LeadForA(sizes, lead);
      assert r[..n] == LeadForA(sizes[..n], lead[..n]);
    }
  }

  ghost predicate Compatible(sizes: seq<nat>, other: seq<nat>, lead: seq<Pick>) {
    && |sizes| == |lead| == |other| && SlicesShared(sizes, lead) && PicksFrom(other, lead)
    && forall i :: 0 <= i < |sizes| ==> sizes[i] == 1 || sizes[i] == other[i]
  }

  lemma CompatibleInit(sizes: seq<nat>, other: seq<nat>, lead: seq<Pick>)
    requires Compatible(sizes, other, lead) && lead != []
    ensures var n := |lead| - 1; Compatible(sizes[..n], other[..n], lead[..n])
  {
  }

  /** The leading index of A for the picked pair. */
  function SharedIndex(sizes: seq<nat>, lead: seq<Pick>, l: Index): Index
    requires |sizes| == |lead|
    requires |PickedShape(LeadForA(sizes, lead))| == |l|
  {
    Broadcast(PickedShape(LeadForA(sizes, lead)), l)
  }

  lemma AtAgrees(j: nat, size: nat, other: nat)
    requires j < other && (size == 1 || size == other)
    ensures Wrapped(j, size) == if size == 1 then 0 else j
  {
  }

  lemma BroadcastSnoc(sizes: seq<nat>, size: nat, l: Index, x: nat)
    requires |sizes| == |l|
    ensures Broadcast(sizes + [size], l + [x]) == Broadcast(sizes, l) + [if size == 1 then 0 else x]
  {
  }

  lemma LeadForASnoc(sizes: seq<nat>, lead: seq<Pick>)
    requires |sizes| == |lead| > 0
    ensures var n := |lead| - 1;
            var last := if lead[n].At? then At(Wrapped(lead[n].j, sizes[n])) else All(sizes[n]);
            && LeadForA(sizes, lead) == LeadForA(sizes[..n], lead[..n]) + [last]
            && LeadForA(sizes, lead)[..n] == LeadForA(sizes[..n], lead[..n]) && LeadForA(sizes, lead)[n] == last
  {
  }

  /** Expanding a list that ends in a slice. */
  lemma ExpandSlice(ix: seq<Pick>, sel: seq<nat>, l: Index, x: nat)
    requires InBounds(PickedShape(ix), l) && x < |sel|
    ensures PickedShape(ix + [Slice(sel)]) == PickedShape(ix) + [|sel|]
    ensures InBounds(PickedShape(ix + [Slice(sel)]), l + [x])
    ensures Expand(ix + [Slice(sel)], l + [x]) == Expand(ix, l) + [sel[x]]
  {
    var one := ix + [Slice(sel)];
    assert one[..|one| - 1] == ix && (l + [x])[..|l|] == l;
  }

  lemma SliceShape(ix: seq<Pick>)
    requires ix != [] && ix[|ix| - 1].Slice?
    ensures PickedShape(ix) == PickedShape(ix[..|ix| - 1]) + [|ix[|ix| - 1].sel|]
  {
  }

  /** One more slice, on leading parts that already agree. */
  lemma SliceAgrees(sizes: seq<nat>, init: seq<Pick>, l: Index, size: nat, sel: seq<nat>, x: nat,
                    sizesNow: seq<nat>, lead: seq<Pick>, lNow: Index)
    requires |sizes| == |init|
    requires InBounds(PickedShape(init), l) && Agree(sizes, init, l)
    requires x < |sel| && (size == 1 || Slice(sel) == All(size))
    requires sizesNow == sizes + [size] && lead == init + [Slice(sel)] && lNow == l + [x]
    ensures InBounds(PickedShape(lead), lNow)
    ensures Agree(sizesNow, lead, lNow)
  {
    var initA := LeadForA(sizes, init);
    var y := if size == 1 then 0 else x;
    LeadForASnoc(sizesNow, lead);
    assert sizesNow[..|sizes|] == sizes && lead[..|init|] == init;
    assert LeadForA(sizesNow, lead) == initA + [All(size)];
    BroadcastSnoc(PickedShape(initA), size, l, x);
    ExpandSlice(initA, seq(size, i => i), Broadcast(PickedShape(initA), l), y);
    ExpandSlice(init, sel, l, x);
    BroadcastSnoc(sizes, size, Expand(init, l), sel[x]);
  }

  /** Broadcasting before or after picking finds the same leading index of A. */
  ghost predicate Agree(sizes: seq<nat>, lead: seq<Pick>, l: Index)
    requires |sizes| == |lead|
    requires InBounds(PickedShape(lead), l)
  {
    && |PickedShape(LeadForA(sizes, lead))| == |l|
    && InBounds(PickedShape(LeadForA(sizes, lead)), SharedIndex(sizes, lead, l))
    && Expand(LeadForA(sizes, lead), SharedIndex(sizes, lead, l)) == Broadcast(sizes, Expand(lead, l))
  }

  lemma {:induction false} LeadsAgree(sizes: seq<nat>, other: seq<nat>, lead: seq<Pick>, l: Index)
    requires Compatible(sizes, other, lead) && InBounds(PickedShape(lead), l)
    ensures Agree(sizes, lead, l)
    decreases |lead|, 1
  {
    if lead != [] {
      if lead[|lead| - 1].At? {
        LeadsAgreeNumber(sizes, other, lead, l);
      } else {
        LeadsAgreeSlice(sizes, other, lead, l);
      }
    }
  }

  lemma {:induction false} LeadsAgreeNumber(sizes: seq<nat>, other: seq<nat>, lead: seq<Pick>, l: Index)
    requires Compatible(sizes, other, lead) && InBounds(PickedShape(lead), l) && lead != [] && lead[|lead| - 1].At?
    ensures Agree(sizes, lead, l)
    decreases |lead|, 0
  {
    var n := |lead| - 1;
    CompatibleInit(sizes, other, lead);
    LeadsAgree(sizes[..n], other[..n], lead[..n], l);
    CompatibleLast(sizes, other, lead);
    NumberAgrees(sizes, lead, l);
  }

  lemma {:induction false} LeadsAgreeSlice(sizes: seq<nat>, other: seq<nat>, lead: seq<Pick>, l: Index)
    requires Compatible(sizes, other, lead) && InBounds(PickedShape(lead), l) && lead != [] && lead[|lead| - 1].Slice?
    ensures Agree(sizes, lead, l)
    decreases |lead|, 0
  {
    var n, m := |lead| - 1, |l| - 1;
    CompatibleInit(sizes, other, lead);
    SliceInit(lead, l);
    LeadsAgree(sizes[..n], other[..n], lead[..n], l[..m]);
    LastApart(sizes);
    SliceAgrees(sizes[..n], lead[..n], l[..m], sizes[n], lead[n].sel, l[m], sizes, lead, l);
  }

  lemma SliceInit(lead: seq<Pick>, l: Index)
    requires lead != [] && lead[|lead| - 1].Slice? && InBounds(PickedShape(lead), l)
    ensures var n, m := |lead| - 1, |l| - 1;
            && m >= 0 && InBounds(PickedShape(lead[..n]), l[..m]) && l[m] < |lead[n].sel|
            && lead == lead[..n] + [Slice(lead[n].sel)] && l == l[..m] + [l[m]]
  {
    SliceShape(lead);
  }

  lemma CompatibleLast(sizes: seq<nat>, other: seq<nat>, lead: seq<Pick>)
    requires Compatible(sizes, other, lead) && lead != [] && lead[|lead| - 1].At?
    ensures var n := |lead| - 1;
            && Wrapped(lead[n].j, sizes[n]) == (if sizes[n] == 1 then 0 else lead[n].j)
            && lead == lead[..n] + [At(lead[n].j)] && sizes == sizes[..n] + [sizes[n]]
  {
    var n := |lead| - 1;
    AtAgrees(lead[n].j, sizes[n], other[n]);
  }

  lemma NumberAgrees(sizes: seq<nat>, lead: seq<Pick>, l: Index)
    requires |sizes| == |lead| > 0 && lead[|lead| - 1].At?
    requires InBounds(PickedShape(lead), l)
    requires var n := |lead| - 1;
             && Wrapped(lead[n].j, sizes[n]) == (if sizes[n] == 1 then 0 else lead[n].j)
             && lead == lead[..n] + [At(lead[n].j)] && sizes == sizes[..n] + [sizes[n]]
             && InBounds(PickedShape(lead[..n]), l) && Agree(sizes[..n], lead[..n], l)
    ensures Agree(sizes, lead, l)
  {
    var n := |lead| - 1;
    LeadForASnoc(sizes, lead);
    NumberStep(sizes[..n], lead[..n], l, sizes[n], lead[n].j, LeadForA(sizes, lead), sizes, lead);
  }

  /** Expanding a list that ends in a number. */
  lemma ExpandNumber(ix: seq<Pick>, j: nat, l: Index)
    requires InBounds(PickedShape(ix), l)
    ensures PickedShape(ix + [At(j)]) == PickedShape(ix)
    ensures Expand(ix + [At(j)], l) == Expand(ix, l) + [j]
  {
    var one := ix + [At(j)];
    assert one[..|one| - 1] == ix;
  }

  lemma NumberStep(sizes: seq<nat>, init: seq<Pick>, l: Index, size: nat, j: nat,
                   leadA: seq<Pick>, sizesNow: seq<nat>, lead: seq<Pick>)
    requires |sizes| == |init|
    requires InBounds(PickedShape(init), l) && Agree(sizes, init, l) && Wrapped(j, size) == (if size == 1 then 0 else j)
    requires sizesNow == sizes + [size] && lead == init + [At(j)] && leadA == LeadForA(sizesNow, lead)
    requires leadA == LeadForA(sizes, init) + [At(Wrapped(j, size))]
    ensures InBounds(PickedShape(lead), l) && Agree(sizesNow, lead, l)
  {
    var shared := SharedIndex(sizes, init, l);
    ExpandNumber(init, j, l);
    ExpandNumber(LeadForA(sizes, init), Wrapped(j, size), shared);
    BroadcastSnoc(sizes, size, Expand(init, l), j);
  }

  ghost predicate Pickable(p: Pair, ix: seq<Pick>) {
    && Valid(p) && |ix| == |p.b.shape| && PicksFrom(Shape(p), ix)
    && ix[|ix| - 2].Slice? && ix[|ix| - 1].Slice?
    && SlicesShared(p.a.shape[..|ix| - 2], ix[..|ix| - 2])
  }

  /** The index lists of the pair and of the product, by their last two components. */
  lemma PickLists(p: Pair, ix: seq<Pick>)
    requires Pickable(p, ix)
    ensures var n := |ix|;
            var lead, rows, cols, r := ix[..n - 2], ix[n - 2].sel, ix[n - 1].sel, seq(Rank(p), i => i);
            var leadA := LeadForA(p.a.shape[..n - 2], lead);
            && Compatible(p.a.shape[..n - 2], p.b.shape[..n - 2], lead)
            && leadA + [All(Rank(p)), ix[n - 1]] == leadA + [Slice(r), Slice(cols)]
            && ix[..n - 1] + [All(Rank(p))] == lead + [Slice(rows), Slice(r)]
            && ix == lead + [Slice(rows), Slice(cols)]
  {
    var n := |ix|;
    assert Shape(p)[..n - 2] == p.b.shape[..n - 2];
    assert forall i :: 0 <= i < n - 2 ==> p.b.shape[..n - 2][i] == Shape(p)[i] && ix[..n - 2][i] == ix[i];
  }

  lemma PickedIsValid(p: Pair, ix: seq<Pick>)
    requires Pickable(p, ix)
    ensures Valid(PickedPair(p, ix)) && Rank(PickedPair(p, ix)) == Rank(p)
    ensures Shape(PickedPair(p, ix)) == PickedShape(ix)
  {
    var n := |ix|;
    var lead, rows, cols, r := ix[..n - 2], ix[n - 2].sel, ix[n - 1].sel, seq(Rank(p), i => i);
    var leadA := LeadForA(p.a.shape[..n - 2], lead);
    PickLists(p, ix);
    LeadShapes(p.a.shape[..n - 2], lead);
    ShapeOfTwo(leadA, r, cols);
    ShapeOfTwo(lead, rows, r);
    ShapeOfTwo(lead, rows, cols);
    assert PickedPair(p, ix).a.shape == PickedShape(leadA) + [Rank(p), |cols|];
    assert PickedPair(p, ix).b.shape == PickedShape(lead) + [|rows|, Rank(p)];
  }

  lemma PickedB(p: Pair, ix: seq<Pick>, l: Index, i: nat, k: nat)
    requires Pickable(p, ix) && k < Rank(p)
    requires var n := |ix|; InBounds(PickedShape(ix[..n - 2]), l) && i < |ix[n - 2].sel|
    ensures var n := |ix|; PickedPair(p, ix).b.at(l + [i, k]) == p.b.at(Expand(ix[..n - 2], l) + [ix[n - 2].sel[i], k])
  {
    PickLists(p, ix);
    ExpandTwo(ix[..|ix| - 2], ix[|ix| - 2].sel, seq(Rank(p), x => x), l, i, k);
  }

  lemma PickedA(p: Pair, ix: seq<Pick>, l: Index, k: nat, j: nat)
    requires Pickable(p, ix) && k < Rank(p)
    requires var n := |ix|; InBounds(PickedShape(ix[..n - 2]), l) && j < |ix[n - 1].sel|
    ensures var n := |ix|;
            var sizes, lead := p.a.shape[..n - 2], ix[..n - 2];
            && |PickedShape(LeadForA(sizes, lead))| == |l|
            && PickedPair(p, ix).a.at(SharedIndex(sizes, lead, l) + [k, j]) ==
                 p.a.at(Broadcast(sizes, Expand(lead, l)) + [k, ix[n - 1].sel[j]])
  {
    var n := |ix|;
    var sizes, lead := p.a.shape[..n - 2], ix[..n - 2];
    PickLists(p, ix);
    LeadsAgree(sizes, p.b.shape[..n - 2], lead, l);
    ExpandTwo(LeadForA(sizes, lead), seq(Rank(p), x => x), ix[n - 1].sel, SharedIndex(sizes, lead, l), k, j);
  }

  lemma TermAt(p: Pair, l: Index, i: nat, j: nat, k: nat)
    requires Valid(p) && |l| + 2 == |p.b.shape|
    ensures Term(p, l + [i, j])(k) == p.b.at(l + [i, k]) * p.a.at(Broadcast(p.a.shape[..|l|], l) + [k, j])
  {
    var idx := l + [i, j];
    assert idx[..|idx| - 1] + [k] == l + [i, k] && idx[..|idx| - 2] == l;
  }

  lemma PickedTerm(p: Pair, ix: seq<Pick>, l: Index, i: nat, j: nat, k: nat)
    requires Pickable(p, ix) && Valid(PickedPair(p, ix)) && k < Rank(p)
    requires var n := |ix|; InBounds(PickedShape(ix[..n - 2]), l) && i < |ix[n - 2].sel| && j < |ix[n - 1].sel|
    requires |l| + 2 == |PickedPair(p, ix).b.shape|
    ensures var n := |ix|;
            Term(PickedPair(p, ix), l + [i, j])(k) ==
              Term(p, Expand(ix[..n - 2], l) + [ix[n - 2].sel[i], ix[n - 1].sel[j]])(k)
  {
    var n := |ix|;
    TermAt(PickedPair(p, ix), l, i, j, k);
    TermAt(p, Expand(ix[..n - 2], l), ix[n - 2].sel[i], ix[n - 1].sel[j], k);
    PickedB(p, ix, l, i, k);
    PickedA(p, ix, l, k, j);
    PickedLead(p, ix);
  }

  lemma PickedLead(p: Pair, ix: seq<Pick>)
    requires Pickable(p, ix)
    ensures var s := PickedShape(LeadForA(p.a.shape[..|ix| - 2], ix[..|ix| - 2]));
            |s| + 2 == |PickedPair(p, ix).a.shape| && PickedPair(p, ix).a.shape[..|s|] == s
  {
    PickLists(p, ix);
    ShapeOfTwo(LeadForA(p.a.shape[..|ix| - 2], ix[..|ix| - 2]), seq(Rank(p), x => x), ix[|ix| - 1].sel);
  }

  /** Indexing the pair is indexing the product. */
  lemma PickCommutes(p: Pair, ix: seq<Pick>)
    requires Pickable(p, ix)
    ensures Valid(PickedPair(p, ix)) && Same(Product(PickedPair(p, ix)), Picked(Product(p), ix))
  {
    PickedIsValid(p, ix);
    forall idx: Index | InBounds(PickedShape(ix), idx)
      ensures Product(PickedPair(p, ix)).at(idx) == Picked(Product(p), ix).at(idx)
    {
      PickedEntry(p, ix, idx);
    }
  }

  lemma PickedSum(p: Pair, ix: seq<Pick>, l: Index, i: nat, j: nat, idx: Index, jdx: Index)
    requires Pickable(p, ix) && Valid(PickedPair(p, ix)) && Rank(PickedPair(p, ix)) == Rank(p)
    requires var n := |ix|; InBounds(PickedShape(ix[..n - 2]), l) && i < |ix[n - 2].sel| && j < |ix[n - 1].sel|
    requires |l| + 2 == |PickedPair(p, ix).b.shape| && idx == l + [i, j]
    requires var n := |ix|; jdx == Expand(ix[..n - 2], l) + [ix[n - 2].sel[i], ix[n - 1].sel[j]]
    ensures Product(PickedPair(p, ix)).at(idx) == Product(p).at(jdx)
  {
    ExpandedRank(ix, l);
    forall k: nat | k < Rank(p) ensures TermsAgree(PickedPair(p, ix), idx, p, jdx, k) {
      PickedTerm(p, ix, l, i, j, k);
    }
    EntriesAgree(PickedPair(p, ix), idx, p, jdx);
  }

  lemma ExpandedRank(ix: seq<Pick>, l: Index)
    requires |ix| >= 2 && InBounds(PickedShape(ix[..|ix| - 2]), l)
    ensures |Expand(ix[..|ix| - 2], l)| == |ix| - 2
  {
  }

  lemma TwoApart(s: seq<nat>)
    requires |s| >= 2
    ensures s == s[..|s| - 2] + [s[|s| - 2], s[|s| - 1]]
  {
  }

  lemma PickedEntry(p: Pair, ix: seq<Pick>, idx: Index)
    requires Pickable(p, ix) && Valid(PickedPair(p, ix)) && Rank(PickedPair(p, ix)) == Rank(p)
    requires InBounds(PickedShape(ix), idx) && |idx| == |PickedPair(p, ix).b.shape|
    ensures Product(PickedPair(p, ix)).at(idx) == Picked(Product(p), ix).at(idx)
  {
    var n, m := |ix|, |idx|;
    var lead, rows, cols := ix[..n - 2], ix[n - 2].sel, ix[n - 1].sel;
    PickLists(p, ix);
    ShapeOfTwo(lead, rows, cols);
    var l, i, j := idx[..m - 2], idx[m - 2], idx[m - 1];
    TwoApart(idx);
    ExpandTwo(lead, rows, cols, l, i, j);
    PickedSum(p, ix, l, i, j, idx, Expand(ix, idx));
  }
}
