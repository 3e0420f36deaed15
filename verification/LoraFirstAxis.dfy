/**
  convert_lora_to_gguf.py: what acts on the first axis, namely indexing with one number or one slice
  (lines 68-77), `torch.stack` (lines 199-206) and `torch.cat` (lines 207-224).  All are reduced to
  the slabs of a tensor, which are what is left of it when the first component of an index is fixed.
  */
module LoraFirstAxis {
  import opened Basics
  import opened Lora
  import opened LoraOps
  import opened LoraIndex

  function Slab(t: Tensor, h: nat): Tensor
    requires t.shape != []
  {
    Tensor(t.shape[1..], rest => t.at([h] + rest))
  }

  predicate AlikeAt(s: Tensor, t: Tensor, idx: Index) {
    |idx| == |s.shape| ==> s.at(idx) == t.at(idx)
  }

  /** Equal at every index of the right length, in bounds or not. */
  ghost predicate Alike(s: Tensor, t: Tensor) {
    s.shape == t.shape && forall idx: Index :: AlikeAt(s, t, idx)
  }

  lemma ShapesCons(a: seq<nat>, b: seq<nat>, m: nat)
    requires ShapesFit(a, b)
    ensures ShapesFit([m] + a, [m] + b) && DenseShape([m] + a, [m] + b) == [m] + DenseShape(a, b)
  {
    var c, d := [m] + a, [m] + b;
    assert forall i :: 0 <= i < |a| ==> c[i + 1] == a[i] && d[i + 1] == b[i];
    forall i | 0 <= i < |c| - 2 ensures c[i] == 1 || c[i] == d[i] {
      if i > 0 {
        assert c[i] == a[i - 1] && d[i] == b[i - 1];
      }
    }
  }

  lemma ShapesFirst(a: seq<nat>, b: seq<nat>, x: nat, y: nat)
    requires ShapesFit(a, b) && |b| >= 3
    ensures ShapesFit([x] + a[1..], [y] + b[1..]) <==> x == 1 || x == y
    ensures DenseShape([x] + a[1..], [y] + b[1..]) == [y] + DenseShape(a, b)[1..]
  {
    var c, d := [x] + a[1..], [y] + b[1..];
    assert forall i :: 1 <= i < |a| ==> c[i] == a[i] && d[i] == b[i];
    assert c[0] == x && d[0] == y;
  }

  /** The slab of A that belongs to slab `h` of the product. */
  function First(p: Pair, h: nat): nat
    requires p.a.shape != []
  {
    if p.a.shape[0] == 1 then 0 else h
  }

  function SlabPair(p: Pair, h: nat): Pair
    requires p.a.shape != [] && p.b.shape != []
  {
    Pair(Slab(p.a, First(p, h)), Slab(p.b, h))
  }

  lemma SlabIsValid(p: Pair, h: nat)
    requires Valid(p) && |p.b.shape| >= 3
    ensures Valid(SlabPair(p, h)) && Rank(SlabPair(p, h)) == Rank(p) && Shape(SlabPair(p, h)) == Shape(p)[1..]
  {
    var q := SlabPair(p, h);
    assert forall i :: 0 <= i < |q.b.shape| ==> q.a.shape[i] == p.a.shape[i + 1] && q.b.shape[i] == p.b.shape[i + 1];
  }

  lemma BroadcastCons(sizes: seq<nat>, h: nat, l: Index)
    requires |sizes| == |l| + 1
    ensures Broadcast(sizes, [h] + l) == [if sizes[0] == 1 then 0 else h] + Broadcast(sizes[1..], l)
  {
    var b, c := Broadcast(sizes, [h] + l), Broadcast(sizes[1..], l);
    assert forall i :: 1 <= i < |b| ==> b[i] == c[i - 1];
  }

  lemma SlabTerm(p: Pair, h: nat, l: Index, i: nat, j: nat, k: nat)
    requires Valid(p) && |p.b.shape| == |l| + 3 && Valid(SlabPair(p, h))
    ensures Term(SlabPair(p, h), l + [i, j])(k) == Term(p, ([h] + l) + [i, j])(k)
  {
    var q := SlabPair(p, h);
    TermAt(q, l, i, j, k);
    TermAt(p, [h] + l, i, j, k);
    BroadcastCons(p.a.shape[..|l| + 1], h, l);
    assert p.a.shape[..|l| + 1][1..] == q.a.shape[..|l|];
    var c := Broadcast(q.a.shape[..|l|], l);
    assert [h] + (l + [i, k]) == ([h] + l) + [i, k];
    assert [First(p, h)] + (c + [k, j]) == ([First(p, h)] + c) + [k, j];
  }

  /** An entry of the product lies in the product of the slabs. */
  lemma SlabEntry(p: Pair, h: nat, rest: Index)
    requires Valid(p) && |p.b.shape| == |rest| + 1 >= 3 && Valid(SlabPair(p, h))
    ensures Product(SlabPair(p, h)).at(rest) == Product(p).at([h] + rest)
  {
    SlabIsValid(p, h);
    forall k: nat | k < Rank(p) ensures TermsAgree(SlabPair(p, h), rest, p, [h] + rest, k) {
      SlabTermAt(p, h, rest, k);
    }
    EntriesAgree(SlabPair(p, h), rest, p, [h] + rest);
  }

  lemma SlabTermAt(p: Pair, h: nat, rest: Index, k: nat)
    requires Valid(p) && |p.b.shape| == |rest| + 1 >= 3 && Valid(SlabPair(p, h))
    ensures TermsAgree(SlabPair(p, h), rest, p, [h] + rest, k)
  {
    var m := |rest|;
    var l, i, j := rest[..m - 2], rest[m - 2], rest[m - 1];
    assert rest == l + [i, j];
    assert [h] + rest == ([h] + l) + [i, j];
    SlabTerm(p, h, l, i, j, k);
  }

  lemma AlikeEntry(p: Pair, q: Pair, idx: Index)
    requires Valid(p) && Valid(q) && Alike(p.a, q.a) && Alike(p.b, q.b) && |idx| == |p.b.shape|
    ensures Product(p).at(idx) == Product(q).at(idx)
  {
    var n := |idx|;
    forall k: nat | 0 <= k < Rank(p) ensures Term(p, idx)(k) == Term(q, idx)(k) {
      assert AlikeAt(p.b, q.b, idx[..n - 1] + [k]);
      assert AlikeAt(p.a, q.a, Broadcast(p.a.shape[..n - 2], idx[..n - 2]) + [k, idx[n - 1]]);
    }
    SumSame(Rank(p), Term(p, idx), Term(q, idx));
  }

  /** Two pairs whose slabs are alike have the same entries there. */
  lemma SameSlab(p: Pair, h: nat, q: Pair, g: nat, rest: Index)
    requires Valid(p) && Valid(q) && |p.b.shape| == |q.b.shape| == |rest| + 1 >= 3
    requires Alike(SlabPair(p, h).a, SlabPair(q, g).a) && Alike(SlabPair(p, h).b, SlabPair(q, g).b)
    ensures Product(p).at([h] + rest) == Product(q).at([g] + rest)
  {
    SlabIsValid(p, h);
    SlabIsValid(q, g);
    SlabEntry(p, h, rest);
    SlabEntry(q, g, rest);
    AlikeEntry(SlabPair(p, h), SlabPair(q, g), rest);
  }

  // ----- one number (lines 68-72) -----

  /** Both factors are indexed with the number, which must exist in both; a matrix is refused. */
  function ItemAt(p: Pair, j: int): Outcome
    requires Valid(p)
  {
    if |p.b.shape| > 2 && Usable(Number(j), p.a.shape[0]) && Usable(Number(j), p.b.shape[0]) then
      Construct(Slab(p.a, Normal(j, p.a.shape[0])), Slab(p.b, Normal(j, p.b.shape[0])))
    else Raised
  }

  /** A number that exists in both factors, counted from either end, picks that slab of the product; others are refused. */
  lemma ItemMeansItem(p: Pair, j: int)
    requires Valid(p)
    ensures var r := ItemAt(p, j);
            if |p.b.shape| > 2 && Usable(Number(j), p.a.shape[0]) && Usable(Number(j), p.b.shape[0]) then
              r.Done? && Valid(r.pair) && Same(Product(r.pair), Slab(Product(p), Normal(j, p.b.shape[0])))
            else r.Raised?
  {
    if |p.b.shape| > 2 && Usable(Number(j), p.a.shape[0]) && Usable(Number(j), p.b.shape[0]) {
      var h := Normal(j, p.b.shape[0]);
      assert First(p, h) == Normal(j, p.a.shape[0]);
      SlabIsValid(p, h);
      assert ItemAt(p, j) == Done(SlabPair(p, h));
      SlabSame(p, h);
    }
  }

  lemma SlabSame(p: Pair, h: nat)
    requires Valid(p) && |p.b.shape| >= 3 && Valid(SlabPair(p, h))
    ensures Same(Product(SlabPair(p, h)), Slab(Product(p), h))
  {
    SlabIsValid(p, h);
    forall rest: Index ensures SameAt(Product(SlabPair(p, h)), Slab(Product(p), h), rest) {
      if InBounds(Shape(p)[1..], rest) {
        SlabEntry(p, h, rest);
      }
    }
  }

  // ----- one slice (lines 73-77) -----

  /** The index with its first component looked up in `sel`. */
  function Moved(sel: seq<nat>, idx: Index): Index
    requires idx != [] && idx[0] < |sel|
  {
    [sel[idx[0]]] + idx[1..]
  }

  function Rows(t: Tensor, sel: seq<nat>): Tensor
    requires t.shape != []
  {
    Tensor([|sel|] + t.shape[1..], idx => if idx == [] || idx[0] >= |sel| then 0 else t.at(Moved(sel, idx)))
  }

  /** Two factors after `self[start:stop:step]`: a matrix keeps its A, and otherwise each factor is sliced by its own size. */
  function SlicePair(p: Pair, c: Component): Pair
    requires Valid(p) && c.Range? && c.step > 0
  {
    var b := Rows(p.b, Selected(c, p.b.shape[0]));
    if |p.b.shape| > 2 then Pair(Rows(p.a, Selected(c, p.a.shape[0])), b) else Pair(p.a, b)
  }

  lemma MovedCons(sel: seq<nat>, h: nat, g: nat, rest: Index)
    requires h < |sel| && g == sel[h]
    ensures Moved(sel, [h] + rest) == [g] + rest
  {
  }

  lemma RowsSlab(t: Tensor, sel: seq<nat>, h: nat, g: nat)
    requires t.shape != [] && h < |sel| && g == sel[h]
    ensures Alike(Slab(Rows(t, sel), h), Slab(t, g))
  {
    forall rest: Index ensures AlikeAt(Slab(Rows(t, sel), h), Slab(t, g), rest) {
      MovedCons(sel, h, g, rest);
    }
  }

  /** The condition under which slicing the two factors apart is slicing the product. */
  predicate Sliceable(p: Pair, c: Component)
    requires Valid(p) && c.Range? && c.step > 0
  {
    p.a.shape[0] == p.b.shape[0] || Selected(c, 1) != [] || Selected(c, p.b.shape[0]) == []
  }

  lemma OneSelected(c: Component)
    requires c.Range? && c.step > 0
    ensures Selected(c, 1) == [] || Selected(c, 1) == [0]
  {
    SelectedAscends(c, 1);
  }

  lemma SliceIsValid(p: Pair, c: Component)
    requires Valid(p) && |p.b.shape| > 2 && c.Range? && c.step > 0
    ensures Valid(SlicePair(p, c)) <==> Sliceable(p, c)
  {
    OneSelected(c);
    ShapesFirst(p.a.shape, p.b.shape, |Selected(c, p.a.shape[0])|, |Selected(c, p.b.shape[0])|);
  }

  /** The slab of A that goes with slab `h` of the slice. */
  lemma SlicedFirst(p: Pair, c: Component, h: nat, g: nat)
    requires Valid(p) && |p.b.shape| > 2 && c.Range? && c.step > 0 && Sliceable(p, c)
    requires h < |Selected(c, p.b.shape[0])| && g == Selected(c, p.b.shape[0])[h]
    ensures var sel, f := Selected(c, p.a.shape[0]), First(SlicePair(p, c), h); f < |sel| && sel[f] == First(p, g)
  {
    OneSelected(c);
    SelectedAscends(c, p.b.shape[0]);
  }

  lemma SliceEntry(p: Pair, c: Component, h: nat, g: nat, rest: Index)
    requires Valid(p) && |p.b.shape| == |rest| + 1 >= 3 && c.Range? && c.step > 0
    requires Valid(SlicePair(p, c)) && Sliceable(p, c)
    requires h < |Selected(c, p.b.shape[0])| && g == Selected(c, p.b.shape[0])[h]
    ensures Product(SlicePair(p, c)).at([h] + rest) == Product(p).at([g] + rest)
  {
    var q := SlicePair(p, c);
    RowsSlab(p.b, Selected(c, p.b.shape[0]), h, g);
    SlicedFirst(p, c, h, g);
    RowsSlab(p.a, Selected(c, p.a.shape[0]), First(q, h), First(p, g));
    SameSlab(q, h, p, g, rest);
  }

  lemma SliceShape(p: Pair, c: Component)
    requires Valid(p) && |p.b.shape| > 2 && c.Range? && c.step > 0 && Valid(SlicePair(p, c))
    ensures Shape(SlicePair(p, c)) == Rows(Product(p), Selected(c, p.b.shape[0])).shape
  {
    ShapesFirst(p.a.shape, p.b.shape, |Selected(c, p.a.shape[0])|, |Selected(c, p.b.shape[0])|);
  }

  lemma SliceAt(p: Pair, c: Component, idx: Index)
    requires Valid(p) && |p.b.shape| > 2 && c.Range? && c.step > 0 && Valid(SlicePair(p, c)) && Sliceable(p, c)
    ensures SameAt(Product(SlicePair(p, c)), Rows(Product(p), Selected(c, p.b.shape[0])), idx)
  {
    var sel := Selected(c, p.b.shape[0]);
    SliceShape(p, c);
    if InBounds(Shape(SlicePair(p, c)), idx) {
      var h, rest := idx[0], idx[1..];
      assert idx == [h] + rest && h < |sel|;
      MovedCons(sel, h, sel[h], rest);
      SliceEntry(p, c, h, sel[h], rest);
    }
  }

  lemma SlicePairExactly(p: Pair, c: Component)
    requires Valid(p) && |p.b.shape| > 2 && c.Range? && c.step > 0
    ensures (Valid(SlicePair(p, c)) && Same(Product(SlicePair(p, c)), Rows(Product(p), Selected(c, p.b.shape[0]))))
            <==> Sliceable(p, c)
  {
    SliceIsValid(p, c);
    if Sliceable(p, c) {
      SliceShape(p, c);
      forall idx: Index ensures SameAt(Product(SlicePair(p, c)), Rows(Product(p), Selected(c, p.b.shape[0])), idx) {
        SliceAt(p, c, idx);
      }
    }
  }

  /** `__getitem__` with one slice; torch refuses a step that is not positive. */
  function SliceItem(p: Pair, c: Component): (r: Outcome)
    requires Valid(p) && c.Range?
  {
    if c.step > 0 then Construct(SlicePair(p, c).a, SlicePair(p, c).b) else Raised
  }

  /** Slicing rows leaves what the constructor asserts alone. */
  lemma SliceConstructs(p: Pair, c: Component)
    requires Valid(p) && c.Range? && c.step > 0
    ensures SliceItem(p, c) == Done(SlicePair(p, c))
  {
    var q, n := SlicePair(p, c), |p.b.shape|;
    assert q.b.shape[n - 1] == p.b.shape[n - 1] && q.a.shape[n - 2] == p.a.shape[n - 2];
  }

  /**
    A stack of matrices is sliced correctly exactly when the step is positive and A is not shared, or the
    slice keeps an axis of size 1, or it selects nothing.
    */
  lemma SliceExactly(p: Pair, c: Component)
    requires Valid(p) && |p.b.shape| > 2 && c.Range?
    ensures var r := SliceItem(p, c);
            (c.step > 0 && r.Done? && Valid(r.pair) && Same(Product(r.pair), Rows(Product(p), Selected(c, p.b.shape[0]))))
            <==> c.step > 0 && Sliceable(p, c)
    ensures c.step <= 0 ==> SliceItem(p, c).Raised?
  {
    if c.step > 0 {
      SliceConstructs(p, c);
      SlicePairExactly(p, c);
    }
  }

  /** One A shared by two matrices, and the slice 1:2: nothing is left of A. */
  lemma SliceExample()
    ensures var p, c := Pair(Tensor([1, 1, 1], _ => 1), Tensor([2, 1, 1], _ => 1)), Range(Some(1), Some(2), 1);
            && Valid(p) && !Valid(SlicePair(p, c))
            && SlicePair(p, c).a.shape == [0, 1, 1] && SlicePair(p, c).b.shape == [1, 1, 1]
  {
    var p, c := Pair(Tensor([1, 1, 1], _ => 1), Tensor([2, 1, 1], _ => 1)), Range(Some(1), Some(2), 1);
    assert Selected(c, 1) == [] && Steps(2, 2, 1) == [] && Selected(c, 2) == [1];
    SliceIsValid(p, c);
  }

  predicate RowAlike(s: Tensor, i: nat, t: Tensor, g: nat, k: nat) {
    s.at([i, k]) == t.at([g, k])
  }

  /** Two matrix pairs with one A: a shared row of B is a shared row of the product. */
  lemma SameMatrixRow(p: Pair, q: Pair, i: nat, g: nat, j: nat)
    requires Valid(p) && Valid(q) && |p.b.shape| == |q.b.shape| == 2 && Same(p.a, q.a) && j < p.a.shape[1]
    requires forall k: nat :: RowAlike(p.b, i, q.b, g, k)
    ensures Product(p).at([i, j]) == Product(q).at([g, j])
  {
    forall k: nat | 0 <= k < Rank(p) ensures Term(p, [i, j])(k) == Term(q, [g, j])(k) {
      MatrixTerm(p, [i, j], k);
      MatrixTerm(q, [g, j], k);
      assert RowAlike(p.b, i, q.b, g, k);
      assert InBounds(p.a.shape, [k, j]) && SameAt(p.a, q.a, [k, j]);
    }
    SumSame(Rank(p), Term(p, [i, j]), Term(q, [g, j]));
  }

  lemma MatrixSliceEntry(p: Pair, c: Component, i: nat, g: nat, j: nat)
    requires Valid(p) && |p.b.shape| == 2 && c.Range? && c.step > 0 && Valid(SlicePair(p, c)) && j < p.a.shape[1]
    requires i < |Selected(c, p.b.shape[0])| && g == Selected(c, p.b.shape[0])[i]
    ensures Product(SlicePair(p, c)).at([i, j]) == Product(p).at([g, j])
  {
    var q := SlicePair(p, c);
    forall k: nat ensures RowAlike(q.b, i, p.b, g, k) {
      MovedCons(Selected(c, p.b.shape[0]), i, g, [k]);
      assert [i] + [k] == [i, k] && [g] + [k] == [g, k];
    }
    SameMatrixRow(q, p, i, g, j);
  }

  /** The shape of a pair of matrices. */
  lemma MatrixShapes(p: Pair)
    requires |p.a.shape| == |p.b.shape| == 2 && p.a.shape[0] == p.b.shape[1]
    ensures Valid(p) && Shape(p) == [p.b.shape[0], p.a.shape[1]]
  {
  }

  lemma MatrixSliceAt(p: Pair, c: Component, idx: Index)
    requires Valid(p) && |p.b.shape| == 2 && c.Range? && c.step > 0 && Valid(SlicePair(p, c))
    ensures SameAt(Product(SlicePair(p, c)), Rows(Product(p), Selected(c, p.b.shape[0])), idx)
  {
    var sel := Selected(c, p.b.shape[0]);
    MatrixShapes(SlicePair(p, c));
    if InBounds(Shape(SlicePair(p, c)), idx) {
      var i, j := idx[0], idx[1];
      assert i < |sel| && j < p.a.shape[1];
      assert idx == [i] + [j] == [i, j] && [sel[i]] + [j] == [sel[i], j];
      MovedCons(sel, i, sel[i], [j]);
      MatrixSliceEntry(p, c, i, sel[i], j);
    }
  }

  /** Slicing the rows of a matrix is always right, unless the step is refused. */
  lemma MatrixSlice(p: Pair, c: Component)
    requires Valid(p) && |p.b.shape| == 2 && c.Range?
    ensures var r := SliceItem(p, c);
            if c.step > 0 then r.Done? && Valid(r.pair) && Same(Product(r.pair), Rows(Product(p), Selected(c, p.b.shape[0])))
            else r.Raised?
  {
    if c.step > 0 {
      SliceConstructs(p, c);
      MatrixShapes(p);
      MatrixShapes(SlicePair(p, c));
      forall idx: Index ensures SameAt(Product(SlicePair(p, c)), Rows(Product(p), Selected(c, p.b.shape[0])), idx) {
        MatrixSliceAt(p, c, idx);
      }
    }
  }

  // ----- torch.stack (lines 199-206) -----

  function Stack(ts: seq<Tensor>): Tensor
    requires ts != []
  {
    Tensor([|ts|] + ts[0].shape, idx => if idx != [] && idx[0] < |ts| then ts[idx[0]].at(idx[1..]) else 0)
  }

  function FactorsA(ps: seq<Pair>): (r: seq<Tensor>)
    ensures |r| == |ps| && forall i :: 0 <= i < |ps| ==> r[i] == ps[i].a
  {
    seq(|ps|, i requires 0 <= i < |ps| => ps[i].a)
  }

  function FactorsB(ps: seq<Pair>): (r: seq<Tensor>)
    ensures |r| == |ps| && forall i :: 0 <= i < |ps| ==> r[i] == ps[i].b
  {
    seq(|ps|, i requires 0 <= i < |ps| => ps[i].b)
  }

  function Products(ps: seq<Pair>): (r: seq<Tensor>)
    requires forall i :: 0 <= i < |ps| ==> Valid(ps[i])
    ensures |r| == |ps| && forall i :: 0 <= i < |ps| ==> r[i] == Product(ps[i])
  {
    seq(|ps|, i requires 0 <= i < |ps| => Product(ps[i]))
  }

  /** torch stacks only tensors of one shape. */
  ghost predicate Stackable(ps: seq<Pair>) {
    && ps != []
    && forall i :: 0 <= i < |ps| ==>
         Valid(ps[i]) && ps[i].a.shape == ps[0].a.shape && ps[i].b.shape == ps[0].b.shape
  }

  function StackPair(ps: seq<Pair>): Pair
    requires ps != []
  {
    Pair(Stack(FactorsA(ps)), Stack(FactorsB(ps)))
  }

  lemma StackIsValid(ps: seq<Pair>)
    requires Stackable(ps)
    ensures Valid(StackPair(ps)) && Rank(StackPair(ps)) == Rank(ps[0])
    ensures Shape(StackPair(ps)) == [|ps|] + Shape(ps[0])
  {
    ShapesCons(ps[0].a.shape, ps[0].b.shape, |ps|);
    var q, m := StackPair(ps), |ps[0].b.shape|;
    assert q.b.shape == [|ps|] + ps[0].b.shape;
    assert q.b.shape[m] == ps[0].b.shape[m - 1];
  }

  lemma StackSlab(ts: seq<Tensor>, h: nat)
    requires h < |ts| && ts[h].shape == ts[0].shape
    ensures Alike(Slab(Stack(ts), h), ts[h])
  {
    forall rest: Index | |rest| == |ts[h].shape| ensures Slab(Stack(ts), h).at(rest) == ts[h].at(rest) {
      assert ([h] + rest)[1..] == rest;
    }
  }

  lemma StackEntry(ps: seq<Pair>, h: nat, rest: Index)
    requires Stackable(ps) && Valid(StackPair(ps)) && h < |ps| && |rest| == |ps[0].b.shape|
    ensures Product(StackPair(ps)).at([h] + rest) == Product(ps[h]).at(rest)
  {
    var q := StackPair(ps);
    SlabIsValid(q, h);
    SlabEntry(q, h, rest);
    StackSlab(FactorsA(ps), h);
    StackSlab(FactorsB(ps), h);
    assert First(q, h) == h;
    AlikeEntry(SlabPair(q, h), ps[h], rest);
  }

  /** Stacking the factors stacks the products. */
  lemma StackCommutes(ps: seq<Pair>)
    requires Stackable(ps)
    ensures Valid(StackPair(ps)) && Same(Product(StackPair(ps)), Stack(Products(ps)))
  {
    StackIsValid(ps);
    forall idx: Index | InBounds([|ps|] + Shape(ps[0]), idx)
      ensures Product(StackPair(ps)).at(idx) == Stack(Products(ps)).at(idx)
    {
      assert idx == [idx[0]] + idx[1..];
      StackEntry(ps, idx[0], idx[1..]);
    }
  }

  // ----- torch.cat (lines 207-224) -----

  /** The index with `base` taken from its first component. */
  function Unshifted(base: nat, idx: Index): Index
    requires idx != [] && base <= idx[0]
  {
    [idx[0] - base] + idx[1..]
  }

  function JoinedShape(s: seq<nat>, t: seq<nat>): seq<nat>
    requires s != [] && t != []
  {
    [s[0] + t[0]] + s[1..]
  }

  function Concat(s: Tensor, t: Tensor): Tensor
    requires s.shape != [] && t.shape != []
  {
    Tensor(JoinedShape(s.shape, t.shape),
           idx => if idx == [] then 0 else if idx[0] < s.shape[0] then s.at(idx) else t.at(Unshifted(s.shape[0], idx)))
  }

  /** torch concatenates tensors whose shapes differ in the first axis only. */
  ghost predicate Fits(s: seq<nat>, t: seq<nat>) {
    |s| == |t| > 0 && s[1..] == t[1..]
  }

  lemma UnshiftedCons(base: nat, h: nat, g: nat, rest: Index)
    requires h == base + g
    ensures Unshifted(base, [h] + rest) == [g] + rest
  {
  }

  lemma UpperSlab(s: Tensor, t: Tensor, h: nat)
    requires Fits(s.shape, t.shape) && h < s.shape[0]
    ensures Alike(Slab(Concat(s, t), h), Slab(s, h))
  {
    forall rest: Index ensures AlikeAt(Slab(Concat(s, t), h), Slab(s, h), rest) {
    }
  }

  lemma LowerSlab(s: Tensor, t: Tensor, h: nat, g: nat)
    requires Fits(s.shape, t.shape) && h == s.shape[0] + g
    ensures Alike(Slab(Concat(s, t), h), Slab(t, g))
  {
    forall rest: Index ensures AlikeAt(Slab(Concat(s, t), h), Slab(t, g), rest) {
      UnshiftedCons(s.shape[0], h, g, rest);
    }
  }

  function CatPair(p: Pair, q: Pair): Pair
    requires p.a.shape != [] && q.a.shape != [] && p.b.shape != [] && q.b.shape != []
  {
    Pair(Concat(p.a, q.a), Concat(p.b, q.b))
  }

  /** A has a slab of its own for each slab of B. */
  predicate Unshared(p: Pair) {
    p.a.shape != [] && p.b.shape != [] && p.a.shape[0] == p.b.shape[0]
  }

  ghost predicate Joinable(p: Pair, q: Pair) {
    Valid(p) && Valid(q) && |p.b.shape| >= 3 && Fits(p.a.shape, q.a.shape) && Fits(p.b.shape, q.b.shape)
  }

  lemma ConcatShape(a: seq<nat>, b: seq<nat>, x: nat, y: nat)
    requires ShapesFit(a, b) && |b| >= 3
    ensures DenseShape(a, b)[0] == b[0]
    ensures ShapesFit([x] + a[1..], [y] + b[1..]) <==> x == 1 || x == y
    ensures DenseShape([x] + a[1..], [y] + b[1..]) == [y] + DenseShape(a, b)[1..]
  {
    ShapesFirst(a, b, x, y);
  }

  /** Both keep their own slabs of A, or one of them has no slabs at all. */
  ghost predicate Mixes(p: Pair, q: Pair)
    requires Joinable(p, q)
  {
    (Unshared(p) && Unshared(q)) || p.a.shape[0] == 0 || q.a.shape[0] == 0
  }

  lemma NoSlabs(p: Pair)
    requires Valid(p) && |p.b.shape| >= 3 && p.a.shape[0] == 0
    ensures p.b.shape[0] == 0
  {
  }

  lemma CatIsValid(p: Pair, q: Pair)
    requires Joinable(p, q) && Mixes(p, q)
    ensures Valid(CatPair(p, q))
  {
    if p.a.shape[0] == 0 { NoSlabs(p); }
    if q.a.shape[0] == 0 { NoSlabs(q); }
    ConcatShape(p.a.shape, p.b.shape, p.a.shape[0] + q.a.shape[0], p.b.shape[0] + q.b.shape[0]);
  }

  lemma CatShapeOf(a: seq<nat>, b: seq<nat>, c: seq<nat>, d: seq<nat>)
    requires ShapesFit(a, b) && ShapesFit(c, d) && |b| >= 3 && |d| >= 3
    ensures DenseShape(JoinedShape(a, c), JoinedShape(b, d)) == JoinedShape(DenseShape(a, b), DenseShape(c, d))
  {
    ConcatShape(a, b, a[0] + c[0], b[0] + d[0]);
    assert DenseShape(c, d)[0] == d[0];
    assert DenseShape(a, b)[0] + DenseShape(c, d)[0] == b[0] + d[0];
  }

  lemma CatShape(p: Pair, q: Pair)
    requires Joinable(p, q) && Valid(CatPair(p, q))
    ensures Product(CatPair(p, q)).shape == Concat(Product(p), Product(q)).shape
  {
    CatShapeOf(p.a.shape, p.b.shape, q.a.shape, q.b.shape);
  }

  /** The slab of A for an upper slab is that of the upper part. */
  lemma UpperFirst(p: Pair, q: Pair, h: nat)
    requires Joinable(p, q) && Mixes(p, q) && h < p.b.shape[0]
    ensures First(CatPair(p, q), h) == First(p, h) < p.a.shape[0]
  {
    if p.a.shape[0] == 0 {
      NoSlabs(p);
    }
  }

  lemma LowerFirst(p: Pair, q: Pair, h: nat, g: nat)
    requires Joinable(p, q) && Mixes(p, q) && h == p.b.shape[0] + g && g < q.b.shape[0]
    ensures First(CatPair(p, q), h) == p.a.shape[0] + First(q, g)
  {
    if p.a.shape[0] == 0 {
      NoSlabs(p);
    } else if q.a.shape[0] == 0 {
      NoSlabs(q);
    }
  }

  lemma UpperEntry(p: Pair, q: Pair, h: nat, rest: Index)
    requires Joinable(p, q) && Mixes(p, q) && |p.b.shape| == |rest| + 1 && h < p.b.shape[0] && Valid(CatPair(p, q))
    ensures Product(CatPair(p, q)).at([h] + rest) == Product(p).at([h] + rest)
  {
    UpperFirst(p, q, h);
    UpperSlab(p.a, q.a, First(p, h));
    UpperSlab(p.b, q.b, h);
    SameSlab(CatPair(p, q), h, p, h, rest);
  }

  lemma LowerEntry(p: Pair, q: Pair, h: nat, g: nat, rest: Index)
    requires Joinable(p, q) && Mixes(p, q) && |p.b.shape| == |rest| + 1
    requires h == p.b.shape[0] + g && g < q.b.shape[0] && Valid(CatPair(p, q))
    ensures Product(CatPair(p, q)).at([h] + rest) == Product(q).at([g] + rest)
  {
    LowerFirst(p, q, h, g);
    LowerSlab(p.a, q.a, First(CatPair(p, q), h), First(q, g));
    LowerSlab(p.b, q.b, h, g);
    SameSlab(CatPair(p, q), h, q, g, rest);
  }

  predicate UpperAgrees(c: Tensor, s: Tensor, h: nat, rest: Index)
    requires s.shape != []
  {
    InBounds(c.shape, [h] + rest) && h < s.shape[0] ==> c.at([h] + rest) == s.at([h] + rest)
  }

  predicate LowerAgrees(c: Tensor, m: nat, t: Tensor, h: nat, g: nat, rest: Index) {
    InBounds(c.shape, [h] + rest) && h == m + g ==> c.at([h] + rest) == t.at([g] + rest)
  }

  ghost predicate SlabsAgree(c: Tensor, s: Tensor, t: Tensor, m: nat) {
    && s.shape != [] && t.shape != [] && m == s.shape[0]
    && (forall h, rest :: UpperAgrees(c, s, h, rest))
    && (forall h, g, rest :: LowerAgrees(c, m, t, h, g, rest))
  }

  /** A tensor is a concatenation when its upper and its lower slabs are those of the parts. */
  lemma IsConcat(c: Tensor, s: Tensor, t: Tensor, m: nat)
    requires SlabsAgree(c, s, t, m) && c.shape == Concat(s, t).shape
    ensures Same(c, Concat(s, t))
  {
    forall idx: Index ensures SameAt(c, Concat(s, t), idx) {
      if InBounds(c.shape, idx) {
        var h, rest := idx[0], idx[1..];
        assert idx == [h] + rest;
        if h < s.shape[0] {
          assert UpperAgrees(c, s, h, rest);
        } else {
          var g := h - s.shape[0];
          UnshiftedCons(s.shape[0], h, g, rest);
          assert LowerAgrees(c, m, t, h, g, rest);
        }
      }
    }
  }

  lemma CatUpper(p: Pair, q: Pair, h: nat, rest: Index)
    requires Joinable(p, q) && Mixes(p, q) && Valid(CatPair(p, q))
    ensures UpperAgrees(Product(CatPair(p, q)), Product(p), h, rest)
  {
    if |rest| + 1 == |p.b.shape| && h < p.b.shape[0] {
      UpperEntry(p, q, h, rest);
    }
  }

  lemma InsideCat(p: Pair, q: Pair, h: nat, rest: Index)
    requires Joinable(p, q) && Valid(CatPair(p, q)) && InBounds(Shape(CatPair(p, q)), [h] + rest)
    ensures |rest| + 1 == |p.b.shape| && h < p.b.shape[0] + q.b.shape[0]
  {
    assert ([h] + rest)[0] < Shape(CatPair(p, q))[0];
  }

  lemma CatLower(p: Pair, q: Pair, h: nat, g: nat, rest: Index)
    requires Joinable(p, q) && Mixes(p, q) && Valid(CatPair(p, q))
    ensures LowerAgrees(Product(CatPair(p, q)), p.b.shape[0], Product(q), h, g, rest)
  {
    if InBounds(Shape(CatPair(p, q)), [h] + rest) && h == p.b.shape[0] + g {
      InsideCat(p, q, h, rest);
      LowerEntry(p, q, h, g, rest);
    }
  }

  lemma CatUppers(p: Pair, q: Pair)
    requires Joinable(p, q) && Mixes(p, q) && Valid(CatPair(p, q))
    ensures forall h, rest :: UpperAgrees(Product(CatPair(p, q)), Product(p), h, rest)
  {
    forall h, rest ensures UpperAgrees(Product(CatPair(p, q)), Product(p), h, rest) {
      CatUpper(p, q, h, rest);
    }
  }

  lemma CatLowers(p: Pair, q: Pair)
    requires Joinable(p, q) && Mixes(p, q) && Valid(CatPair(p, q))
    ensures forall h, g, rest :: LowerAgrees(Product(CatPair(p, q)), p.b.shape[0], Product(q), h, g, rest)
  {
    forall h, g, rest ensures LowerAgrees(Product(CatPair(p, q)), p.b.shape[0], Product(q), h, g, rest) {
      CatLower(p, q, h, g, rest);
    }
  }

  lemma FirstOfProduct(p: Pair)
    requires Valid(p)
    ensures Product(p).shape != [] && Product(p).shape[0] == p.b.shape[0]
  {
  }

  lemma CatCommutes(p: Pair, q: Pair)
    requires Joinable(p, q) && Mixes(p, q)
    ensures Valid(CatPair(p, q))
    ensures Same(Product(CatPair(p, q)), Concat(Product(p), Product(q)))
  {
    CatIsValid(p, q);
    CatSame(p, q);
  }

  lemma CatSlabsAgree(p: Pair, q: Pair)
    requires Joinable(p, q) && Mixes(p, q) && Valid(CatPair(p, q))
    ensures SlabsAgree(Product(CatPair(p, q)), Product(p), Product(q), p.b.shape[0])
  {
    CatUppers(p, q);
    CatLowers(p, q);
    FirstOfProduct(p);
    FirstOfProduct(q);
  }

  lemma CatSame(p: Pair, q: Pair)
    requires Joinable(p, q) && Mixes(p, q) && Valid(CatPair(p, q))
    ensures Same(Product(CatPair(p, q)), Concat(Product(p), Product(q)))
  {
    CatShape(p, q);
    CatSlabsAgree(p, q);
    IsConcat(Product(CatPair(p, q)), Product(p), Product(q), p.b.shape[0]);
  }

  /** `p` differs from `first` in the first axis only. */
  ghost predicate Beside(first: Pair, p: Pair) {
    && Valid(p)
    && Fits(first.a.shape, p.a.shape) && Fits(first.b.shape, p.b.shape)
  }

  /** What `torch.cat` accepts: stacks of matrices, at least one, that differ in the first axis only. */
  ghost predicate Catable(ps: seq<Pair>) {
    ps != [] && |ps[0].b.shape| >= 3 && forall p :: p in ps ==> Beside(ps[0], p)
  }

  ghost predicate HaveShapes(ps: seq<Pair>) {
    forall p :: p in ps ==> p.a.shape != [] && p.b.shape != []
  }

  /** The factors concatenated from left to right. */
  function CatAll(ps: seq<Pair>): (r: Pair)
    requires ps != [] && HaveShapes(ps)
    ensures r.a.shape != [] && r.b.shape != []
  {
    var n := |ps| - 1;
    if n == 0 then ps[0] else assert HaveShapes(ps[..n]); CatPair(CatAll(ps[..n]), ps[n])
  }

  lemma CatableInit(ps: seq<Pair>)
    requires Catable(ps) && |ps| > 1
    ensures Catable(ps[..|ps| - 1]) && HaveShapes(ps) && HaveShapes(ps[..|ps| - 1])
    ensures ps[..|ps| - 1][0] == ps[0] && Beside(ps[0], ps[|ps| - 1])
  {
    assert forall p :: p in ps[..|ps| - 1] ==> p in ps;
  }

  ghost predicate NoneShared(ps: seq<Pair>) {
    forall p :: p in ps ==> Unshared(p)
  }

  lemma NoneSharedInit(ps: seq<Pair>)
    requires ps != []
    ensures NoneShared(ps) <==> NoneShared(ps[..|ps| - 1]) && Unshared(ps[|ps| - 1])
  {
    var n := |ps| - 1;
    assert ps == ps[..n] + [ps[n]];
  }

  lemma JoinedSizes(first: Pair, c: Pair, p: Pair)
    requires Fits(first.a.shape, c.a.shape) && Fits(first.b.shape, c.b.shape)
    requires Beside(first, p)
    ensures Fits(first.a.shape, CatPair(c, p).a.shape) && Fits(first.b.shape, CatPair(c, p).b.shape)
    ensures CatPair(c, p).a.shape[0] == c.a.shape[0] + p.a.shape[0]
    ensures CatPair(c, p).b.shape[0] == c.b.shape[0] + p.b.shape[0]
  {
  }

  /** How many slabs all the A have together. */
  function SlabsOfA(ps: seq<Pair>): nat {
    if ps == [] then 0
    else var a := ps[|ps| - 1].a; SlabsOfA(ps[..|ps| - 1]) + (if a.shape == [] then 0 else a.shape[0])
  }

  /** Sizes of the concatenation, shared A or not. */
  lemma {:induction false} CatShapes(ps: seq<Pair>)
    requires Catable(ps)
    ensures HaveShapes(ps)
    ensures Fits(ps[0].a.shape, CatAll(ps).a.shape) && Fits(ps[0].b.shape, CatAll(ps).b.shape)
    ensures SlabsOfA(ps) == CatAll(ps).a.shape[0]
    ensures NoneShared(ps) ==> Unshared(CatAll(ps))
  {
    var n := |ps| - 1;
    if n > 0 {
      CatableInit(ps);
      CatShapes(ps[..n]);
      JoinedSizes(ps[0], CatAll(ps[..n]), ps[n]);
      NoneSharedInit(ps);
    } else {
      assert ps[0] in ps && ps[..0] == [];
    }
  }

  /** A stack with a slab of A and none of B. */
  predicate Idle(p: Pair) { p.a.shape != [] && p.b.shape != [] && p.a.shape[0] > 0 && p.b.shape[0] == 0 }

  ghost predicate NoneIdle(ps: seq<Pair>) { forall p :: p in ps ==> !Idle(p) }

  /** Without such stacks A has no more slabs than B, and fewer when one is shared. */
  lemma {:induction false} NoMoreThanB(ps: seq<Pair>)
    requires Catable(ps) && NoneIdle(ps) && HaveShapes(ps)
    ensures CatAll(ps).a.shape[0] <= CatAll(ps).b.shape[0]
    ensures Unshared(CatAll(ps)) ==> NoneShared(ps)
  {
    var n := |ps| - 1;
    assert ps[n] in ps;
    NoMoreSlabs(ps[0], ps[n]);
    if n > 0 {
      CatableInit(ps);
      assert forall p :: p in ps[..n] ==> p in ps;
      NoMoreThanB(ps[..n]);
      CatShapes(ps[..n]);
      JoinedSizes(ps[0], CatAll(ps[..n]), ps[n]);
      NoneSharedInit(ps);
    } else {
      assert ps == [ps[0]];
    }
  }

  lemma NoMoreSlabs(first: Pair, p: Pair)
    requires Beside(first, p) && |p.b.shape| >= 3 && !Idle(p)
    ensures p.a.shape[0] <= p.b.shape[0]
  {
  }

  /** Nothing is shared, or there is one slab of A in all. */
  ghost predicate Cats(ps: seq<Pair>) { NoneShared(ps) || SlabsOfA(ps) == 1 }

  /** Neither pair shares its A, or one has no slab of A. */
  ghost predicate NothingShared(p: Pair, q: Pair) {
    && p.a.shape != [] && q.a.shape != []
    && ((Unshared(p) && Unshared(q)) || p.a.shape[0] == 0 || q.a.shape[0] == 0)
  }

  /** The last of the list can be joined to the concatenation of the others. */
  lemma CatsInit(ps: seq<Pair>)
    requires Catable(ps) && |ps| > 1 && Cats(ps)
    ensures var init := ps[..|ps| - 1];
            && Catable(init) && HaveShapes(init) && Cats(init)
            && NothingShared(CatAll(init), ps[|ps| - 1])
  {
    var n := |ps| - 1;
    CatableInit(ps);
    CatShapes(ps[..n]);
    NoneSharedInit(ps);
    if SlabsOfA(ps[..n]) == 0 {
      ZeroSlabs(ps[..n]);
    }
  }

  lemma {:induction false} ZeroSlabs(ps: seq<Pair>)
    requires Catable(ps) && SlabsOfA(ps) == 0
    ensures NoneShared(ps)
  {
    var n := |ps| - 1;
    assert ps[n] in ps;
    NoSlabs(ps[n]);
    NoneSharedInit(ps);
    if n > 0 {
      CatableInit(ps);
      ZeroSlabs(ps[..n]);
    }
  }

  lemma ConcatSame(s: Tensor, t: Tensor, u: Tensor)
    requires s.shape != [] && Fits(s.shape, u.shape) && Same(s, t)
    ensures Same(Concat(s, u), Concat(t, u))
  {
    forall idx: Index ensures SameAt(Concat(s, u), Concat(t, u), idx) {
      assert SameAt(s, t, idx);
      if InBounds(Concat(s, u).shape, idx) && idx[0] < s.shape[0] {
        assert forall i :: 1 <= i < |idx| ==> s.shape[i] == Concat(s, u).shape[i];
      }
    }
  }

  lemma SameTrans(s: Tensor, t: Tensor, u: Tensor)
    requires Same(s, t) && Same(t, u)
    ensures Same(s, u)
  {
    forall idx: Index ensures SameAt(s, u, idx) {
      assert SameAt(s, t, idx) && SameAt(t, u, idx);
    }
  }

  lemma DenseFits(p: Pair, q: Pair)
    requires Joinable(p, q)
    ensures Fits(Shape(p), Shape(q))
  {
    var a, b, c, d := p.a.shape, p.b.shape, q.a.shape, q.b.shape;
    var n := |b|;
    assert a[1..][n - 2] == c[1..][n - 2];
    assert Shape(p)[1..] == b[1..][..n - 2] + [a[n - 1]];
    assert Shape(q)[1..] == d[1..][..n - 2] + [c[n - 1]];
  }

  lemma CatStep(p: Pair, q: Pair, t: Tensor)
    requires Joinable(p, q) && Mixes(p, q) && Same(Product(p), t) && t.shape != []
    ensures Valid(CatPair(p, q)) && Same(Product(CatPair(p, q)), Concat(t, Product(q)))
  {
    CatCommutes(p, q);
    DenseFits(p, q);
    ConcatSame(Product(p), t, Product(q));
    SameTrans(Product(CatPair(p, q)), Concat(Product(p), Product(q)), Concat(t, Product(q)));
  }

  ghost predicate AllValid(ps: seq<Pair>) {
    forall i :: 0 <= i < |ps| ==> Valid(ps[i])
  }

  /** The products concatenated from left to right. */
  ghost function CatProducts(ps: seq<Pair>): (r: Tensor)
    requires ps != [] && AllValid(ps)
    ensures r.shape != []
  {
    var n := |ps| - 1;
    if n == 0 then Product(ps[0]) else Concat(CatProducts(ps[..n]), Product(ps[n]))
  }

  lemma CatableShapes(ps: seq<Pair>)
    requires Catable(ps)
    ensures HaveShapes(ps) && AllValid(ps)
  {
    forall i | 0 <= i < |ps| ensures Valid(ps[i]) {
      assert ps[i] in ps;
    }
  }

  lemma {:induction false} CatsCommute(ps: seq<Pair>)
    requires Catable(ps) && Cats(ps)
    ensures HaveShapes(ps) && AllValid(ps)
    ensures Valid(CatAll(ps)) && Same(Product(CatAll(ps)), CatProducts(ps))
  {
    CatableShapes(ps);
    var n := |ps| - 1;
    if n > 0 {
      CatableInit(ps);
      CatsInit(ps);
      CatShapes(ps[..n]);
      CatsCommute(ps[..n]);
      CatStep(CatAll(ps[..n]), ps[n], CatProducts(ps[..n]));
    } else {
      SameSelf(Product(ps[0]));
    }
  }

  lemma SameSelf(t: Tensor)
    ensures Same(t, t)
  {
  }

  /** Shared slabs of A leave the concatenated factors with sizes that do not fit each other. */
  lemma ValidMeansCats(ps: seq<Pair>)
    requires Catable(ps) && NoneIdle(ps) && HaveShapes(ps) && Valid(CatAll(ps))
    ensures Cats(ps)
  {
    CatShapes(ps);
    NoMoreThanB(ps);
    assert |CatAll(ps).b.shape| == |ps[0].b.shape|;
  }

  /** The concatenated factors stand for the concatenated products. */
  ghost predicate CatIsRight(ps: seq<Pair>)
    requires ps != [] && HaveShapes(ps) && AllValid(ps)
  {
    Valid(CatAll(ps)) && Same(Product(CatAll(ps)), CatProducts(ps))
  }

  /**
    Concatenating stacks of matrices factor by factor concatenates the products when no A is shared by
    several slabs, or there is one slab of A in all; and only then, unless some stack has a slab of A and none
    of B.
    */
  lemma CatExactly(ps: seq<Pair>)
    requires Catable(ps)
    ensures HaveShapes(ps) && AllValid(ps)
    ensures Cats(ps) ==> CatIsRight(ps)
    ensures NoneIdle(ps) ==> (CatIsRight(ps) <==> Cats(ps))
  {
    CatableShapes(ps);
    if Cats(ps) {
      CatsCommute(ps);
    } else if NoneIdle(ps) && Valid(CatAll(ps)) {
      ValidMeansCats(ps);
    }
  }

  /** An entry of a product of rank one. */
  lemma RankOne(p: Pair, l: Index, i: nat, j: nat, idx: Index)
    requires Valid(p) && Rank(p) == 1 && |l| + 2 == |p.b.shape| && idx == l + [i, j]
    ensures Product(p).at(idx) == p.b.at(l + [i, 0]) * p.a.at(Broadcast(p.a.shape[..|l|], l) + [0, j])
  {
    TermAt(p, l, i, j, 0);
    assert Sum(1, Term(p, idx)) == Sum(0, Term(p, idx)) + Term(p, idx)(0);
  }

  function Constant(shape: seq<nat>, x: int): Tensor { Tensor(shape, _ => x) }

  /** A shared by two slabs of B, and a slab of A that none uses. */
  function Shared(): Pair { Pair(Constant([1, 1, 1], 1), Constant([2, 1, 1], 1)) }
  function Unused(): Pair { Pair(Constant([1, 1, 1], 2), Constant([0, 1, 1], 1)) }

  lemma IdleSizes()
    ensures var c := CatPair(Shared(), Unused());
            && Joinable(Shared(), Unused()) && c.a.shape == [2, 1, 1] == c.b.shape && Valid(c)
  {
    assert JoinedShape([1, 1, 1], [1, 1, 1]) == [2, 1, 1] && JoinedShape([2, 1, 1], [0, 1, 1]) == [2, 1, 1];
    assert [1, 1, 1][1..] == [2, 1, 1][1..] == [0, 1, 1][1..] == [1, 1];
  }

  lemma IdleShape()
    ensures Valid(CatPair(Shared(), Unused())) && Shape(CatPair(Shared(), Unused())) == [2, 1, 1]
  {
    IdleSizes();
    assert DenseShape([2, 1, 1], [2, 1, 1]) == [2, 1, 1];
  }

  lemma IdleEntry(c: Pair)
    requires c == CatPair(Shared(), Unused())
    ensures Valid(c) && Product(c).at([1, 0, 0]) == 2
  {
    IdleSizes();
    assert [1] + [0, 0] == [1, 0, 0];
    RankOne(c, [1], 0, 0, [1, 0, 0]);
    assert Broadcast([2, 1, 1][..1], [1]) == [1];
  }

  lemma SharedEntry(p: Pair)
    requires p == Shared()
    ensures Valid(p) && Product(p).at([1, 0, 0]) == 1
  {
    IdleSizes();
    assert [1] + [0, 0] == [1, 0, 0];
    RankOne(p, [1], 0, 0, [1, 0, 0]);
  }

  lemma DiffersAt(s: Tensor, t: Tensor, u: Tensor, idx: Index)
    requires t.shape != [] && u.shape != [] && InBounds(s.shape, idx) && idx != [] && idx[0] < t.shape[0]
    requires s.at(idx) != t.at(idx)
    ensures !Same(s, Concat(t, u))
  {
    assert !SameAt(s, Concat(t, u), idx);
  }

  /** The product of the joined factors has another entry at `idx`, in a slab of `p`. */
  ghost predicate WrongAt(p: Pair, q: Pair, idx: Index)
    requires Joinable(p, q) && Valid(CatPair(p, q)) && InBounds(Shape(CatPair(p, q)), idx)
  {
    idx[0] < p.b.shape[0] && Product(CatPair(p, q)).at(idx) != Product(p).at(idx)
  }

  lemma CatDiffers(p: Pair, q: Pair, idx: Index)
    requires Joinable(p, q) && Valid(CatPair(p, q)) && InBounds(Shape(CatPair(p, q)), idx) && WrongAt(p, q, idx)
    ensures !Same(Product(CatPair(p, q)), Concat(Product(p), Product(q)))
  {
    FirstOfProduct(p);
    FirstOfProduct(q);
    DiffersAt(Product(CatPair(p, q)), Product(p), Product(q), idx);
  }

  /** Two stacks, by their factors and products. */
  lemma TwoStacks(p: Pair, q: Pair)
    requires Joinable(p, q)
    ensures Catable([p, q]) && HaveShapes([p, q]) && AllValid([p, q])
    ensures CatAll([p, q]) == CatPair(p, q) && CatProducts([p, q]) == Concat(Product(p), Product(q))
  {
    var ps := [p, q];
    assert forall x :: x in ps ==> x == p || x == q;
    assert Beside(p, p) && Beside(p, q);
    assert ps[..1] == [p];
    assert CatAll([p]) == p && CatProducts([p]) == Product(p);
  }

  lemma IdleBreaks(p: Pair, q: Pair, idx: Index)
    requires Joinable(p, q) && Idle(q) && Valid(CatPair(p, q)) && InBounds(Shape(CatPair(p, q)), idx)
    requires WrongAt(p, q, idx)
    ensures var ps := [p, q];
            && Catable(ps) && HaveShapes(ps) && AllValid(ps) && !NoneIdle(ps)
            && Valid(CatAll(ps)) && !CatIsRight(ps)
  {
    TwoStacks(p, q);
    CatDiffers(p, q, idx);
    assert q in [p, q];
  }

  lemma SecondSlab(shape: seq<nat>, idx: Index)
    requires shape == [2, 1, 1] && idx == [1, 0, 0]
    ensures InBounds(shape, idx) && idx[0] == 1
  {
  }

  lemma IdleWrong(p: Pair, q: Pair, idx: Index)
    requires Joinable(p, q) && Valid(CatPair(p, q)) && InBounds(Shape(CatPair(p, q)), idx)
    requires idx[0] == 1 && p.b.shape[0] == 2 && Product(CatPair(p, q)).at(idx) == 2 && Product(p).at(idx) == 1
    ensures WrongAt(p, q, idx)
  {
  }

  /** One A for two slabs of B, and a slab of another A that no slab of B uses. */
  lemma IdleStacks() returns (p: Pair, q: Pair, idx: Index)
    ensures Joinable(p, q) && Idle(q) && Valid(CatPair(p, q)) && InBounds(Shape(CatPair(p, q)), idx) && WrongAt(p, q, idx)
  {
    p, q, idx := Shared(), Unused(), [1, 0, 0];
    IdleSizes();
    var c := CatPair(p, q);
    IdleShape();
    IdleEntry(c);
    SharedEntry(p);
    SecondSlab(Shape(c), idx);
    IdleWrong(p, q, idx);
  }

  /** With an idle slab the sizes may fit by accident, and then a slab of B meets the wrong A. */
  lemma IdleExample() returns (ps: seq<Pair>)
    ensures Catable(ps) && HaveShapes(ps) && AllValid(ps) && !NoneIdle(ps) && Valid(CatAll(ps)) && !CatIsRight(ps)
  {
    var p, q, idx := IdleStacks();
    IdleBreaks(p, q, idx);
    ps := [p, q];
  }

  /** Two stacks that each share one A between two matrices: two slabs of A for four of B. */
  lemma CatExample()
    ensures var p := Pair(Tensor([1, 1, 1], _ => 1), Tensor([2, 1, 1], _ => 1));
            Catable([p, p]) && NoneIdle([p, p]) && !Cats([p, p]) && HaveShapes([p, p]) && !Valid(CatAll([p, p]))
  {
    var p := Pair(Tensor([1, 1, 1], _ => 1), Tensor([2, 1, 1], _ => 1));
    var ps := [p, p];
    assert ps[..1] == [p] && [p][..0] == [];
    assert SlabsOfA([p]) == 1 && SlabsOfA(ps) == 2;
    assert p in ps && !Unshared(p);
    if HaveShapes(ps) && Valid(CatAll(ps)) {
      ValidMeansCats(ps);
    }
  }

  // ----- torch.cat of matrices that share A (lines 216-220) -----

  ghost predicate MatrixWith(first: Pair, p: Pair) {
    Valid(p) && |p.b.shape| == 2 && Same(first.a, p.a)
  }

  ghost predicate OneA(ps: seq<Pair>) {
    ps != [] && forall p :: p in ps ==> MatrixWith(ps[0], p)
  }

  function JoinRows(p: Pair, q: Pair): Pair
    requires p.b.shape != [] && q.b.shape != []
  {
    Pair(p.a, Concat(p.b, q.b))
  }

  ghost predicate Matrices(p: Pair, q: Pair) {
    Valid(p) && Valid(q) && |p.b.shape| == |q.b.shape| == 2 && Same(p.a, q.a)
  }

  lemma UpperRow(p: Pair, q: Pair, i: nat, j: nat)
    requires Matrices(p, q) && Valid(JoinRows(p, q)) && i < p.b.shape[0] && j < p.a.shape[1]
    ensures Product(JoinRows(p, q)).at([i, j]) == Product(p).at([i, j])
  {
    forall k: nat ensures RowAlike(JoinRows(p, q).b, i, p.b, i, k) {
    }
    SameSelf(p.a);
    SameMatrixRow(JoinRows(p, q), p, i, i, j);
  }

  lemma LowerRow(p: Pair, q: Pair, i: nat, g: nat, j: nat)
    requires Matrices(p, q) && Valid(JoinRows(p, q)) && i == p.b.shape[0] + g && j < p.a.shape[1]
    ensures Product(JoinRows(p, q)).at([i, j]) == Product(q).at([g, j])
  {
    forall k: nat ensures RowAlike(JoinRows(p, q).b, i, q.b, g, k) {
      UnshiftedCons(p.b.shape[0], i, g, [k]);
      assert [i] + [k] == [i, k] && [g] + [k] == [g, k];
    }
    SameMatrixRow(JoinRows(p, q), q, i, g, j);
  }

  lemma JoinedMatrixShape(p: Pair, q: Pair)
    requires Matrices(p, q)
    ensures Valid(JoinRows(p, q)) && Shape(JoinRows(p, q)) == [p.b.shape[0] + q.b.shape[0], p.a.shape[1]]
    ensures Concat(Product(p), Product(q)).shape == [p.b.shape[0] + q.b.shape[0], p.a.shape[1]]
  {
    MatrixShapes(JoinRows(p, q));
    MatrixShapes(p);
    MatrixShapes(q);
  }

  lemma JoinUpper(p: Pair, q: Pair, h: nat, rest: Index)
    requires Matrices(p, q) && Valid(JoinRows(p, q))
    ensures UpperAgrees(Product(JoinRows(p, q)), Product(p), h, rest)
  {
    MatrixShapes(p);
    if InBounds(Shape(JoinRows(p, q)), [h] + rest) && h < p.b.shape[0] {
      assert [h] + rest == [h, rest[0]];
      JoinedMatrixShape(p, q);
      UpperRow(p, q, h, rest[0]);
    }
  }

  lemma JoinLower(p: Pair, q: Pair, h: nat, g: nat, rest: Index)
    requires Matrices(p, q) && Valid(JoinRows(p, q))
    ensures LowerAgrees(Product(JoinRows(p, q)), p.b.shape[0], Product(q), h, g, rest)
  {
    if InBounds(Shape(JoinRows(p, q)), [h] + rest) && h == p.b.shape[0] + g {
      assert [h] + rest == [h, rest[0]] && [g] + rest == [g, rest[0]];
      JoinedMatrixShape(p, q);
      LowerRow(p, q, h, g, rest[0]);
    }
  }

  lemma JoinedRows(p: Pair, q: Pair)
    requires Matrices(p, q)
    ensures Valid(JoinRows(p, q)) && Same(Product(JoinRows(p, q)), Concat(Product(p), Product(q)))
  {
    JoinedMatrixShape(p, q);
    MatrixShapes(p);
    forall h, rest ensures UpperAgrees(Product(JoinRows(p, q)), Product(p), h, rest) {
      JoinUpper(p, q, h, rest);
    }
    forall h, g, rest ensures LowerAgrees(Product(JoinRows(p, q)), p.b.shape[0], Product(q), h, g, rest) {
      JoinLower(p, q, h, g, rest);
    }
    IsConcat(Product(JoinRows(p, q)), Product(p), Product(q), p.b.shape[0]);
  }

  lemma RowsStep(p: Pair, q: Pair, t: Tensor)
    requires Matrices(p, q) && Same(Product(p), t)
    ensures Valid(JoinRows(p, q)) && Same(Product(JoinRows(p, q)), Concat(t, Product(q)))
  {
    JoinedRows(p, q);
    MatrixShapes(p);
    MatrixShapes(q);
    ConcatSame(Product(p), t, Product(q));
    SameTrans(Product(JoinRows(p, q)), Concat(Product(p), Product(q)), Concat(t, Product(q)));
  }

  /** The first A with all the B concatenated. */
  function CatRows(ps: seq<Pair>): (r: Pair)
    requires ps != [] && HaveShapes(ps)
    ensures r.b.shape != []
  {
    var n := |ps| - 1;
    if n == 0 then ps[0] else assert HaveShapes(ps[..n]); JoinRows(CatRows(ps[..n]), ps[n])
  }

  lemma OneAInit(ps: seq<Pair>)
    requires OneA(ps) && |ps| > 1
    ensures OneA(ps[..|ps| - 1]) && ps[..|ps| - 1][0] == ps[0] && MatrixWith(ps[0], ps[|ps| - 1])
  {
    assert forall p :: p in ps[..|ps| - 1] ==> p in ps;
  }

  lemma OneAShapes(ps: seq<Pair>)
    requires OneA(ps)
    ensures HaveShapes(ps) && AllValid(ps)
  {
  }

  /** Matrices with one A are concatenated by their B. */
  lemma {:induction false} CatRowsCommutes(ps: seq<Pair>)
    requires OneA(ps)
    ensures HaveShapes(ps) && AllValid(ps)
    ensures Valid(CatRows(ps)) && |CatRows(ps).b.shape| == 2 && CatRows(ps).a == ps[0].a
    ensures Same(Product(CatRows(ps)), CatProducts(ps))
  {
    OneAShapes(ps);
    var n := |ps| - 1;
    if n > 0 {
      OneAInit(ps);
      CatRowsCommutes(ps[..n]);
      RowsStep(CatRows(ps[..n]), ps[n], CatProducts(ps[..n]));
    } else {
      SameSelf(Product(ps[0]));
    }
  }
}
