/**
  convert_lora_to_gguf.py:59-115: what the indices of Python mean for an axis, and indexing a pair with a
  tuple of them.
  */
module LoraIndex {
  import opened Basics
  import opened Lora
  import opened LoraOps

  /** A number, `start:stop:step`, or the ellipsis. */
  datatype Component = Number(j: int) | Range(start: Option<int>, stop: Option<int>, step: int) | Dots

  const FULL := Range(None, None, 1)

  /** A bound of a slice, counted from the end when negative, and cut off at the ends of the axis. */
  function Bound(x: int, size: nat): (r: nat)
    ensures r <= size
  {
    var y := if x < 0 then x + size else x;
    if y < 0 then 0 else if y > size then size else y
  }

  function Steps(lo: nat, hi: nat, step: nat): seq<nat>
    requires step > 0
    decreases hi - lo
  {
    if lo < hi then [lo] + Steps(lo + step, hi, step) else []
  }

  /** The positions a slice selects from an axis. */
  function Selected(c: Component, size: nat): seq<nat>
    requires c.Range? && c.step > 0
  {
    Steps(if c.start.None? then 0 else Bound(c.start.value, size),
          if c.stop.None? then size else Bound(c.stop.value, size), c.step)
  }

  lemma {:induction false} StepsAscend(lo: nat, hi: nat, step: nat)
    requires step > 0
    ensures Ascending(Steps(lo, hi, step), hi) && forall i :: 0 <= i < |Steps(lo, hi, step)| ==> lo <= Steps(lo, hi, step)[i]
    decreases hi - lo
  {
    if lo < hi {
      StepsAscend(lo + step, hi, step);
    }
  }

  lemma AscendingWidens(sel: seq<nat>, hi: nat, size: nat)
    requires Ascending(sel, hi) && hi <= size
    ensures Ascending(sel, size)
  {
  }

  lemma SelectedAscends(c: Component, size: nat)
    requires c.Range? && c.step > 0
    ensures Ascending(Selected(c, size), size)
  {
    var lo := if c.start.None? then 0 else Bound(c.start.value, size);
    var hi := if c.stop.None? then size else Bound(c.stop.value, size);
    StepsAscend(lo, hi, c.step);
    AscendingWidens(Selected(c, size), hi, size);
  }

  lemma {:induction false} StepsByOne(lo: nat, hi: nat)
    requires lo <= hi
    ensures |Steps(lo, hi, 1)| == hi - lo && forall i :: 0 <= i < hi - lo ==> Steps(lo, hi, 1)[i] == lo + i
    decreases hi - lo
  {
    if lo < hi {
      StepsByOne(lo + 1, hi);
    }
  }

  lemma FullSelectsAll(size: nat)
    ensures Slice(Selected(FULL, size)) == All(size)
  {
    StepsByOne(0, size);
    assert Selected(FULL, size) == seq(size, i => i);
  }

  // ----- which positions a slice selects -----

  /** The position is at or behind a bound, both counted from the same end. */
  predicate NotBefore(i: nat, x: int, size: nat) { if x < 0 then i - size >= x else i >= x }

  /** The first position of an axis that is not before a bound, if the axis is long enough. */
  function First(start: Option<int>, size: nat): nat {
    if start.None? then 0 else if start.value >= 0 then start.value else if size + start.value < 0 then 0 else size + start.value
  }

  /** A multiple of the step behind `lo`. */
  predicate OnGrid(lo: nat, step: nat, i: nat)
    requires step > 0
  {
    lo <= i && (i - lo) % step == 0
  }

  lemma StepBack(x: nat, step: nat)
    requires step > 0
    ensures x >= step ==> x % step == (x - step) % step
    ensures x < step ==> x % step == x
  {
    if x >= step {
      var q, r := (x - step) / step, (x - step) % step;
      assert x == (q + 1) * step + r;
      DivideRow(q + 1, step, r);
    } else {
      DivideRow(0, step, x);
    }
  }

  lemma GridStep(lo: nat, step: nat, i: nat)
    requires step > 0
    ensures OnGrid(lo, step, i) <==> i == lo || OnGrid(lo + step, step, i)
  {
    if i >= lo {
      StepBack(i - lo, step);
    }
  }

  lemma {:induction false} StepsAre(lo: nat, hi: nat, step: nat, i: nat)
    requires step > 0
    ensures i in Steps(lo, hi, step) <==> i < hi && OnGrid(lo, step, i)
    decreases hi - lo
  {
    if lo < hi {
      StepsAre(lo + step, hi, step, i);
      GridStep(lo, step, i);
    }
  }

  /**
    A slice selects, in ascending order, the positions of the axis that are not before its start, are before its stop
    and lie a multiple of the step behind the first of them.
    */
  lemma SelectedExactly(c: Component, size: nat, i: nat)
    requires c.Range? && c.step > 0
    ensures i in Selected(c, size) <==>
              && i < size && (c.start.Some? ==> NotBefore(i, c.start.value, size))
              && (c.stop.Some? ==> !NotBefore(i, c.stop.value, size))
              && (i - First(c.start, size)) % c.step == 0
    ensures Ascending(Selected(c, size), size)
  {
    SelectedAscends(c, size);
    StepsAre(if c.start.None? then 0 else Bound(c.start.value, size),
             if c.stop.None? then size else Bound(c.stop.value, size), c.step, i);
  }

  // ----- one component -----

  /** The component can be applied to an axis of this size; torch refuses it otherwise. */
  predicate Usable(c: Component, size: nat) {
    match c
    case Number(j) => 0 <= j + size < 2 * size
    case Range(_, _, step) => step > 0
    case Dots => false
  }

  function PickOf(c: Component, size: nat): Pick
    requires Usable(c, size)
  {
    if c.Number? then At(Normal(c.j, size)) else Slice(Selected(c, size))
  }

  /** A number picks the position that far from the start or, when negative, from the end. */
  lemma NumberPicks(j: int, size: nat)
    requires Usable(Number(j), size)
    ensures PickOf(Number(j), size).At? && PickOf(Number(j), size).j < size
    ensures PickOf(Number(j), size).j == j || PickOf(Number(j), size).j - size == j
  {
  }

  predicate AllUsable(cs: seq<Component>, shape: seq<nat>) {
    |cs| == |shape| && forall i :: 0 <= i < |cs| ==> Usable(cs[i], shape[i])
  }

  function Picks(cs: seq<Component>, shape: seq<nat>): (r: seq<Pick>)
    requires AllUsable(cs, shape)
    ensures |r| == |cs| && forall i :: 0 <= i < |r| ==> r[i] == PickOf(cs[i], shape[i])
  {
    seq(|cs|, i requires 0 <= i < |cs| => PickOf(cs[i], shape[i]))
  }

  // ----- one component for each axis (lines 99-113) -----

  /** The constructor and its assertions (lines 46-48). */
  function Construct(a: Tensor, b: Tensor): Outcome {
    var n := |b.shape|;
    if |a.shape| == n >= 2 && a.shape[n - 2] == b.shape[n - 1] then Done(Pair(a, b)) else Raised
  }

  function AllOf(shape: seq<nat>): (r: seq<Pick>)
    ensures |r| == |shape| && forall i :: 0 <= i < |r| ==> r[i] == All(shape[i])
  {
    seq(|shape|, i requires 0 <= i < |shape| => All(shape[i]))
  }

  /** What torch makes of a tensor and a tuple; it refuses too many components and those that do not fit their axis. */
  function Item(t: Tensor, cs: seq<Component>): Option<Tensor> {
    var n := |cs|;
    if n <= |t.shape| && AllUsable(cs, t.shape[..n]) then Some(Picked(t, Picks(cs, t.shape[..n]) + AllOf(t.shape[n..])))
    else None
  }

  /** Python can take every number modulo the size A has there. */
  predicate Reducible(sizes: seq<nat>, cs: seq<Component>) {
    forall i :: 0 <= i < |cs| && cs[i].Number? ==> i < |sizes| && sizes[i] > 0
  }

  /** The leading part of `indices_A`: numbers modulo the size of A, and full slices. */
  function Reduced(sizes: seq<nat>, cs: seq<Component>): (r: seq<Component>)
    requires Reducible(sizes, cs)
    ensures |r| == |cs| && forall i :: 0 <= i < |r| ==> r[i] == if cs[i].Number? then Number(cs[i].j % sizes[i]) else FULL
  {
    seq(|cs|, i requires 0 <= i < |cs| => if cs[i].Number? then Number(cs[i].j % sizes[i]) else FULL)
  }

  /** `indices_A`. */
  function ForA(sizes: seq<nat>, cs: seq<Component>): (r: seq<Component>)
    requires |cs| >= 2 && Reducible(sizes, cs[..|cs| - 2])
    ensures |r| == |cs|
  {
    Reduced(sizes, cs[..|cs| - 2]) + [FULL, cs[|cs| - 1]]
  }

  /** Neither Python nor torch refuses what is asked of the two factors. */
  predicate FactorsAccept(p: Pair, cs: seq<Component>)
    requires |cs| >= 2
  {
    Reducible(p.a.shape, cs[..|cs| - 2]) && Item(p.a, ForA(p.a.shape, cs)).Some? && Item(p.b, cs[..|cs| - 1]).Some?
  }

  function IndexWith(p: Pair, cs: seq<Component>): Outcome
    requires |cs| >= 2
  {
    if FactorsAccept(p, cs) then Construct(Item(p.a, ForA(p.a.shape, cs)).value, Item(p.b, cs[..|cs| - 1]).value)
    else Raised
  }

  lemma InitUsable(cs: seq<Component>, shape: seq<nat>, n: nat)
    requires |cs| == |shape| && n <= |cs|
    ensures AllUsable(cs, shape) <==>
              AllUsable(cs[..n], shape[..n]) && forall i :: n <= i < |cs| ==> Usable(cs[i], shape[i])
  {
    if AllUsable(cs[..n], shape[..n]) && forall i :: n <= i < |cs| ==> Usable(cs[i], shape[i]) {
      forall i | 0 <= i < |cs| ensures Usable(cs[i], shape[i]) {
        if i < n {
          assert cs[..n][i] == cs[i] && shape[..n][i] == shape[i];
        }
      }
    }
  }

  /** What A is asked for fits A exactly when the last component fits its last axis. */
  lemma ForAUsable(sizes: seq<nat>, cs: seq<Component>)
    requires |cs| == |sizes| >= 2 && Reducible(sizes, cs[..|cs| - 2])
    ensures AllUsable(ForA(sizes, cs), sizes) <==> Usable(cs[|cs| - 1], sizes[|cs| - 1])
  {
    var n, r := |cs|, ForA(sizes, cs);
    assert r[n - 2] == FULL && r[n - 1] == cs[n - 1];
    forall i | 0 <= i < n - 2 ensures Usable(r[i], sizes[i]) {
      assert r[i] == Reduced(sizes, cs[..n - 2])[i];
    }
  }

  /** The sizes of A are large enough for every number that fits the product. */
  lemma UsableIsReducible(p: Pair, cs: seq<Component>)
    requires Valid(p) && |cs| == |p.b.shape| && AllUsable(cs[..|cs| - 1], p.b.shape[..|cs| - 1])
    ensures Reducible(p.a.shape, cs[..|cs| - 2])
  {
    var n := |cs|;
    forall i | 0 <= i < n - 2 && cs[..n - 2][i].Number? ensures p.a.shape[i] > 0 {
      assert cs[..n - 1][i] == cs[i] && p.b.shape[..n - 1][i] == p.b.shape[i];
    }
  }

  /** One of the factors refuses its part exactly when some component does not fit the product. */
  lemma RefusedExactly(p: Pair, cs: seq<Component>)
    requires Valid(p) && |cs| == |p.b.shape|
    ensures FactorsAccept(p, cs) <==> AllUsable(cs, Shape(p))
  {
    var n := |cs|;
    InitUsable(cs, Shape(p), n - 1);
    assert Shape(p)[..n - 1] == p.b.shape[..n - 1];
    assert p.a.shape[..n] == p.a.shape;
    if AllUsable(cs[..n - 1], p.b.shape[..n - 1]) {
      UsableIsReducible(p, cs);
      ForAUsable(p.a.shape, cs);
    }
  }

  /** More components than axes are refused by A. */
  lemma TooLongIsRefused(p: Pair, cs: seq<Component>)
    requires Valid(p) && |cs| > |p.b.shape|
    ensures IndexWith(p, cs).Raised?
  {
  }

  lemma WrapNormal(j: int, size: nat, other: nat)
    requires 0 <= j + other < 2 * other && (size == 1 || size == other)
    ensures Wrapped(j, size) == Wrapped(Normal(j, other), size)
  {
    if j < 0 && size == other {
      WrapNegative(j, size);
    }
  }

  lemma WrapNegative(j: int, size: nat)
    requires 0 <= j + size < size
    ensures j % size == j + size && (j + size) % size == j + size
  {
    var a, b := j / size, j % size;
    assert j == a * size + b && 0 <= b < size;
    if a < -1 { MultipleBelow(a, -1, size); }
    if -1 < a { MultipleBelow(-1, a, size); }
  }

  lemma {:induction false} LeadForAAt(sizes: seq<nat>, lead: seq<Pick>, i: nat)
    requires |sizes| == |lead| && i < |lead|
    ensures LeadForA(sizes, lead)[i] == if lead[i].At? then At(Wrapped(lead[i].j, sizes[i])) else All(sizes[i])
  {
    var n := |lead| - 1;
    LeadForASnoc(sizes, lead);
    if i < n {
      LeadForAAt(sizes[..n], lead[..n], i);
    }
  }

  /** One leading component: what `A` is asked for is where the pick lands in `A`. */
  lemma LeadMatches(c: Component, size: nat, other: nat, d: Component)
    requires Usable(c, other) && (size == 1 || size == other) && (c.Number? ==> size > 0)
    requires d == if c.Number? then Number(c.j % size) else FULL
    ensures Usable(d, size)
    ensures PickOf(d, size) == var k := PickOf(c, other); if k.At? then At(Wrapped(k.j, size)) else All(size)
  {
    FullSelectsAll(size);
    if c.Number? {
      WrapNormal(c.j, size, other);
    }
  }

  /** What A is asked for picks what the model of indexing says, also for negative numbers. */
  lemma LeadsMatch(sizes: seq<nat>, other: seq<nat>, cs: seq<Component>)
    requires |sizes| == |cs| && AllUsable(cs, other) && Reducible(sizes, cs)
    requires forall i :: 0 <= i < |sizes| ==> sizes[i] == 1 || sizes[i] == other[i]
    ensures AllUsable(Reduced(sizes, cs), sizes)
    ensures Picks(Reduced(sizes, cs), sizes) == LeadForA(sizes, Picks(cs, other))
  {
    var lead, reduced := Picks(cs, other), Reduced(sizes, cs);
    forall i | 0 <= i < |cs|
      ensures Usable(reduced[i], sizes[i]) && PickOf(reduced[i], sizes[i]) == LeadForA(sizes, lead)[i]
    {
      LeadForAAt(sizes, lead, i);
      LeadMatches(cs[i], sizes[i], other[i], reduced[i]);
    }
  }

  lemma PicksInit(cs: seq<Component>, shape: seq<nat>, n: nat)
    requires AllUsable(cs, shape) && n <= |cs|
    ensures AllUsable(cs[..n], shape[..n]) && Picks(cs[..n], shape[..n]) == Picks(cs, shape)[..n]
  {
  }

  lemma WholeItem(t: Tensor, cs: seq<Component>)
    requires AllUsable(cs, t.shape)
    ensures Item(t, cs) == Some(Picked(t, Picks(cs, t.shape) + AllOf([])))
  {
    assert t.shape[..|cs|] == t.shape && t.shape[|cs|..] == [];
  }

  lemma LeadOfA(p: Pair, cs: seq<Component>)
    requires Valid(p) && AllUsable(cs, Shape(p)) && Reducible(p.a.shape, cs[..|cs| - 2])
    ensures var n := |cs|;
            && AllUsable(Reduced(p.a.shape, cs[..n - 2]), p.a.shape[..n - 2])
            && Picks(Reduced(p.a.shape, cs[..n - 2]), p.a.shape[..n - 2]) ==
                 LeadForA(p.a.shape[..n - 2], Picks(cs, Shape(p))[..n - 2])
  {
    var n, sizes := |cs|, p.a.shape;
    PicksInit(cs, Shape(p), n - 2);
    assert Shape(p)[..n - 2] == p.b.shape[..n - 2];
    assert Reduced(sizes, cs[..n - 2]) == Reduced(sizes[..n - 2], cs[..n - 2]);
    LeadsMatch(sizes[..n - 2], p.b.shape[..n - 2], cs[..n - 2]);
  }

  lemma ItemOfA(p: Pair, cs: seq<Component>)
    requires Valid(p) && AllUsable(cs, Shape(p)) && FactorsAccept(p, cs)
    ensures Item(p.a, ForA(p.a.shape, cs)).value == PickedPair(p, Picks(cs, Shape(p))).a
  {
    var n := |cs|;
    ForAUsable(p.a.shape, cs);
    WholeItem(p.a, ForA(p.a.shape, cs));
    LeadOfA(p, cs);
    PicksOfA(p.a.shape, cs, Picks(cs, Shape(p))[n - 1]);
  }

  /** The picks of `indices_A` by its parts. */
  lemma PicksOfA(sizes: seq<nat>, cs: seq<Component>, last: Pick)
    requires |cs| == |sizes| >= 2 && Reducible(sizes, cs[..|cs| - 2]) && AllUsable(ForA(sizes, cs), sizes)
    requires AllUsable(Reduced(sizes, cs[..|cs| - 2]), sizes[..|cs| - 2]) && last == PickOf(cs[|cs| - 1], sizes[|cs| - 1])
    ensures var n := |cs|;
            Picks(ForA(sizes, cs), sizes) + AllOf([]) ==
              Picks(Reduced(sizes, cs[..n - 2]), sizes[..n - 2]) + [All(sizes[n - 2]), last]
  {
    FullSelectsAll(sizes[|cs| - 2]);
  }

  lemma ItemOfB(p: Pair, cs: seq<Component>)
    requires Valid(p) && AllUsable(cs, Shape(p)) && FactorsAccept(p, cs)
    ensures Item(p.b, cs[..|cs| - 1]).value == PickedPair(p, Picks(cs, Shape(p))).b
  {
    var n := |cs|;
    PicksInit(cs, Shape(p), n - 1);
    assert Shape(p)[..n - 1] == p.b.shape[..n - 1];
    assert AllOf(p.b.shape[n - 1..]) == [All(Rank(p))];
  }

  /** The factors of the result by the picks of the product. */
  lemma IndexIsPick(p: Pair, cs: seq<Component>)
    requires Valid(p) && AllUsable(cs, Shape(p))
    ensures var picks := Picks(cs, Shape(p));
            IndexWith(p, cs) == Construct(PickedPair(p, picks).a, PickedPair(p, picks).b)
  {
    RefusedExactly(p, cs);
    ItemOfA(p, cs);
    ItemOfB(p, cs);
  }

  // ----- how many axes are left -----

  function Kept(ix: seq<Pick>): nat {
    if ix == [] then 0 else Kept(ix[..|ix| - 1]) + (if ix[|ix| - 1].Slice? then 1 else 0)
  }

  lemma {:induction false} KeptIsRank(ix: seq<Pick>)
    ensures |PickedShape(ix)| == Kept(ix)
  {
    if ix != [] {
      KeptIsRank(ix[..|ix| - 1]);
    }
  }

  lemma KeptTwo(lead: seq<Pick>, x: Pick, y: Pick)
    ensures Kept(lead + [x, y]) == Kept(lead) + (if x.Slice? then 1 else 0) + (if y.Slice? then 1 else 0)
  {
    var one, two := lead + [x], lead + [x, y];
    assert two[..|two| - 1] == one && one[..|one| - 1] == lead;
  }

  lemma {:induction false} KeptLead(sizes: seq<nat>, lead: seq<Pick>)
    requires |sizes| == |lead|
    ensures Kept(LeadForA(sizes, lead)) == Kept(lead)
  {
    if lead != [] {
      var n := |lead| - 1;
      LeadForASnoc(sizes, lead);
      KeptLead(sizes[..n], lead[..n]);
    }
  }

  function One(x: Pick): nat { if x.Slice? then 1 else 0 }

  lemma RankOfTwo(lead: seq<Pick>, x: Pick, y: Pick, ix: seq<Pick>)
    requires ix == lead + [x, y]
    ensures |PickedShape(ix)| == Kept(lead) + One(x) + One(y)
  {
    KeptTwo(lead, x, y);
    KeptIsRank(ix);
  }

  lemma LastTwo(ix: seq<Pick>, r: Pick)
    requires |ix| >= 2
    ensures var n := |ix|; ix == ix[..n - 2] + [ix[n - 2], ix[n - 1]] && ix[..n - 1] + [r] == ix[..n - 2] + [ix[n - 2], r]
  {
  }

  /** The ranks of the two factors and of the result that is meant. */
  lemma RanksLeft(p: Pair, ix: seq<Pick>)
    requires Valid(p) && |ix| == |p.b.shape|
    ensures var n := |ix|;
            var k := Kept(ix[..n - 2]);
            && |PickedPair(p, ix).a.shape| == k + 1 + One(ix[n - 1])
            && |PickedPair(p, ix).b.shape| == k + One(ix[n - 2]) + 1
            && |PickedShape(ix)| == k + One(ix[n - 2]) + One(ix[n - 1])
  {
    var n := |ix|;
    var lead, r := ix[..n - 2], All(Rank(p));
    var leadA := LeadForA(p.a.shape[..n - 2], lead);
    LastTwo(ix, r);
    KeptLead(p.a.shape[..n - 2], lead);
    RankOfTwo(leadA, r, ix[n - 1], leadA + [r, ix[n - 1]]);
    RankOfTwo(lead, ix[n - 2], r, ix[..n - 1] + [r]);
    RankOfTwo(lead, ix[n - 2], ix[n - 1], ix);
  }

  lemma PicksAreTuple(p: Pair, cs: seq<Component>)
    requires Valid(p) && AllUsable(cs, Shape(p)) && cs[|cs| - 2].Range? && cs[|cs| - 1].Range?
    ensures Tuple(p, Picks(cs, Shape(p)))
  {
    var shape := Shape(p);
    var picks := Picks(cs, shape);
    forall i | 0 <= i < |picks| && picks[i].Slice? ensures Ascending(picks[i].sel, shape[i]) {
      SelectedAscends(cs[i], shape[i]);
    }
    assert PicksFrom(shape, picks);
  }

  /** The factors of a tuple that ends in two slices satisfy the assertions of the constructor. */
  lemma TupleConstructs(p: Pair, picks: seq<Pick>)
    requires Tuple(p, picks)
    ensures var q := PickedPair(p, picks); Construct(q.a, q.b) == Done(q)
  {
    PickedShapes(p, picks);
    RanksLeft(p, picks);
  }

  /** The pair that comes out, if any, stands for what the components pick from the product. */
  ghost predicate Right(r: Outcome, p: Pair, picks: seq<Pick>)
    requires Valid(p)
  {
    r.Done? && Valid(r.pair) && Same(Product(r.pair), Picked(Product(p), picks))
  }

  /**
    With one usable component for each axis the result is right exactly when the last two are slices, and
    every leading slice meets a shared A or selects everything.
    */
  lemma IndexExactly(p: Pair, cs: seq<Component>)
    requires Valid(p) && AllUsable(cs, Shape(p))
    ensures var n, picks := |cs|, Picks(cs, Shape(p));
            Right(IndexWith(p, cs), p, picks) <==>
              cs[n - 2].Range? && cs[n - 1].Range? && SlicesShared(p.a.shape[..n - 2], picks[..n - 2])
  {
    var n, picks := |cs|, Picks(cs, Shape(p));
    IndexIsPick(p, cs);
    if cs[n - 2].Range? && cs[n - 1].Range? {
      PicksAreTuple(p, cs);
      TupleConstructs(p, picks);
      PickExactly(p, picks);
    } else {
      RanksLeft(p, picks);
    }
  }

  /** A, with a slab for each of two matrices, and a leading slice that takes the first: A keeps both. */
  lemma LeadingSliceExample()
    ensures var t := Tensor([2, 1, 1], _ => 1);
            var p, cs := Pair(t, t), [Range(Some(0), Some(1), 1), FULL, FULL];
            Valid(p) && AllUsable(cs, Shape(p)) && !Right(IndexWith(p, cs), p, Picks(cs, Shape(p)))
  {
    var t := Tensor([2, 1, 1], _ => 1);
    var p, cs := Pair(t, t), [Range(Some(0), Some(1), 1), FULL, FULL];
    var picks := Picks(cs, Shape(p));
    assert Steps(1, 1, 1) == [] && picks[0] == Slice([0]);
    assert |All(2).sel| == 2 && picks[..1][0] != All(2);
    IndexExactly(p, cs);
  }

  // ----- the ellipsis and missing components (lines 79-97) -----

  function Repeat(n: nat): (r: seq<Component>)
    ensures |r| == n && forall i :: 0 <= i < n ==> r[i] == FULL
  {
    seq(n, _ => FULL)
  }

  /** Every ellipsis becomes as many full slices as there are other components. */
  function Expanded(cs: seq<Component>, others: nat): seq<Component> {
    if cs == [] then [] else (if cs[0].Dots? then Repeat(others) else [cs[0]]) + Expanded(cs[1..], others)
  }

  function Completed(cs: seq<Component>, rank: nat): seq<Component> {
    if |cs| < rank then cs + Repeat(rank - |cs|) else cs
  }

  /** `__getitem__` with a tuple. */
  function GetItem(p: Pair, cs: seq<Component>): Outcome
    requires Valid(p)
    decreases |cs|
  {
    if cs == [] then Raised
    else if cs[|cs| - 1].Dots? then GetItem(p, cs[..|cs| - 1])
    else
      IndexWith(p, Completed(Expanded(cs, |cs| - 1), |p.b.shape|))
  }

  predicate NoDots(cs: seq<Component>) { forall i :: 0 <= i < |cs| ==> !cs[i].Dots? }

  lemma {:induction false} ExpandedWithout(cs: seq<Component>, k: nat)
    requires NoDots(cs)
    ensures Expanded(cs, k) == cs
  {
    if cs != [] {
      assert forall i :: 0 <= i < |cs| - 1 ==> cs[1..][i] == cs[i + 1];
      ExpandedWithout(cs[1..], k);
      assert cs == [cs[0]] + cs[1..];
    }
  }

  lemma {:induction false} ExpandedOnce(pre: seq<Component>, post: seq<Component>, k: nat)
    requires NoDots(pre) && NoDots(post)
    ensures Expanded(pre + ([Dots] + post), k) == pre + (Repeat(k) + post)
    decreases pre
  {
    var cs := pre + ([Dots] + post);
    if pre == [] {
      assert cs == [Dots] + post && cs[1..] == post;
      ExpandedWithout(post, k);
      assert [] + (Repeat(k) + post) == Repeat(k) + post;
    } else {
      assert forall i :: 0 <= i < |pre| - 1 ==> pre[1..][i] == pre[i + 1];
      assert cs[1..] == pre[1..] + ([Dots] + post);
      ExpandedOnce(pre[1..], post, k);
      assert pre == [pre[0]] + pre[1..];
    }
  }

  lemma SplitRepeat(a: nat, b: nat)
    ensures Repeat(a + b) == Repeat(a) + Repeat(b) && Repeat(a) + Repeat(b) == Repeat(b) + Repeat(a)
  {
  }

  /** The components meant: the ellipsis stands for all the axes that are not mentioned. */
  function Meant(pre: seq<Component>, post: seq<Component>, rank: nat): seq<Component>
    requires |pre| + |post| <= rank
  {
    pre + (Repeat(rank - |pre| - |post|) + post)
  }

  lemma CompletedDots(pre: seq<Component>, post: seq<Component>, m: nat, k: nat, rank: nat)
    requires m == |pre| + |post| && rank == 2 * m + k
    ensures Completed(pre + (Repeat(m) + post), rank) == pre + (Repeat(m) + (post + Repeat(k)))
  {
    if k == 0 {
      assert post + Repeat(0) == post;
    }
  }

  lemma MeantDots(pre: seq<Component>, post: seq<Component>, m: nat, k: nat, rank: nat)
    requires m == |pre| + |post| && rank == 2 * m + k
    ensures Meant(pre, post, rank) == pre + (Repeat(m) + (Repeat(k) + post))
  {
    SplitRepeat(m, k);
    assert Repeat(rank - |pre| - |post|) == Repeat(m) + Repeat(k);
    assert (Repeat(m) + Repeat(k)) + post == Repeat(m) + (Repeat(k) + post);
  }

  // ----- when the two lists pick the same -----

  predicate SelectsAll(c: Component, size: nat) { Usable(c, size) && PickOf(c, size) == All(size) }

  predicate SamePick(c: Component, d: Component, size: nat) {
    Usable(c, size) && Usable(d, size) && PickOf(c, size) == PickOf(d, size)
  }

  /**
    The components behind the ellipsis are put `k` axes too early.  That does no harm when each picks, on the
    axis it is put, what is meant there, which is everything on the first `k` axes and what the component `k`
    places before it picks on the others, and when the last `k` select everything on the axes meant for them.
    */
  predicate Shifts(post: seq<Component>, k: nat, tail: seq<nat>)
    requires |tail| == |post| + k
  {
    forall j :: 0 <= j < |post| ==> ShiftsAt(post, k, tail, j)
  }

  predicate ShiftsAt(post: seq<Component>, k: nat, tail: seq<nat>, j: nat)
    requires |tail| == |post| + k && j < |post|
  {
    && (if j < k then SelectsAll(post[j], tail[j]) else SamePick(post[j], post[j - k], tail[j]))
    && (j + k >= |post| ==> SelectsAll(post[j], tail[j + k]))
  }

  ghost predicate PickAlike(xs: seq<Component>, ys: seq<Component>, shape: seq<nat>) {
    |xs| == |ys| == |shape| && forall i :: 0 <= i < |xs| ==> SamePick(xs[i], ys[i], shape[i])
  }

  lemma PickAlikeIs(xs: seq<Component>, ys: seq<Component>, shape: seq<nat>)
    requires AllUsable(ys, shape)
    ensures PickAlike(xs, ys, shape) <==> AllUsable(xs, shape) && Picks(xs, shape) == Picks(ys, shape)
  {
    if AllUsable(xs, shape) && Picks(xs, shape) == Picks(ys, shape) {
      forall i | 0 <= i < |xs| ensures SamePick(xs[i], ys[i], shape[i]) {
        assert Picks(xs, shape)[i] == Picks(ys, shape)[i];
      }
    }
  }

  lemma FullSame(c: Component, size: nat)
    ensures SamePick(c, FULL, size) <==> SelectsAll(c, size)
    ensures SamePick(FULL, c, size) <==> SelectsAll(c, size)
    ensures SamePick(FULL, FULL, size)
  {
    FullSelectsAll(size);
  }

  lemma ShiftsMeansAlike(post: seq<Component>, k: nat, tail: seq<nat>)
    requires |tail| == |post| + k && Shifts(post, k, tail)
    ensures PickAlike(post + Repeat(k), Repeat(k) + post, tail)
  {
    var p, xs, ys := |post|, post + Repeat(k), Repeat(k) + post;
    forall i | 0 <= i < p + k ensures SamePick(xs[i], ys[i], tail[i]) {
      if i < p {
        assert ShiftsAt(post, k, tail, i);
        FullSame(post[i], tail[i]);
      } else if i >= k {
        assert ShiftsAt(post, k, tail, i - k);
        FullSame(post[i - k], tail[i]);
      } else {
        FullSame(FULL, tail[i]);
      }
    }
  }

  lemma AlikeMeansShifts(post: seq<Component>, k: nat, tail: seq<nat>)
    requires |tail| == |post| + k && PickAlike(post + Repeat(k), Repeat(k) + post, tail)
    ensures Shifts(post, k, tail)
  {
    var p, xs, ys := |post|, post + Repeat(k), Repeat(k) + post;
    forall j | 0 <= j < p ensures ShiftsAt(post, k, tail, j) {
      assert SamePick(xs[j], ys[j], tail[j]) && SamePick(xs[j + k], ys[j + k], tail[j + k]);
      assert xs[j] == post[j] && ys[j + k] == post[j];
      FullSame(post[j], tail[j]);
      FullSame(post[j], tail[j + k]);
    }
  }

  /** Lists with the same beginning pick alike exactly when their ends do. */
  lemma SameHead(h: seq<Component>, x: seq<Component>, y: seq<Component>, shape: seq<nat>)
    requires |x| == |y| && |h| + |x| == |shape| && AllUsable(h + y, shape)
    ensures PickAlike(h + x, h + y, shape) <==> PickAlike(x, y, shape[|h|..])
  {
    var n, tail := |h|, shape[|h|..];
    if PickAlike(h + x, h + y, shape) {
      forall i | 0 <= i < |x| ensures SamePick(x[i], y[i], tail[i]) {
        assert SamePick((h + x)[n + i], (h + y)[n + i], shape[n + i]);
      }
    }
    if PickAlike(x, y, tail) {
      forall i | 0 <= i < |shape| ensures SamePick((h + x)[i], (h + y)[i], shape[i]) {
        if i >= n {
          assert SamePick(x[i - n], y[i - n], tail[i - n]);
        } else {
          assert Usable((h + y)[i], shape[i]);
        }
      }
    }
  }

  lemma ShiftsExactly(post: seq<Component>, k: nat, tail: seq<nat>)
    requires |tail| == |post| + k
    ensures PickAlike(post + Repeat(k), Repeat(k) + post, tail) <==> Shifts(post, k, tail)
  {
    if Shifts(post, k, tail) {
      ShiftsMeansAlike(post, k, tail);
    } else if PickAlike(post + Repeat(k), Repeat(k) + post, tail) {
      AlikeMeansShifts(post, k, tail);
    }
  }

  lemma DotsLists(pre: seq<Component>, post: seq<Component>, m: nat, k: nat, rank: nat)
    requires m == |pre| + |post| && rank == 2 * m + k
    ensures Completed(pre + (Repeat(m) + post), rank) == (pre + Repeat(m)) + (post + Repeat(k))
    ensures Meant(pre, post, rank) == (pre + Repeat(m)) + (Repeat(k) + post)
  {
    CompletedDots(pre, post, m, k, rank);
    MeantDots(pre, post, m, k, rank);
    Regrouped(pre, Repeat(m), post + Repeat(k));
    Regrouped(pre, Repeat(m), Repeat(k) + post);
  }

  lemma DotsFit(pre: seq<Component>, post: seq<Component>, m: nat, k: nat, shape: seq<nat>, head: nat)
    requires m == |pre| + |post| && |shape| == 2 * m + k && head == |pre| + m
    requires AllUsable(Meant(pre, post, |shape|), shape)
    ensures PickAlike(Completed(pre + (Repeat(m) + post), |shape|), Meant(pre, post, |shape|), shape) <==>
              Shifts(post, k, shape[head..])
  {
    DotsLists(pre, post, m, k, |shape|);
    HeadShifts(pre + Repeat(m), post, k, shape, head);
  }

  lemma HeadShifts(h: seq<Component>, post: seq<Component>, k: nat, shape: seq<nat>, head: nat)
    requires head == |h| && |h| + |post| + k == |shape| && AllUsable(h + (Repeat(k) + post), shape)
    ensures PickAlike(h + (post + Repeat(k)), h + (Repeat(k) + post), shape) <==> Shifts(post, k, shape[head..])
  {
    SameHead(h, post + Repeat(k), Repeat(k) + post, shape);
    ShiftsExactly(post, k, shape[head..]);
  }

  /** Nothing is shifted when there is nothing left over. */
  lemma NoShift(post: seq<Component>, tail: seq<nat>)
    requires AllUsable(post, tail)
    ensures Shifts(post, 0, tail)
  {
    forall j | 0 <= j < |post| ensures ShiftsAt(post, 0, tail, j) {
    }
  }

  lemma DotsTooMany(pre: seq<Component>, post: seq<Component>, m: nat, rank: nat)
    requires m == |pre| + |post| <= rank < 2 * m
    ensures |Completed(pre + (Repeat(m) + post), rank)| > rank == |Meant(pre, post, rank)|
  {
  }

  /** The condition under which an ellipsis in front of `post` does what it should. */
  predicate DotsWork(pre: seq<Component>, post: seq<Component>, m: nat, shape: seq<nat>)
    requires m == |pre| + |post| <= |shape|
  {
    2 * m == |shape| || (2 * m < |shape| && Shifts(post, |shape| - 2 * m, shape[|pre| + m..]))
  }

  /**
    An ellipsis that is not the last component: on every axis the code picks what is meant exactly when the
    other components are half as many as the axes, or fewer and such that putting them too early does no harm.
    */
  lemma DotsExactly(pre: seq<Component>, post: seq<Component>, m: nat, shape: seq<nat>)
    requires NoDots(pre) && NoDots(post) && post != [] && m == |pre| + |post| <= |shape|
    requires AllUsable(Meant(pre, post, |shape|), shape)
    ensures var xs, ys := Completed(Expanded(pre + ([Dots] + post), m), |shape|), Meant(pre, post, |shape|);
            AllUsable(xs, shape) && Picks(xs, shape) == Picks(ys, shape) <==> DotsWork(pre, post, m, shape)
  {
    var rank := |shape|;
    ExpandedOnce(pre, post, m);
    PickAlikeIs(Completed(pre + (Repeat(m) + post), rank), Meant(pre, post, rank), shape);
    if 2 * m <= rank {
      DotsFit(pre, post, m, rank - 2 * m, shape, |pre| + m);
      if 2 * m == rank {
        MeantTail(pre, post, m, shape);
        NoShift(post, shape[|pre| + m..]);
      }
    } else {
      DotsTooMany(pre, post, m, rank);
    }
  }

  lemma MeantTail(pre: seq<Component>, post: seq<Component>, m: nat, shape: seq<nat>)
    requires m == |pre| + |post| && |shape| == 2 * m && AllUsable(Meant(pre, post, |shape|), shape)
    ensures AllUsable(post, shape[|pre| + m..])
  {
    var ys, n := Meant(pre, post, |shape|), |pre| + m;
    forall i | 0 <= i < |post| ensures Usable(post[i], shape[n..][i]) {
      assert ys[n + i] == post[i] && Usable(ys[n + i], shape[n + i]);
    }
  }

  /** Slices that select everything on both axes they meet do no harm. */
  lemma FullSlicesShift(post: seq<Component>, k: nat, tail: seq<nat>)
    requires |tail| == |post| + k && |post| <= k
    ensures Shifts(post, k, tail) <==>
              forall j :: 0 <= j < |post| ==> SelectsAll(post[j], tail[j]) && SelectsAll(post[j], tail[j + k])
  {
    if Shifts(post, k, tail) {
      forall j | 0 <= j < |post| ensures SelectsAll(post[j], tail[j]) && SelectsAll(post[j], tail[j + k]) {
        assert ShiftsAt(post, k, tail, j);
      }
    }
  }

  /** Under that condition the tuple is the one meant. */
  lemma DotsTuple(p: Pair, pre: seq<Component>, post: seq<Component>, m: nat)
    requires Valid(p) && NoDots(pre) && NoDots(post) && post != [] && m == |pre| + |post| <= |p.b.shape|
    requires AllUsable(Meant(pre, post, |p.b.shape|), Shape(p)) && DotsWork(pre, post, m, Shape(p))
    ensures GetItem(p, pre + ([Dots] + post)) == IndexWith(p, Meant(pre, post, |p.b.shape|))
  {
    DotsExactly(pre, post, m, Shape(p));
    GetItemIs(p, pre + ([Dots] + post), m);
    SamePicksSameIndex(p, Completed(Expanded(pre + ([Dots] + post), m), |p.b.shape|), Meant(pre, post, |p.b.shape|));
  }

  lemma GetItemIs(p: Pair, cs: seq<Component>, others: nat)
    requires Valid(p) && cs != [] && !cs[|cs| - 1].Dots? && others == |cs| - 1
    ensures |Completed(Expanded(cs, others), |p.b.shape|)| >= 2
    ensures GetItem(p, cs) == IndexWith(p, Completed(Expanded(cs, others), |p.b.shape|))
  {
  }

  lemma SamePicksSameIndex(p: Pair, xs: seq<Component>, ys: seq<Component>)
    requires Valid(p) && AllUsable(xs, Shape(p)) && AllUsable(ys, Shape(p)) && Picks(xs, Shape(p)) == Picks(ys, Shape(p))
    ensures IndexWith(p, xs) == IndexWith(p, ys)
  {
    IndexIsPick(p, xs);
    IndexIsPick(p, ys);
  }

  /** The product that comes out of a tuple has the shape its components pick. */
  lemma RightShape(r: Outcome, p: Pair, picks: seq<Pick>, others: seq<Pick>)
    requires Valid(p) && Right(r, p, picks) && PickedShape(picks) != PickedShape(others)
    ensures !Right(r, p, others)
  {
  }

  /** On three axes `[..., 0:1]` takes from the middle axis instead of the last. */
  lemma DotsExample()
    ensures var p, c := Pair(Tensor([1, 1, 2], _ => 1), Tensor([1, 2, 1], _ => 1)), Range(Some(0), Some(1), 1);
            && Valid(p) && AllUsable(Meant([], [c], 3), Shape(p))
            && !Right(GetItem(p, [Dots, c]), p, Picks(Meant([], [c], 3), Shape(p)))
  {
    var p, c := Pair(Tensor([1, 1, 2], _ => 1), Tensor([1, 2, 1], _ => 1)), Range(Some(0), Some(1), 1);
    var shape := [1, 2, 2];
    assert Shape(p) == shape;
    EarlySlice(c);
    EarlyPicks(c, shape);
    GetItemIs(p, [Dots, c], 1);
    IndexExactly(p, [FULL, c, FULL]);
    RightShape(GetItem(p, [Dots, c]), p, Picks([FULL, c, FULL], shape), Picks([FULL, FULL, c], shape));
  }

  lemma EarlySlice(c: Component)
    requires c.Range?
    ensures Completed(Expanded([Dots, c], 1), 3) == [FULL, c, FULL] && Meant([], [c], 3) == [FULL, FULL, c]
  {
    assert [] + ([Dots] + [c]) == [Dots, c];
    ExpandedOnce([], [c], 1);
    assert Repeat(1) == [FULL] && Repeat(2) == [FULL, FULL];
  }

  lemma EarlyPicks(c: Component, shape: seq<nat>)
    requires c == Range(Some(0), Some(1), 1) && shape == [1, 2, 2]
    ensures AllUsable([FULL, c, FULL], shape) && AllUsable([FULL, FULL, c], shape)
    ensures PickedShape(Picks([FULL, c, FULL], shape)) == [1, 1, 2] && PickedShape(Picks([FULL, FULL, c], shape)) == [1, 2, 1]
    ensures Picks([FULL, c, FULL], shape)[..1] == [All(1)]
  {
    assert Steps(1, 1, 1) == [] && Selected(c, 2) == [0];
    FullSelectsAll(1);
    FullSelectsAll(2);
    ShapeOfThree(Picks([FULL, c, FULL], shape));
    ShapeOfThree(Picks([FULL, FULL, c], shape));
  }

  lemma ShapeOfThree(ix: seq<Pick>)
    requires |ix| == 3 && forall i :: 0 <= i < 3 ==> ix[i].Slice?
    ensures PickedShape(ix) == [|ix[0].sel|, |ix[1].sel|, |ix[2].sel|]
  {
    assert ix[..2][..1] == ix[..1] && ix[..1][..0] == [];
    assert PickedShape(ix[..1]) == [|ix[0].sel|];
    assert PickedShape(ix[..2]) == [|ix[0].sel|, |ix[1].sel|];
  }

  lemma CompletedPlain(cs: seq<Component>, rank: nat)
    requires |cs| <= rank
    ensures Completed(cs, rank) == Meant(cs, [], rank) && |Meant(cs, [], rank)| == rank
  {
    assert Repeat(rank - |cs|) + [] == Repeat(rank - |cs|);
    if |cs| == rank {
      assert cs + Repeat(0) == cs;
    }
  }

  /** Without an ellipsis, or with one at the end, the missing axes are full slices. */
  lemma PlainTuple(p: Pair, cs: seq<Component>)
    requires Valid(p) && cs != [] && NoDots(cs) && |cs| <= |p.b.shape|
    ensures |Meant(cs, [], |p.b.shape|)| == |p.b.shape|
    ensures GetItem(p, cs) == GetItem(p, cs + [Dots]) == IndexWith(p, Meant(cs, [], |p.b.shape|))
  {
    ExpandedWithout(cs, |cs| - 1);
    CompletedPlain(cs, |p.b.shape|);
    DotsAtEnd(p, cs);
  }

  lemma DotsAtEnd(p: Pair, cs: seq<Component>)
    requires Valid(p)
    ensures GetItem(p, cs + [Dots]) == GetItem(p, cs)
  {
    assert (cs + [Dots])[..|cs|] == cs;
  }

  /** Too many components are refused. */
  lemma LongTupleIsRefused(p: Pair, cs: seq<Component>)
    requires Valid(p) && NoDots(cs) && |cs| > |p.b.shape|
    ensures GetItem(p, cs).Raised?
  {
    TooLongIsRefused(p, cs);
    ExpandedWithout(cs, |cs| - 1);
    var all := Completed(cs, |p.b.shape|);
    assert all == cs;
    GetItemIs(p, cs, |cs| - 1);
  }
}
