/**
  common/chat-auto-parser-helpers.cpp:67-190: the common prefix and suffix of two texts and what
  differs between them, aligned to markers.
  */
module DiffSplit {
  import opened Segments

  datatype Split = Split(prefix: string, suffix: string, left: string, right: string)

  /**
    The four iterators of `calculate_diff_split` (ends inclusive) and its two flags.  `leftDone` says that
    the last remaining segment on the left was used up too.
    */
  datatype Cursor = Cursor(ls: nat, le: nat, rs: nat, re: nat, leftDone: bool, rightDone: bool)

  predicate InRange(L: seq<Segment>, R: seq<Segment>, c: Cursor) {
    && c.ls <= c.le < |L| && c.rs <= c.re < |R|
    && (c.leftDone ==> c.ls == c.le) && (c.rightDone ==> c.rs == c.re)
  }

  function LeftTail(c: Cursor): nat { if c.leftDone then c.le else c.le + 1 }
  function RightTail(c: Cursor): nat { if c.rightDone then c.re else c.re + 1 }

  /** Taking the segment at both starts. */
  function StepStart(L: seq<Segment>, R: seq<Segment>, c: Cursor): (c': Cursor)
    requires InRange(L, R, c) && c.ls != c.le && c.rs != c.re && !c.leftDone && !c.rightDone
    ensures InRange(L, R, c') && !c'.leftDone && !c'.rightDone
  {
    if L[c.ls] == R[c.rs] then c.(ls := c.ls + 1, rs := c.rs + 1) else c
  }

  /** Taking the segment at both ends. */
  function StepEnd(L: seq<Segment>, R: seq<Segment>, c: Cursor): (c': Cursor)
    requires InRange(L, R, c) && !c.leftDone && !c.rightDone
    ensures InRange(L, R, c')
  {
    if L[c.le] != R[c.re] then c
    else c.(le := if c.ls != c.le then c.le - 1 else c.le, leftDone := c.ls == c.le,
            re := if c.rs != c.re then c.re - 1 else c.re, rightDone := c.rs == c.re)
  }

  /** The loop of `calculate_diff_split` (lines 112-137). */
  function Narrowed(L: seq<Segment>, R: seq<Segment>, c: Cursor): (c': Cursor)
    requires InRange(L, R, c) && (c.ls != c.le && c.rs != c.re ==> !c.leftDone && !c.rightDone)
    ensures InRange(L, R, c')
    decreases c.le - c.ls + (c.re - c.rs)
  {
    if c.ls == c.le || c.rs == c.re then c
    else
      var c' := StepEnd(L, R, StepStart(L, R, c));
      if c' == c then c else Narrowed(L, R, c')
  }

  function StartCursor(L: seq<Segment>, R: seq<Segment>): Cursor
    requires L != [] && R != []
  {
    Cursor(0, |L| - 1, 0, |R| - 1, false, false)
  }

  /** What was taken so far is common to both sides. */
  ghost predicate Matched(L: seq<Segment>, R: seq<Segment>, c: Cursor)
    requires InRange(L, R, c)
  {
    && L[..c.ls] == R[..c.rs]
    && L[LeftTail(c)..] == R[RightTail(c)..]
  }

  lemma StepStartMatches(L: seq<Segment>, R: seq<Segment>, c: Cursor)
    requires InRange(L, R, c) && c.ls != c.le && c.rs != c.re && !c.leftDone && !c.rightDone && Matched(L, R, c)
    ensures Matched(L, R, StepStart(L, R, c))
  {
    if L[c.ls] == R[c.rs] {
      assert L[..c.ls + 1] == L[..c.ls] + [L[c.ls]] && R[..c.rs + 1] == R[..c.rs] + [R[c.rs]];
    }
  }

  lemma TailGrows(s: seq<Segment>, k: nat)
    requires k < |s|
    ensures s[k..] == [s[k]] + s[k + 1..]
  {
  }

  lemma StepEndMatches(L: seq<Segment>, R: seq<Segment>, c: Cursor)
    requires InRange(L, R, c) && !c.leftDone && !c.rightDone && Matched(L, R, c)
    ensures Matched(L, R, StepEnd(L, R, c))
    ensures L[c.le] == R[c.re] ==> L[LeftTail(StepEnd(L, R, c))..] == [L[c.le]] + L[LeftTail(c)..]
  {
    TailGrows(L, c.le);
    TailGrows(R, c.re);
  }

  // ----- after the loop (lines 139-163) -----

  /** The post-loop branch that applies: use the remaining single segment in the suffix or in the prefix. */
  datatype Use = Nothing | InSuffix | InPrefix

  function LeftUse(L: seq<Segment>, R: seq<Segment>, c: Cursor): Use
    requires InRange(L, R, c)
  {
    if L[c.ls] == R[c.re] then InSuffix else if L[c.ls] == R[c.rs] then InPrefix else Nothing
  }

  function RightUse(L: seq<Segment>, R: seq<Segment>, c: Cursor): Use
    requires InRange(L, R, c)
  {
    if L[c.le] == R[c.rs] then InSuffix else if L[c.ls] == R[c.rs] then InPrefix else Nothing
  }

  predicate BothUse(L: seq<Segment>, R: seq<Segment>, c: Cursor)
    requires InRange(L, R, c)
  {
    L[c.ls] == R[c.rs] && L[c.ls].kind == Marker
  }

  /** The loop used up one side completely, and the branch after it matches that side's last segment again. */
  predicate ReusesAt(L: seq<Segment>, R: seq<Segment>, c: Cursor)
    requires InRange(L, R, c)
  {
    || (c.leftDone && !c.rightDone && if c.rs != c.re then !LeftUse(L, R, c).Nothing? else BothUse(L, R, c))
    || (c.rightDone && !c.leftDone && if c.ls != c.le then !RightUse(L, R, c).Nothing? else BothUse(L, R, c))
  }

  /** The failing family: a segment that the loop already used is used a second time. */
  predicate Reuses(L: seq<Segment>, R: seq<Segment>)
    requires L != [] && R != []
  {
    ReusesAt(L, R, Narrowed(L, R, StartCursor(L, R)))
  }

  /** The two remainders, with the prefix and suffix around them. */
  datatype Rest = Rest(prefix: string, suffix: string, left: string, right: string, c: Cursor)

  function Remainders(L: seq<Segment>, R: seq<Segment>, prefix: string, suffix: string, c: Cursor): Rest
    requires InRange(L, R, c)
  {
    Rest(prefix, suffix, Joined(L[c.ls..LeftTail(c)]), Joined(R[c.rs..RightTail(c)]), c)
  }

  function AfterLoop(L: seq<Segment>, R: seq<Segment>, prefix: string, suffix: string, c: Cursor): Rest
    requires InRange(L, R, c)
  {
    if c.ls == c.le && c.rs != c.re then
      match LeftUse(L, R, c)
      case InSuffix => Remainders(L, R, prefix, R[c.re].value + suffix, c.(re := c.re - 1, leftDone := true))
      case InPrefix => Remainders(L, R, prefix + R[c.rs].value, suffix, c.(rs := c.rs + 1, leftDone := true))
      case Nothing => Remainders(L, R, prefix, suffix, c)
    else if c.rs == c.re && c.ls != c.le then
      match RightUse(L, R, c)
      case InSuffix => Remainders(L, R, prefix, L[c.le].value + suffix, c.(le := c.le - 1, rightDone := true))
      case InPrefix => Remainders(L, R, prefix + L[c.ls].value, suffix, c.(ls := c.ls + 1, rightDone := true))
      case Nothing => Remainders(L, R, prefix, suffix, c)
    else if c.ls == c.le && c.rs == c.re && BothUse(L, R, c) then
      Remainders(L, R, prefix + R[c.rs].value, suffix, c.(leftDone := true, rightDone := true))
    else Remainders(L, R, prefix, suffix, c)
  }

  // ----- the characters (lines 167-189) -----

  /** `common_prefix_len`. */
  method CommonPrefixLen(left: string, right: string) returns (n: nat)
    ensures n <= |left| && n <= |right| && left[..n] == right[..n]
    ensures n < |left| && n < |right| ==> left[n] != right[n]
  {
    n := 0;
    while n < |left| && n < |right| && left[n] == right[n]
      invariant n <= |left| && n <= |right| && left[..n] == right[..n]
    {
      n := n + 1;
    }
  }

  /** `common_suffix_len`. */
  method CommonSuffixLen(left: string, right: string) returns (n: nat)
    ensures n <= |left| && n <= |right| && left[|left| - n..] == right[|right| - n..]
    ensures n < |left| && n < |right| ==> left[|left| - 1 - n] != right[|right| - 1 - n]
  {
    n := 0;
    while n < |left| && n < |right| && left[|left| - 1 - n] == right[|right| - 1 - n]
      invariant n <= |left| && n <= |right| && left[|left| - n..] == right[|right| - n..]
    {
      assert left[|left| - 1 - n..] == [left[|left| - 1 - n]] + left[|left| - n..];
      assert right[|right| - 1 - n..] == [right[|right| - 1 - n]] + right[|right| - n..];
      n := n + 1;
    }
  }

  ghost predicate Reconstructs(s: Split, left: string, right: string) {
    s.prefix + s.left + s.suffix == left && s.prefix + s.right + s.suffix == right
  }

  /** The remainders with their surroundings give the inputs back. */
  ghost predicate Covers(r: Rest, left: string, right: string) {
    r.prefix + r.left + r.suffix == left && r.prefix + r.right + r.suffix == right
  }

  lemma JoinedSplit(s: seq<Segment>, i: nat)
    requires i <= |s|
    ensures Joined(s[..i]) + Joined(s[i..]) == Joined(s)
  {
    assert s == s[..i] + s[i..];
    JoinedAppend(s[..i], s[i..]);
  }

  lemma JoinedParts(s: seq<Segment>, i: nat, j: nat)
    requires i <= j <= |s|
    ensures Joined(s[..i]) + Joined(s[i..j]) + Joined(s[j..]) == Joined(s)
  {
    var front := s[..j];
    assert front[..i] == s[..i] && front[i..] == s[i..j];
    JoinedSplit(front, i);
    JoinedSplit(s, j);
  }

  lemma JoinedOne(s: Segment)
    ensures Joined([s]) == s.value
  {
    assert [s][1..] == [] && Joined([]) == "";
  }

  // ----- the method -----

  ghost predicate Built(L: seq<Segment>, R: seq<Segment>, prefix: string, suffix: string, c: Cursor) {
    && InRange(L, R, c) && Matched(L, R, c)
    && prefix == Joined(L[..c.ls]) && suffix == Joined(L[LeftTail(c)..])
  }

  lemma StepStartBuilds(L: seq<Segment>, R: seq<Segment>, prefix: string, suffix: string, c: Cursor)
    requires Built(L, R, prefix, suffix, c) && c.ls != c.le && c.rs != c.re && !c.leftDone && !c.rightDone
    ensures Built(L, R, if L[c.ls] == R[c.rs] then prefix + L[c.ls].value else prefix, suffix, StepStart(L, R, c))
  {
    StepStartMatches(L, R, c);
    PrefixGrows(L, c.ls);
  }

  lemma StepEndBuilds(L: seq<Segment>, R: seq<Segment>, prefix: string, suffix: string, c: Cursor)
    requires Built(L, R, prefix, suffix, c) && !c.leftDone && !c.rightDone
    ensures Built(L, R, prefix, if L[c.le] == R[c.re] then L[c.le].value + suffix else suffix, StepEnd(L, R, c))
  {
    StepEndMatches(L, R, c);
    SuffixGrows(L, c.le);
  }

  /** The loop, with the prefix and suffix it builds. */
  method Narrow(L: seq<Segment>, R: seq<Segment>) returns (c: Cursor, prefix: string, suffix: string)
    requires L != [] && R != []
    ensures c == Narrowed(L, R, StartCursor(L, R)) && Built(L, R, prefix, suffix, c)
  {
    prefix, suffix := "", "";
    c := StartCursor(L, R);
    while c.ls != c.le && c.rs != c.re
      invariant Built(L, R, prefix, suffix, c) && (c.ls != c.le && c.rs != c.re ==> !c.leftDone && !c.rightDone)
      invariant Narrowed(L, R, c) == Narrowed(L, R, StartCursor(L, R))
      decreases c.le - c.ls + (c.re - c.rs)
    {
      TurnBuilds(L, R, prefix, suffix, c);
      if L[c.ls] == R[c.rs] {
        prefix := prefix + L[c.ls].value;
      }
      var mid := StepStart(L, R, c);
      if L[mid.le] == R[mid.re] {
        suffix := L[mid.le].value + suffix;
      }
      var next := StepEnd(L, R, mid);
      if next == c {
        break;
      }
      c := next;
    }
  }

  /** One turn of the loop: both tests, on the positions the first one leaves. */
  lemma TurnBuilds(L: seq<Segment>, R: seq<Segment>, prefix: string, suffix: string, c: Cursor)
    requires Built(L, R, prefix, suffix, c) && c.ls != c.le && c.rs != c.re && !c.leftDone && !c.rightDone
    ensures var mid := StepStart(L, R, c);
            Built(L, R, if L[c.ls] == R[c.rs] then prefix + L[c.ls].value else prefix,
                  if L[mid.le] == R[mid.re] then L[mid.le].value + suffix else suffix, StepEnd(L, R, mid))
  {
    StepStartBuilds(L, R, prefix, suffix, c);
    StepEndBuilds(L, R, if L[c.ls] == R[c.rs] then prefix + L[c.ls].value else prefix, suffix, StepStart(L, R, c));
  }

  lemma PrefixGrows(s: seq<Segment>, i: nat)
    requires i < |s|
    ensures Joined(s[..i + 1]) == Joined(s[..i]) + s[i].value
  {
    assert s[..i + 1] == s[..i] + [s[i]];
    JoinedAppend(s[..i], [s[i]]);
    JoinedOne(s[i]);
  }

  lemma SuffixGrows(s: seq<Segment>, i: nat)
    requires i < |s|
    ensures Joined(s[i..]) == s[i].value + Joined(s[i + 1..])
  {
    assert s[i..][1..] == s[i + 1..];
  }

  function Finished(r: Rest, p: nat, q: nat, left: string): Split
    requires p + q <= |r.left| && p + q <= |r.right|
  {
    var l, m := r.left[p..|r.left| - q], r.right[p..|r.right| - q];
    if l == "" && m == "" then Split(left, "", l, m)
    else Split(r.prefix + r.left[..p], r.left[|r.left| - q..] + r.suffix, l, m)
  }

  lemma PrefixOfPrefix(s: string, n: nat, p: nat)
    requires p <= n <= |s|
    ensures s[..n][..p] == s[..p]
  {
  }

  /** How many characters at both ends of the remainders are common (lines 173-176). */
  method CommonEnds(left: string, right: string, textPrefix: bool, textSuffix: bool) returns (p: nat, q: nat)
    ensures Common(left, right, p, q) && Tight(left, right, textPrefix, textSuffix, p, q)
    ensures textSuffix && left == right ==> p + q == |left|
  {
    q := 0;
    if textSuffix {
      q := CommonSuffixLen(left, right);
    }
    p := 0;
    if textPrefix {
      p := CommonPrefixLen(left[..|left| - q], right[..|right| - q]);
      PrefixOfPrefix(left, |left| - q, p);
      PrefixOfPrefix(right, |right| - q, p);
    }
  }

  ghost predicate Common(left: string, right: string, p: nat, q: nat) {
    && p + q <= |left| && p + q <= |right|
    && left[..p] == right[..p] && left[|left| - q..] == right[|right| - q..]
  }

  /** No more could be taken: at the end, and then in front of that at the start; and only text is cut. */
  ghost predicate Tight(left: string, right: string, textPrefix: bool, textSuffix: bool, p: nat, q: nat)
    requires p + q <= |left| && p + q <= |right|
  {
    && (if textSuffix then q < |left| && q < |right| ==> left[|left| - 1 - q] != right[|right| - 1 - q] else q == 0)
    && (if textPrefix then p + q < |left| && p + q < |right| ==> left[p] != right[p] else p == 0)
  }

  /** `i` segments are common at the start and `j` at the end, where both sides go on with different ones. */
  ghost predicate SameEnds(L: seq<Segment>, R: seq<Segment>, i: nat, j: nat) {
    && i + j < |L| && i + j < |R|
    && L[..i] == R[..i] && L[|L| - j..] == R[|R| - j..] && L[i] != R[i] && L[|L| - 1 - j] != R[|R| - 1 - j]
  }

  /** A prefix and a suffix common to `l` and `r` are cut off them, as long as text allows. */
  ghost predicate CutOff(s: Split, prefix: string, l: string, r: string, suffix: string, textPrefix: bool, textSuffix: bool,
                         p: nat, q: nat) {
    && Common(l, r, p, q) && Tight(l, r, textPrefix, textSuffix, p, q)
    && s == Split(prefix + l[..p], l[|l| - q..] + suffix, l[p..|l| - q], r[p..|r| - q])
  }

  /** The split follows the segments and, where what is left of both sides begins or ends with text, its characters. */
  ghost predicate AlignedAt(L: seq<Segment>, R: seq<Segment>, s: Split, i: nat, j: nat, k: nat, m: nat, p: nat, q: nat) {
    && SameEnds(L, R, i, j) && k == |L| - j && m == |R| - j
    && CutOff(s, Joined(L[..i]), Joined(L[i..k]), Joined(R[i..m]), Joined(L[k..]),
              BothText(L[i], R[i]), BothText(L[k - 1], R[m - 1]), p, q)
  }

  ghost predicate Aligned(L: seq<Segment>, R: seq<Segment>, s: Split) {
    exists i, j, k, m, p, q :: AlignedAt(L, R, s, i, j, k, m, p, q)
  }

  /** A single segment that the other side begins or ends with is found there, at the end first. */
  ghost predicate OneInMany(L: seq<Segment>, R: seq<Segment>, s: Split) {
    && (|L| == 1 && |R| > 1 ==>
          && (L[0] == R[|R| - 1] ==> s == Split("", L[0].value, "", Joined(R[..|R| - 1])))
          && (L[0] != R[|R| - 1] && L[0] == R[0] ==> s == Split(L[0].value, "", "", Joined(R[1..]))))
    && (|R| == 1 && |L| > 1 ==>
          && (R[0] == L[|L| - 1] ==> s == Split("", R[0].value, Joined(L[..|L| - 1]), ""))
          && (R[0] != L[|L| - 1] && R[0] == L[0] ==> s == Split(R[0].value, "", Joined(L[1..]), "")))
  }

  predicate BothText(a: Segment, b: Segment) { a.kind == Text && b.kind == Text }

  /** `calculate_diff_split`: the parts give both texts back exactly when no segment is used twice. */
  method CalculateDiffSplit(left: string, right: string) returns (s: Split)
    ensures left == "" || right == "" ==> Reconstructs(s, left, right)
    ensures left != "" && right != "" ==>
              Segmented(left) != [] && Segmented(right) != [] &&
              (Reconstructs(s, left, right) <==> !Reuses(Segmented(left), Segmented(right)))
    ensures left != "" && right != "" && s.left != "" && s.right != "" ==> Aligned(Segmented(left), Segmented(right), s)
    ensures left != "" && right != "" ==> OneInMany(Segmented(left), Segmented(right), s)
    ensures left == right ==> s == Split(left, "", "", "")
    ensures NoMarker(left) && NoMarker(right) ==> PlainSplit(s, left, right)
  {
    if left == "" || right == "" {
      EmptySplit(left, right);
    }
    NoMarkerSegments(left);
    NoMarkerSegments(right);
    var L := SegmentizeMarkers(left);
    var R := SegmentizeMarkers(right);
    SegmentsAreNonEmpty(left);
    SegmentsAreNonEmpty(right);
    if L == [] {
      return Split("", "", "", right);
    }
    if R == [] {
      return Split("", "", left, "");
    }
    s := SplitSegments(left, right, L, R);
    if NoMarker(left) && NoMarker(right) {
      PlainAligned(s, left, right, L, R);
    }
  }

  method SplitSegments(left: string, right: string, L: seq<Segment>, R: seq<Segment>) returns (s: Split)
    requires L == Segmented(left) && R == Segmented(right) && L != [] && R != []
    ensures Reconstructs(s, left, right) <==> !Reuses(L, R)
    ensures s.left != "" && s.right != "" ==> Aligned(L, R, s)
    ensures OneInMany(L, R, s)
    ensures left == right ==> s == Split(left, "", "", "")
  {
    var c, prefix, suffix := Narrow(L, R);
    var r := AfterLoop(L, R, prefix, suffix, c);
    AfterLoopInRange(L, R, prefix, suffix, c);
    ghost var p, q;
    s, p, q := CutRemainders(left, L, R, r);
    SplitFacts(left, right, prefix, suffix, c, p, q, s);
  }

  /** The characters (lines 167-189). */
  method CutRemainders(left: string, L: seq<Segment>, R: seq<Segment>, r: Rest) returns (s: Split, ghost p: nat, ghost q: nat)
    requires InRange(L, R, r.c)
    ensures Ended(L, R, r, p, q) && s == Finished(r, p, q, left)
    ensures BothText(L[r.c.le], R[r.c.re]) && r.left == r.right ==> p + q == |r.left|
  {
    var textPrefix := R[r.c.rs].kind == Text && L[r.c.ls].kind == Text;
    var textSuffix := L[r.c.le].kind == Text && R[r.c.re].kind == Text;
    var prefixLen, suffixLen := CommonEnds(r.left, r.right, textPrefix, textSuffix);
    p, q := prefixLen, suffixLen;
    s := Finished(r, prefixLen, suffixLen, left);
  }

  lemma AfterLoopInRange(L: seq<Segment>, R: seq<Segment>, prefix: string, suffix: string, c: Cursor)
    requires InRange(L, R, c)
    ensures InRange(L, R, AfterLoop(L, R, prefix, suffix, c).c)
  {
  }

  // ----- why it holds -----

  /** Without reuse the remainders and what surrounds them are the inputs. */
  lemma PlainCovers(L: seq<Segment>, R: seq<Segment>, prefix: string, suffix: string, c: Cursor)
    requires Built(L, R, prefix, suffix, c)
    ensures Covers(Remainders(L, R, prefix, suffix, c), Joined(L), Joined(R))
  {
    JoinedParts(L, c.ls, LeftTail(c));
    JoinedParts(R, c.rs, RightTail(c));
  }

  lemma SingleMiddle(s: seq<Segment>, i: nat)
    requires i < |s|
    ensures Joined(s) == Joined(s[..i]) + s[i].value + Joined(s[i + 1..])
  {
    assert s == s[..i + 1] + s[i + 1..];
    JoinedAppend(s[..i + 1], s[i + 1..]);
    PrefixGrows(s, i);
  }

  lemma EmptyMiddle(s: seq<Segment>, i: nat)
    requires i <= |s|
    ensures Joined(s[i..i]) == ""
  {
    assert s[i..i] == [];
  }

  lemma TakeLast(s: seq<Segment>, i: nat, j: nat)
    requires i <= j < |s|
    ensures Joined(s) == Joined(s[..i]) + Joined(s[i..j]) + (s[j].value + Joined(s[j + 1..]))
  {
    JoinedParts(s, i, j);
    SuffixGrows(s, j);
  }

  lemma TakeFirst(s: seq<Segment>, i: nat, j: nat)
    requires i < j <= |s|
    ensures Joined(s) == (Joined(s[..i]) + s[i].value) + Joined(s[i + 1..j]) + Joined(s[j..])
  {
    JoinedParts(s, i + 1, j);
    PrefixGrows(s, i);
  }

  lemma EmptyCovers(prefix: string, value: string, suffix: string)
    ensures prefix + "" + (value + suffix) == prefix + value + suffix
    ensures (prefix + value) + "" + suffix == prefix + value + suffix
  {
  }

  /** The single segment left on one side is used once, at the end of the other side. */
  lemma UsedInSuffix(L: seq<Segment>, R: seq<Segment>, prefix: string, suffix: string, k: nat, i: nat, j: nat)
    requires k < |L| && i <= j < |R| && L[k] == R[j]
    requires prefix == Joined(L[..k]) == Joined(R[..i]) && suffix == Joined(L[k + 1..]) == Joined(R[j + 1..])
    ensures prefix + "" + (R[j].value + suffix) == Joined(L)
    ensures prefix + Joined(R[i..j]) + (R[j].value + suffix) == Joined(R)
  {
    SingleMiddle(L, k);
    EmptyCovers(prefix, L[k].value, suffix);
    TakeLast(R, i, j);
  }

  lemma UsedInPrefix(L: seq<Segment>, R: seq<Segment>, prefix: string, suffix: string, k: nat, i: nat, i1: nat, j1: nat)
    requires k < |L| && i < j1 <= |R| && i1 == i + 1 && L[k] == R[i]
    requires prefix == Joined(L[..k]) == Joined(R[..i]) && suffix == Joined(L[k + 1..]) == Joined(R[j1..])
    ensures (prefix + R[i].value) + "" + suffix == Joined(L)
    ensures (prefix + R[i].value) + Joined(R[i1..j1]) + suffix == Joined(R)
  {
    SingleMiddle(L, k);
    EmptyCovers(prefix, L[k].value, suffix);
    TakeFirst(R, i, j1);
  }

  lemma RemaindersBy(L: seq<Segment>, R: seq<Segment>, prefix: string, suffix: string, c: Cursor,
                     ls: nat, le: nat, rs: nat, re: nat)
    requires InRange(L, R, c) && c.ls == ls && LeftTail(c) == le && c.rs == rs && RightTail(c) == re
    ensures ls <= le <= |L| && rs <= re <= |R|
    ensures Remainders(L, R, prefix, suffix, c) == Rest(prefix, suffix, Joined(L[ls..le]), Joined(R[rs..re]), c)
  {
  }

  /** The matched ends, with the positions where the tails begin. */
  lemma BothEnds(L: seq<Segment>, R: seq<Segment>, prefix: string, suffix: string, c: Cursor, lt: nat, rt: nat)
    requires Built(L, R, prefix, suffix, c) && lt == LeftTail(c) && rt == RightTail(c)
    ensures lt <= |L| && rt <= |R|
    ensures prefix == Joined(L[..c.ls]) == Joined(R[..c.rs]) && suffix == Joined(L[lt..]) == Joined(R[rt..])
  {
  }

  /** What `Built` says of the two texts when neither side is used up. */
  ghost predicate Ends(L: seq<Segment>, R: seq<Segment>, prefix: string, suffix: string, c: Cursor) {
    && InRange(L, R, c) && !c.leftDone && !c.rightDone
    && prefix == Joined(L[..c.ls]) == Joined(R[..c.rs]) && suffix == Joined(L[c.le + 1..]) == Joined(R[c.re + 1..])
  }

  lemma LeftSuffixRest(L: seq<Segment>, R: seq<Segment>, prefix: string, suffix: string, c: Cursor)
    requires InRange(L, R, c) && !c.rightDone && c.ls == c.le && c.rs != c.re && LeftUse(L, R, c).InSuffix?
    ensures AfterLoop(L, R, prefix, suffix, c) ==
              Rest(prefix, R[c.re].value + suffix, "", Joined(R[c.rs..c.re]), c.(re := c.re - 1, leftDone := true))
  {
    EmptyMiddle(L, c.ls);
    RemaindersBy(L, R, prefix, R[c.re].value + suffix, c.(re := c.re - 1, leftDone := true), c.ls, c.ls, c.rs, c.re);
  }

  lemma LeftSuffixCovers(L: seq<Segment>, R: seq<Segment>, prefix: string, suffix: string, c: Cursor)
    requires Ends(L, R, prefix, suffix, c) && c.ls == c.le && c.rs != c.re && LeftUse(L, R, c).InSuffix?
    ensures Covers(AfterLoop(L, R, prefix, suffix, c), Joined(L), Joined(R))
  {
    UsedInSuffix(L, R, prefix, suffix, c.le, c.rs, c.re);
    LeftSuffixRest(L, R, prefix, suffix, c);
    CoversBy(AfterLoop(L, R, prefix, suffix, c), Joined(L), Joined(R), prefix, R[c.re].value + suffix, "", Joined(R[c.rs..c.re]),
             c.(re := c.re - 1, leftDone := true));
  }

  lemma LeftPrefixRest(L: seq<Segment>, R: seq<Segment>, prefix: string, suffix: string, c: Cursor, rs: nat, re: nat)
    requires InRange(L, R, c) && !c.rightDone && c.ls == c.le && c.rs != c.re && LeftUse(L, R, c).InPrefix?
    requires rs == c.rs + 1 && re == c.re + 1
    ensures AfterLoop(L, R, prefix, suffix, c) ==
              Rest(prefix + R[c.rs].value, suffix, "", Joined(R[rs..re]), c.(rs := rs, leftDone := true))
  {
    EmptyMiddle(L, c.ls);
    RemaindersBy(L, R, prefix + R[c.rs].value, suffix, c.(rs := rs, leftDone := true), c.ls, c.ls, rs, re);
  }

  lemma CoversBy(r: Rest, left: string, right: string, prefix: string, suffix: string, l: string, m: string, c: Cursor)
    requires r == Rest(prefix, suffix, l, m, c) && prefix + l + suffix == left && prefix + m + suffix == right
    ensures Covers(r, left, right)
  {
  }

  lemma LeftPrefixCovers(L: seq<Segment>, R: seq<Segment>, prefix: string, suffix: string, c: Cursor)
    requires Ends(L, R, prefix, suffix, c) && c.ls == c.le && c.rs != c.re && LeftUse(L, R, c).InPrefix?
    ensures Covers(AfterLoop(L, R, prefix, suffix, c), Joined(L), Joined(R))
  {
    var rs, re := c.rs + 1, c.re + 1;
    UsedInPrefix(L, R, prefix, suffix, c.le, c.rs, rs, re);
    LeftPrefixRest(L, R, prefix, suffix, c, rs, re);
    CoversBy(AfterLoop(L, R, prefix, suffix, c), Joined(L), Joined(R), prefix + R[c.rs].value, suffix, "", Joined(R[rs..re]),
             c.(rs := rs, leftDone := true));
  }

  lemma RightSuffixRest(L: seq<Segment>, R: seq<Segment>, prefix: string, suffix: string, c: Cursor)
    requires InRange(L, R, c) && !c.leftDone && c.rs == c.re && c.ls != c.le && RightUse(L, R, c).InSuffix?
    ensures AfterLoop(L, R, prefix, suffix, c) ==
              Rest(prefix, L[c.le].value + suffix, Joined(L[c.ls..c.le]), "", c.(le := c.le - 1, rightDone := true))
  {
    EmptyMiddle(R, c.rs);
    RemaindersBy(L, R, prefix, L[c.le].value + suffix, c.(le := c.le - 1, rightDone := true), c.ls, c.le, c.rs, c.rs);
  }

  lemma RightSuffixCovers(L: seq<Segment>, R: seq<Segment>, prefix: string, suffix: string, c: Cursor)
    requires Ends(L, R, prefix, suffix, c) && c.rs == c.re && c.ls != c.le && RightUse(L, R, c).InSuffix?
    ensures Covers(AfterLoop(L, R, prefix, suffix, c), Joined(L), Joined(R))
  {
    UsedInSuffix(R, L, prefix, suffix, c.re, c.ls, c.le);
    RightSuffixRest(L, R, prefix, suffix, c);
    CoversBy(AfterLoop(L, R, prefix, suffix, c), Joined(L), Joined(R), prefix, L[c.le].value + suffix, Joined(L[c.ls..c.le]), "",
             c.(le := c.le - 1, rightDone := true));
  }

  lemma RightPrefixRest(L: seq<Segment>, R: seq<Segment>, prefix: string, suffix: string, c: Cursor, ls: nat, le: nat)
    requires InRange(L, R, c) && !c.leftDone && c.rs == c.re && c.ls != c.le && RightUse(L, R, c).InPrefix?
    requires ls == c.ls + 1 && le == c.le + 1
    ensures AfterLoop(L, R, prefix, suffix, c) ==
              Rest(prefix + L[c.ls].value, suffix, Joined(L[ls..le]), "", c.(ls := ls, rightDone := true))
  {
    EmptyMiddle(R, c.rs);
    RemaindersBy(L, R, prefix + L[c.ls].value, suffix, c.(ls := ls, rightDone := true), ls, le, c.rs, c.rs);
  }

  lemma RightPrefixCovers(L: seq<Segment>, R: seq<Segment>, prefix: string, suffix: string, c: Cursor)
    requires Ends(L, R, prefix, suffix, c) && c.rs == c.re && c.ls != c.le && RightUse(L, R, c).InPrefix?
    ensures Covers(AfterLoop(L, R, prefix, suffix, c), Joined(L), Joined(R))
  {
    var ls, le := c.ls + 1, c.le + 1;
    UsedInPrefix(R, L, prefix, suffix, c.re, c.ls, ls, le);
    RightPrefixRest(L, R, prefix, suffix, c, ls, le);
    CoversBy(AfterLoop(L, R, prefix, suffix, c), Joined(L), Joined(R), prefix + L[c.ls].value, suffix, Joined(L[ls..le]), "",
             c.(ls := ls, rightDone := true));
  }

  lemma LeftUseCovers(L: seq<Segment>, R: seq<Segment>, prefix: string, suffix: string, c: Cursor)
    requires Built(L, R, prefix, suffix, c) && c.ls == c.le && c.rs != c.re && !c.leftDone
    requires !LeftUse(L, R, c).Nothing?
    ensures Covers(AfterLoop(L, R, prefix, suffix, c), Joined(L), Joined(R))
  {
    BothEnds(L, R, prefix, suffix, c, c.le + 1, c.re + 1);
    if LeftUse(L, R, c).InSuffix? {
      LeftSuffixCovers(L, R, prefix, suffix, c);
    } else {
      LeftPrefixCovers(L, R, prefix, suffix, c);
    }
  }

  lemma RightUseCovers(L: seq<Segment>, R: seq<Segment>, prefix: string, suffix: string, c: Cursor)
    requires Built(L, R, prefix, suffix, c) && c.rs == c.re && c.ls != c.le && !c.rightDone
    requires !RightUse(L, R, c).Nothing?
    ensures Covers(AfterLoop(L, R, prefix, suffix, c), Joined(L), Joined(R))
  {
    BothEnds(L, R, prefix, suffix, c, c.le + 1, c.re + 1);
    if RightUse(L, R, c).InSuffix? {
      RightSuffixCovers(L, R, prefix, suffix, c);
    } else {
      RightPrefixCovers(L, R, prefix, suffix, c);
    }
  }

  lemma BothUseCovers(L: seq<Segment>, R: seq<Segment>, prefix: string, suffix: string, c: Cursor)
    requires Built(L, R, prefix, suffix, c) && c.rs == c.re && c.ls == c.le && !c.leftDone && !c.rightDone
    requires BothUse(L, R, c)
    ensures Covers(AfterLoop(L, R, prefix, suffix, c), Joined(L), Joined(R))
  {
    SingleMiddle(L, c.ls);
    SingleMiddle(R, c.rs);
    EmptyMiddle(L, c.ls);
    EmptyMiddle(R, c.rs);
    EmptyCovers(prefix, L[c.ls].value, suffix);
  }

  /** Both sides used up: the texts are equal. */
  lemma BothDone(L: seq<Segment>, R: seq<Segment>, prefix: string, suffix: string, c: Cursor)
    requires Built(L, R, prefix, suffix, c) && c.leftDone && c.rightDone
    ensures var r := AfterLoop(L, R, prefix, suffix, c); r.left == "" && r.right == "" && Joined(L) == Joined(R)
  {
    EmptyMiddle(L, c.ls);
    EmptyMiddle(R, c.rs);
    JoinedSplit(L, c.ls);
    JoinedSplit(R, c.rs);
  }

  lemma NoReuseCovers(L: seq<Segment>, R: seq<Segment>, prefix: string, suffix: string, c: Cursor)
    requires Built(L, R, prefix, suffix, c) && !ReusesAt(L, R, c) && !(c.leftDone && c.rightDone)
    ensures Covers(AfterLoop(L, R, prefix, suffix, c), Joined(L), Joined(R))
  {
    PlainCovers(L, R, prefix, suffix, c);
    if c.ls == c.le && c.rs != c.re {
      if !LeftUse(L, R, c).Nothing? { LeftUseCovers(L, R, prefix, suffix, c); }
    } else if c.rs == c.re && c.ls != c.le {
      if !RightUse(L, R, c).Nothing? { RightUseCovers(L, R, prefix, suffix, c); }
    } else if c.ls == c.le && c.rs == c.re && BothUse(L, R, c) {
      BothUseCovers(L, R, prefix, suffix, c);
    }
  }

  lemma FinishedReconstructs(r: Rest, p: nat, q: nat, left: string, right: string)
    requires Covers(r, left, right) && Common(r.left, r.right, p, q)
    ensures Reconstructs(Finished(r, p, q, left), left, right)
  {
    if r.left[p..|r.left| - q] == "" && r.right[p..|r.right| - q] == "" {
      FinishedWhole(r, p, q, left, right);
    } else {
      Reassemble(r.prefix, r.left, r.right, r.suffix, p, q);
      Assembled(r, p, q, left, right);
    }
  }

  lemma FinishedWhole(r: Rest, p: nat, q: nat, left: string, right: string)
    requires Covers(r, left, right) && Common(r.left, r.right, p, q)
    requires r.left[p..|r.left| - q] == "" && r.right[p..|r.right| - q] == ""
    ensures Reconstructs(Finished(r, p, q, left), left, right)
  {
    NothingBetween(r.left, r.right, p, q);
    NothingAdded(left);
  }

  lemma Assembled(r: Rest, p: nat, q: nat, left: string, right: string)
    requires Covers(r, left, right) && p + q <= |r.left| && p + q <= |r.right|
    requires !(r.left[p..|r.left| - q] == "" && r.right[p..|r.right| - q] == "")
    requires (r.prefix + r.left[..p]) + r.left[p..|r.left| - q] + (r.left[|r.left| - q..] + r.suffix) == r.prefix + r.left + r.suffix
    requires (r.prefix + r.left[..p]) + r.right[p..|r.right| - q] + (r.left[|r.left| - q..] + r.suffix) == r.prefix + r.right + r.suffix
    ensures Reconstructs(Finished(r, p, q, left), left, right)
  {
  }

  lemma Reassemble(prefix: string, a: string, b: string, suffix: string, p: nat, q: nat)
    requires Common(a, b, p, q)
    ensures (prefix + a[..p]) + a[p..|a| - q] + (a[|a| - q..] + suffix) == prefix + a + suffix
    ensures (prefix + a[..p]) + b[p..|b| - q] + (a[|a| - q..] + suffix) == prefix + b + suffix
  {
    ThreeParts(prefix, a, suffix, p, q);
    ThreeParts(prefix, b, suffix, p, q);
  }

  lemma NothingAdded(s: string)
    ensures s + "" + "" == s
  {
  }

  lemma NothingBetween(a: string, b: string, p: nat, q: nat)
    requires Common(a, b, p, q) && a[p..|a| - q] == "" && b[p..|b| - q] == ""
    ensures a == b
  {
    assert a == a[..p] + a[|a| - q..] && b == b[..p] + b[|b| - q..];
  }

  lemma ThreeParts(prefix: string, t: string, suffix: string, p: nat, q: nat)
    requires p + q <= |t|
    ensures (prefix + t[..p]) + t[p..|t| - q] + (t[|t| - q..] + suffix) == prefix + t + suffix
  {
    assert t == t[..p] + t[p..|t| - q] + t[|t| - q..];
  }

  ghost predicate NonEmpty(s: seq<Segment>) { forall i :: 0 <= i < |s| ==> s[i].value != "" }

  lemma {:induction false} SegmentsAreNonEmpty(text: string)
    ensures NonEmpty(Segmented(text)) && (text == "" <==> Segmented(text) == [])
    decreases |text|
  {
    if text != "" {
      var rest := text[|Head(text).value|..];
      SegmentsAreNonEmpty(rest);
      assert forall i :: 0 < i < |Segmented(text)| ==> Segmented(text)[i] == Segmented(rest)[i - 1];
    }
  }

  lemma JoinedNonEmpty(s: seq<Segment>, i: nat, j: nat)
    requires NonEmpty(s) && i < j <= |s|
    ensures Joined(s[i..j]) != ""
  {
    assert s[i..j][0] == s[i];
  }

  /** The ends of a side that is used up are the whole side. */
  lemma UsedUp(s: seq<Segment>, i: nat, prefix: string, suffix: string)
    requires i <= |s| && prefix == Joined(s[..i]) && suffix == Joined(s[i..])
    ensures |Joined(s)| == |prefix| + |suffix|
  {
    JoinedSplit(s, i);
  }

  /** Using a segment again makes the kept text longer. */
  lemma ReuseAdds(L: seq<Segment>, R: seq<Segment>, prefix: string, suffix: string, c: Cursor)
    requires InRange(L, R, c) && NonEmpty(L) && NonEmpty(R)
    requires || (c.ls == c.le && c.rs != c.re && !LeftUse(L, R, c).Nothing?)
             || (c.rs == c.re && c.ls != c.le && !RightUse(L, R, c).Nothing?)
    ensures var r := AfterLoop(L, R, prefix, suffix, c); |r.prefix| + |r.suffix| > |prefix| + |suffix|
  {
  }

  /** What is left then: nothing on the side that has run out, something on the other. */
  lemma LeftReuseRest(L: seq<Segment>, R: seq<Segment>, prefix: string, suffix: string, c: Cursor)
    requires InRange(L, R, c) && NonEmpty(R) && c.leftDone && c.ls == c.le && c.rs != c.re && !LeftUse(L, R, c).Nothing?
    ensures var r := AfterLoop(L, R, prefix, suffix, c); r.left == "" && r.right != ""
  {
    EmptyMiddle(L, c.ls);
    JoinedNonEmpty(R, c.rs, c.re);
    JoinedNonEmpty(R, c.rs + 1, c.re + 1);
  }

  lemma RightReuseRest(L: seq<Segment>, R: seq<Segment>, prefix: string, suffix: string, c: Cursor)
    requires InRange(L, R, c) && NonEmpty(L) && c.rightDone && c.rs == c.re && c.ls != c.le && !RightUse(L, R, c).Nothing?
    ensures var r := AfterLoop(L, R, prefix, suffix, c); r.right == "" && r.left != ""
  {
    EmptyMiddle(R, c.rs);
    JoinedNonEmpty(L, c.ls, c.le);
    JoinedNonEmpty(L, c.ls + 1, c.le + 1);
  }

  /** A second use on the left lengthens what surrounds an empty left remainder. */
  lemma LeftReuseBreaks(L: seq<Segment>, R: seq<Segment>, prefix: string, suffix: string, c: Cursor)
    requires Built(L, R, prefix, suffix, c) && NonEmpty(L) && NonEmpty(R)
    requires c.leftDone && c.rs != c.re && !LeftUse(L, R, c).Nothing?
    ensures var r := AfterLoop(L, R, prefix, suffix, c);
            r.left == "" && r.right != "" && |r.prefix| + |r.suffix| > |Joined(L)|
  {
    BothEnds(L, R, prefix, suffix, c, c.ls, RightTail(c));
    UsedUp(L, c.ls, prefix, suffix);
    ReuseAdds(L, R, prefix, suffix, c);
    LeftReuseRest(L, R, prefix, suffix, c);
  }

  lemma RightReuseBreaks(L: seq<Segment>, R: seq<Segment>, prefix: string, suffix: string, c: Cursor)
    requires Built(L, R, prefix, suffix, c) && NonEmpty(L) && NonEmpty(R)
    requires c.rightDone && c.ls != c.le && !RightUse(L, R, c).Nothing?
    ensures var r := AfterLoop(L, R, prefix, suffix, c);
            r.right == "" && r.left != "" && |r.prefix| + |r.suffix| > |Joined(R)|
  {
    BothEnds(L, R, prefix, suffix, c, LeftTail(c), c.rs);
    UsedUp(R, c.rs, prefix, suffix);
    ReuseAdds(L, R, prefix, suffix, c);
    RightReuseRest(L, R, prefix, suffix, c);
  }

  lemma BothReuseBreaks(L: seq<Segment>, R: seq<Segment>, prefix: string, suffix: string, c: Cursor)
    requires Built(L, R, prefix, suffix, c) && NonEmpty(L) && NonEmpty(R)
    requires c.leftDone != c.rightDone && c.ls == c.le && c.rs == c.re && BothUse(L, R, c)
    ensures var r := AfterLoop(L, R, prefix, suffix, c); r.left == "" && r.right == ""
    ensures Joined(L) != Joined(R)
  {
    EmptyMiddle(L, c.ls);
    EmptyMiddle(R, c.rs);
    JoinedSplit(L, c.ls);
    JoinedSplit(R, c.rs);
    if c.leftDone { SuffixGrows(R, c.rs); } else { SuffixGrows(L, c.ls); }
    BothEnds(L, R, prefix, suffix, c, LeftTail(c), RightTail(c));
  }

  lemma ReuseBreaks(left: string, right: string, prefix: string, suffix: string, c: Cursor, p: nat, q: nat)
    requires Built(Segmented(left), Segmented(right), prefix, suffix, c) && ReusesAt(Segmented(left), Segmented(right), c)
    requires var r := AfterLoop(Segmented(left), Segmented(right), prefix, suffix, c); Common(r.left, r.right, p, q)
    ensures var r := AfterLoop(Segmented(left), Segmented(right), prefix, suffix, c);
            !Reconstructs(Finished(r, p, q, left), left, right)
  {
    var L, R := Segmented(left), Segmented(right);
    JoinSegmented(left);
    JoinSegmented(right);
    SegmentsAreNonEmpty(left);
    SegmentsAreNonEmpty(right);
    var r := AfterLoop(L, R, prefix, suffix, c);
    if c.rs != c.re {
      LeftReuseBreaks(L, R, prefix, suffix, c);
      LeftTooLong(r, p, q, left, right);
    } else if c.ls != c.le {
      RightReuseBreaks(L, R, prefix, suffix, c);
      RightTooLong(r, p, q, left, right);
    } else {
      BothReuseBreaks(L, R, prefix, suffix, c);
      BothEmpty(r, p, q, left, right);
    }
  }

  /** More is taken for the ends than the left text has. */
  lemma LeftTooLong(r: Rest, p: nat, q: nat, left: string, right: string)
    requires Common(r.left, r.right, p, q) && r.left == "" && r.right != "" && |r.prefix| + |r.suffix| > |left|
    ensures !Reconstructs(Finished(r, p, q, left), left, right)
  {
    var s := Finished(r, p, q, left);
    assert |s.prefix + s.left + s.suffix| == |s.prefix| + |s.left| + |s.suffix|;
  }

  lemma RightTooLong(r: Rest, p: nat, q: nat, left: string, right: string)
    requires Common(r.left, r.right, p, q) && r.right == "" && r.left != "" && |r.prefix| + |r.suffix| > |right|
    ensures !Reconstructs(Finished(r, p, q, left), left, right)
  {
    var s := Finished(r, p, q, left);
    assert |s.prefix + s.right + s.suffix| == |s.prefix| + |s.right| + |s.suffix|;
  }

  lemma BothEmpty(r: Rest, p: nat, q: nat, left: string, right: string)
    requires Common(r.left, r.right, p, q) && r.left == "" && r.right == "" && left != right
    ensures !Reconstructs(Finished(r, p, q, left), left, right)
  {
    NothingAdded(left);
  }

  lemma NoReuseReconstructs(left: string, right: string, prefix: string, suffix: string, c: Cursor, p: nat, q: nat)
    requires Built(Segmented(left), Segmented(right), prefix, suffix, c) && !ReusesAt(Segmented(left), Segmented(right), c)
    requires var r := AfterLoop(Segmented(left), Segmented(right), prefix, suffix, c); Common(r.left, r.right, p, q)
    ensures var r := AfterLoop(Segmented(left), Segmented(right), prefix, suffix, c);
            Reconstructs(Finished(r, p, q, left), left, right)
  {
    var L, R := Segmented(left), Segmented(right);
    JoinSegmented(left);
    JoinSegmented(right);
    if c.leftDone && c.rightDone {
      BothDone(L, R, prefix, suffix, c);
      assert left + "" + "" == left;
    } else {
      NoReuseCovers(L, R, prefix, suffix, c);
      FinishedReconstructs(AfterLoop(L, R, prefix, suffix, c), p, q, left, right);
    }
  }

  /** The parts give both texts back if and only if no segment is used twice. */
  lemma SplitExact(left: string, right: string, prefix: string, suffix: string, c: Cursor, p: nat, q: nat)
    requires Segmented(left) != [] && Segmented(right) != []
    requires c == Narrowed(Segmented(left), Segmented(right), StartCursor(Segmented(left), Segmented(right)))
    requires Built(Segmented(left), Segmented(right), prefix, suffix, c)
    requires var r := AfterLoop(Segmented(left), Segmented(right), prefix, suffix, c); Common(r.left, r.right, p, q)
    ensures var r := AfterLoop(Segmented(left), Segmented(right), prefix, suffix, c);
            Reconstructs(Finished(r, p, q, left), left, right) <==> !Reuses(Segmented(left), Segmented(right))
  {
    if ReusesAt(Segmented(left), Segmented(right), c) {
      ReuseBreaks(left, right, prefix, suffix, c, p, q);
    } else {
      NoReuseReconstructs(left, right, prefix, suffix, c, p, q);
    }
  }

  // ----- nothing common is left over -----

  /** Why the loop stops. */
  ghost predicate Stopped(L: seq<Segment>, R: seq<Segment>, c: Cursor)
    requires InRange(L, R, c)
  {
    c.ls == c.le || c.rs == c.re || (L[c.ls] != R[c.rs] && L[c.le] != R[c.re])
  }

  lemma {:induction false} NarrowedStops(L: seq<Segment>, R: seq<Segment>, c: Cursor)
    requires InRange(L, R, c) && (c.ls != c.le && c.rs != c.re ==> !c.leftDone && !c.rightDone)
    ensures Stopped(L, R, Narrowed(L, R, c))
    decreases c.le - c.ls + (c.re - c.rs)
  {
    if c.ls != c.le && c.rs != c.re {
      var c' := StepEnd(L, R, StepStart(L, R, c));
      if c' != c {
        NarrowedStops(L, R, c');
      }
    }
  }

  /** When something remains on both sides nothing is used behind the loop, and the remainders begin and end differently. */
  lemma BothRemain(L: seq<Segment>, R: seq<Segment>, prefix: string, suffix: string, c: Cursor)
    requires InRange(L, R, c) && Stopped(L, R, c)
    requires var r := AfterLoop(L, R, prefix, suffix, c); r.left != "" && r.right != ""
    ensures !c.leftDone && !c.rightDone && AfterLoop(L, R, prefix, suffix, c) == Remainders(L, R, prefix, suffix, c)
    ensures if c.ls == c.le && c.rs == c.re then L[c.ls] != R[c.rs] || L[c.ls].kind == Text
            else L[c.ls] != R[c.rs] && L[c.le] != R[c.re]
  {
    EmptyMiddle(L, c.ls);
    EmptyMiddle(R, c.rs);
  }

  lemma OneSegment(s: seq<Segment>, i: nat)
    requires i < |s|
    ensures Joined(s[i..i + 1]) == s[i].value
  {
    assert s[i..i + 1] == [s[i]];
    JoinedOne(s[i]);
  }

  /** What the code behind the loop ends with. */
  ghost predicate Ended(L: seq<Segment>, R: seq<Segment>, r: Rest, p: nat, q: nat) {
    && InRange(L, R, r.c) && Common(r.left, r.right, p, q)
    && Tight(r.left, r.right, BothText(L[r.c.ls], R[r.c.rs]), BothText(L[r.c.le], R[r.c.re]), p, q)
  }

  lemma CutHere(L: seq<Segment>, R: seq<Segment>, r: Rest, p: nat, q: nat, left: string)
    requires Ended(L, R, r, p, q) && Finished(r, p, q, left).left != ""
    ensures CutOff(Finished(r, p, q, left), r.prefix, r.left, r.right, r.suffix,
                   BothText(L[r.c.ls], R[r.c.rs]), BothText(L[r.c.le], R[r.c.re]), p, q)
  {
  }

  lemma RemainAligned(L: seq<Segment>, R: seq<Segment>, c: Cursor, i: nat, j: nat, k: nat, m: nat)
    requires InRange(L, R, c) && Matched(L, R, c) && !c.leftDone && !c.rightDone
    requires L[c.ls] != R[c.rs] && L[c.le] != R[c.re]
    requires i == c.ls && j == |L| - 1 - c.le && k == |L| - j && m == |R| - j
    ensures SameEnds(L, R, i, j) && k == c.le + 1 && m == c.re + 1 && i == c.rs && |R| - 1 - j == c.re && |L| - 1 - j == c.le
  {
    assert |L[..c.ls]| == |R[..c.rs]| && |L[c.le + 1..]| == |R[c.re + 1..]|;
  }

  /** Equal text on both sides is cut off entirely. */
  lemma EqualTextIsCut(L: seq<Segment>, R: seq<Segment>, r: Rest, p: nat, q: nat, left: string)
    requires Ended(L, R, r, p, q) && r.left == r.right && BothText(L[r.c.le], R[r.c.re])
    ensures Finished(r, p, q, left).left == ""
  {
  }

  lemma RestAligned(L: seq<Segment>, R: seq<Segment>, c: Cursor, i: nat, j: nat, k: nat, m: nat, r: Rest, p: nat, q: nat,
                    left: string)
    requires SameEnds(L, R, i, j) && InRange(L, R, c)
    requires i == c.ls == c.rs && k == c.le + 1 == |L| - j && m == c.re + 1 == |R| - j
    requires r == Rest(Joined(L[..i]), Joined(L[k..]), Joined(L[i..k]), Joined(R[i..m]), c)
    requires Ended(L, R, r, p, q) && Finished(r, p, q, left).left != ""
    ensures Aligned(L, R, Finished(r, p, q, left))
  {
    CutHere(L, R, r, p, q, left);
    assert AlignedAt(L, R, Finished(r, p, q, left), i, j, k, m, p, q);
  }

  lemma SplitAligned(left: string, L: seq<Segment>, R: seq<Segment>, prefix: string, suffix: string, c: Cursor,
                     p: nat, q: nat, r: Rest)
    requires Built(L, R, prefix, suffix, c) && Stopped(L, R, c) && r == AfterLoop(L, R, prefix, suffix, c)
    requires Ended(L, R, r, p, q) && Finished(r, p, q, left).left != "" && Finished(r, p, q, left).right != ""
    ensures Aligned(L, R, Finished(r, p, q, left))
  {
    BothRemain(L, R, prefix, suffix, c);
    RemainsBy(L, R, prefix, suffix, c, r);
    if L[c.ls] == R[c.rs] && c.ls == c.le && c.rs == c.re {
      OneSegment(L, c.ls);
      OneSegment(R, c.rs);
      EqualTextIsCut(L, R, r, p, q, left);
    }
    var i, j, k, m := c.ls, |L| - 1 - c.le, c.le + 1, c.re + 1;
    RemainAligned(L, R, c, i, j, k, |R| - j);
    RestAligned(L, R, c, i, j, k, m, r, p, q, left);
  }

  lemma RemainsBy(L: seq<Segment>, R: seq<Segment>, prefix: string, suffix: string, c: Cursor, r: Rest)
    requires Built(L, R, prefix, suffix, c) && !c.leftDone && !c.rightDone && r == Remainders(L, R, prefix, suffix, c)
    ensures r == Rest(Joined(L[..c.ls]), Joined(L[c.le + 1..]), Joined(L[c.ls..c.le + 1]), Joined(R[c.rs..c.re + 1]), c)
  {
    var lt, rt := c.le + 1, c.re + 1;
    BothEnds(L, R, prefix, suffix, c, lt, rt);
    RemaindersBy(L, R, prefix, suffix, c, c.ls, lt, c.rs, rt);
  }

  lemma SplitFacts(left: string, right: string, prefix: string, suffix: string, c: Cursor, p: nat, q: nat, s: Split)
    requires var L, R := Segmented(left), Segmented(right);
             && L != [] && R != [] && c == Narrowed(L, R, StartCursor(L, R)) && Built(L, R, prefix, suffix, c)
             && Ended(L, R, AfterLoop(L, R, prefix, suffix, c), p, q)
             && s == Finished(AfterLoop(L, R, prefix, suffix, c), p, q, left)
    requires var L, R := Segmented(left), Segmented(right);
             var r := AfterLoop(L, R, prefix, suffix, c);
             BothText(L[r.c.le], R[r.c.re]) && r.left == r.right ==> p + q == |r.left|
    ensures Reconstructs(s, left, right) <==> !Reuses(Segmented(left), Segmented(right))
    ensures s.left != "" && s.right != "" ==> Aligned(Segmented(left), Segmented(right), s)
    ensures OneInMany(Segmented(left), Segmented(right), s)
    ensures left == right ==> s == Split(left, "", "", "")
  {
    SegmentsAreNonEmpty(left);
    SegmentsAreNonEmpty(right);
    OneInManyFound(Segmented(left), Segmented(right), c, prefix, suffix, p, q, left, s);
    SplitExact(left, right, prefix, suffix, c, p, q);
    if s.left != "" && s.right != "" {
      NarrowedStops(Segmented(left), Segmented(right), StartCursor(Segmented(left), Segmented(right)));
      SplitAligned(left, Segmented(left), Segmented(right), prefix, suffix, c, p, q,
                   AfterLoop(Segmented(left), Segmented(right), prefix, suffix, c));
    }
    if left == right {
      SelfSplit(left, c, prefix, suffix, p, q);
    }
  }

  lemma WholeText(s: string, n: nat)
    requires n == |s|
    ensures s[0..n] == s && s[..0] == "" && s[n..] == "" && s + "" == s && "" + s == s
  {
  }

  lemma NothingCut(r: Rest, left: string)
    requires (r.left == "") != (r.right == "")
    ensures Finished(r, 0, 0, left) == Split(r.prefix, r.suffix, r.left, r.right)
  {
    WholeText(r.left, |r.left|);
    WholeText(r.right, |r.right|);
    WholeText(r.prefix, |r.prefix|);
    WholeText(r.suffix, |r.suffix|);
  }

  /** A remainder that is empty leaves nothing to compare. */
  lemma OneSideLeft(r: Rest, p: nat, q: nat, left: string)
    requires p + q <= |r.left| && p + q <= |r.right| && (r.left == "") != (r.right == "")
    ensures Finished(r, p, q, left) == Split(r.prefix, r.suffix, r.left, r.right)
  {
    NothingCut(r, left);
  }

  lemma OneLeft(L: seq<Segment>, R: seq<Segment>, c: Cursor, r: Rest)
    requires |L| == 1 && |R| > 1 && NonEmpty(R) && c == StartCursor(L, R) && r == AfterLoop(L, R, "", "", c)
    ensures L[0] == R[|R| - 1] ==> r.right != "" && r == Rest("", L[0].value, "", Joined(R[..|R| - 1]), r.c)
    ensures L[0] != R[|R| - 1] && L[0] == R[0] ==> r.right != "" && r == Rest(L[0].value, "", "", Joined(R[1..]), r.c)
  {
    EmptyMiddle(L, 0);
    JoinedNonEmpty(R, 0, |R| - 1);
    JoinedNonEmpty(R, 1, |R|);
    assert R[0..|R| - 1] == R[..|R| - 1] && R[1..|R|] == R[1..];
    assert "" + L[0].value == L[0].value == L[0].value + "";
  }

  lemma OneRight(L: seq<Segment>, R: seq<Segment>, c: Cursor, r: Rest)
    requires |R| == 1 && |L| > 1 && NonEmpty(L) && c == StartCursor(L, R) && r == AfterLoop(L, R, "", "", c)
    ensures R[0] == L[|L| - 1] ==> r.left != "" && r == Rest("", R[0].value, Joined(L[..|L| - 1]), "", r.c)
    ensures R[0] != L[|L| - 1] && R[0] == L[0] ==> r.left != "" && r == Rest(R[0].value, "", Joined(L[1..]), "", r.c)
  {
    EmptyMiddle(R, 0);
    JoinedNonEmpty(L, 0, |L| - 1);
    JoinedNonEmpty(L, 1, |L|);
    assert L[0..|L| - 1] == L[..|L| - 1] && L[1..|L|] == L[1..];
    assert "" + R[0].value == R[0].value == R[0].value + "";
  }

  lemma OneInManyFound(L: seq<Segment>, R: seq<Segment>, c: Cursor, prefix: string, suffix: string, p: nat, q: nat,
                       left: string, s: Split)
    requires L != [] && R != [] && NonEmpty(L) && NonEmpty(R) && c == Narrowed(L, R, StartCursor(L, R))
    requires Built(L, R, prefix, suffix, c)
    requires var r := AfterLoop(L, R, prefix, suffix, c); Common(r.left, r.right, p, q) && s == Finished(r, p, q, left)
    ensures OneInMany(L, R, s)
  {
    var r := AfterLoop(L, R, prefix, suffix, c);
    if |L| == 1 && |R| > 1 && (L[0] == R[|R| - 1] || L[0] == R[0]) {
      assert prefix == "" && suffix == "";
      OneLeft(L, R, c, r);
      OneSideLeft(r, p, q, left);
    } else if |R| == 1 && |L| > 1 && (R[0] == L[|L| - 1] || R[0] == L[0]) {
      assert prefix == "" && suffix == "";
      OneRight(L, R, c, r);
      OneSideLeft(r, p, q, left);
    }
  }

  // ----- texts without markers -----

  predicate NoMarker(text: string) {
    forall i, j :: 0 <= i < j < |text| && IsOpener(text[i]) ==> !IsCloser(text[i], text[j])
  }

  /** `n` characters are the longest common prefix. */
  ghost predicate IsPrefix(a: string, b: string, n: nat) {
    n <= |a| && n <= |b| && a[..n] == b[..n] && (n < |a| && n < |b| ==> a[n] != b[n])
  }

  /** `n` characters are the longest common suffix. */
  ghost predicate IsSuffix(a: string, b: string, n: nat) {
    n <= |a| && n <= |b| && a[|a| - n..] == b[|b| - n..] && (n < |a| && n < |b| ==> a[|a| - 1 - n] != b[|b| - 1 - n])
  }

  /** The longest common suffix, and the longest common prefix of what is in front of it. */
  ghost predicate InCommon(a: string, b: string, n: nat, q: nat) {
    IsSuffix(a, b, q) && IsPrefix(a[..|a| - q], b[..|b| - q], n)
  }

  /** What differs neither begins nor ends alike, and the rest is as long as what the texts have in common. */
  ghost predicate PlainSplit(s: Split, left: string, right: string) {
    && Reconstructs(s, left, right)
    && (s.left != "" && s.right != "" ==>
          s.left[0] != s.right[0] && s.left[|s.left| - 1] != s.right[|s.right| - 1])
    && forall n: nat, q: nat :: InCommon(left, right, n, q) ==> |s.prefix| + |s.suffix| == n + q
  }

  ghost predicate AllText(s: seq<Segment>) { forall i :: 0 <= i < |s| ==> s[i].kind == Text }

  lemma UnclosedText(text: string)
    requires NoMarker(text) && text != "" && IsOpener(text[0])
    ensures Segmented(text) == [Segment(Text, text)]
  {
    HeadUnclosed(text);
    assert text[|text|..] == "";
  }

  /** Such a text is at most a text without openers and one that begins with an opener. */
  lemma NoMarkerSegments(text: string)
    ensures NoMarker(text) ==> AllText(Segmented(text)) && Distinct(Segmented(text))
  {
    if NoMarker(text) && text != "" {
      if IsOpener(text[0]) {
        UnclosedText(text);
      } else {
        var k := FindOpener(text, 1);
        HeadText(text, k);
        var rest := text[k..];
        if rest != "" {
          assert rest[0] == text[k] && forall j :: 0 <= j < |rest| ==> rest[j] == text[k + j];
          UnclosedText(rest);
        }
        assert Segmented(text) == [Segment(Text, text[..k])] + Segmented(rest);
      }
    }
  }

  lemma PrefixChar(a: string, b: string, n: nat, k: nat)
    requires k < n <= |a| && n <= |b| && a[..n] == b[..n]
    ensures a[k] == b[k]
  {
    assert a[..n][k] == a[k] && b[..n][k] == b[k];
  }

  lemma SuffixChar(a: string, b: string, n: nat, k: nat)
    requires k < n <= |a| && n <= |b| && a[|a| - n..] == b[|b| - n..]
    ensures a[|a| - 1 - k] == b[|b| - 1 - k]
  {
    assert a[|a| - n..][n - 1 - k] == a[|a| - 1 - k] && b[|b| - n..][n - 1 - k] == b[|b| - 1 - k];
  }

  lemma LongestPrefix(a: string, b: string, m: nat, n: nat)
    requires IsPrefix(a, b, m) && n <= |a| && n <= |b| && a[..n] == b[..n]
    ensures n <= m
  {
    if m < n {
      PrefixChar(a, b, n, m);
    }
  }

  lemma LongestSuffix(a: string, b: string, m: nat, n: nat)
    requires IsSuffix(a, b, m) && n <= |a| && n <= |b| && a[|a| - n..] == b[|b| - n..]
    ensures n <= m
  {
    if m < n {
      SuffixChar(a, b, n, m);
    }
  }

  lemma EndOf(front: string, end: string, t: string)
    requires t == front + end
    ensures |t| - |end| == |front| && t[|front|..] == end && t[..|front|] == front
  {
  }

  /** The common ends of two texts of which one is used up. */
  lemma UsedUpLength(a: string, b: string, prefix: string, suffix: string, middle: string, n: nat, q: nat)
    requires a == prefix + suffix && b == (prefix + middle) + suffix && InCommon(a, b, n, q)
    ensures n + q == |a|
  {
    EndOf(prefix, suffix, a);
    EndOf(prefix + middle, suffix, b);
    LongestSuffix(a, b, q, |suffix|);
    var x, y := a[..|a| - q], b[..|b| - q];
    var k := |x|;
    assert x[..k] == prefix[..k] == y[..k];
    LongestPrefix(x, y, n, k);
  }

  lemma InCommonTurned(a: string, b: string, n: nat, q: nat)
    requires InCommon(a, b, n, q)
    ensures InCommon(b, a, n, q)
  {
  }

  /** Where what remains ends differently nothing more is common. */
  lemma DifferentEnds(a: string, b: string, l: string, r: string, suffix: string, q: nat)
    requires a == l + suffix && b == r + suffix && l != "" && r != "" && l[|l| - 1] != r[|r| - 1] && IsSuffix(a, b, q)
    ensures q == |suffix|
  {
    EndOf(l, suffix, a);
    EndOf(r, suffix, b);
    LongestSuffix(a, b, q, |suffix|);
  }

  lemma DifferentStarts(a: string, b: string, prefix: string, l: string, r: string, n: nat)
    requires a == prefix + l && b == prefix + r && l != "" && r != "" && l[0] != r[0] && IsPrefix(a, b, n)
    ensures n == |prefix|
  {
    EndOf(prefix, l, a);
    EndOf(prefix, r, b);
    LongestPrefix(a, b, n, |prefix|);
    if n > |prefix| {
      PrefixChar(a, b, n, |prefix|);
    }
  }

  /** The common ends of two texts of which something different remains. */
  lemma DifferentLength(a: string, b: string, prefix: string, suffix: string, l: string, r: string, n: nat, q: nat)
    requires a == (prefix + l) + suffix && b == (prefix + r) + suffix && l != "" && r != ""
    requires l[0] != r[0] && l[|l| - 1] != r[|r| - 1] && InCommon(a, b, n, q)
    ensures n + q == |prefix| + |suffix|
  {
    DifferentEnds(a, b, prefix + l, prefix + r, suffix, q);
    EndOf(prefix + l, suffix, a);
    EndOf(prefix + r, suffix, b);
    DifferentStarts(a[..|a| - q], b[..|b| - q], prefix, l, r, n);
  }

  /** The first and last characters that remain differ where text meets text. */
  lemma CutOffDiffers(s: Split, prefix: string, l: string, r: string, suffix: string, p: nat, q: nat)
    requires CutOff(s, prefix, l, r, suffix, true, true, p, q) && s.left != "" && s.right != ""
    ensures s.left[0] != s.right[0] && s.left[|s.left| - 1] != s.right[|s.right| - 1]
  {
  }

  lemma TextEndsDiffer(L: seq<Segment>, R: seq<Segment>, s: Split)
    requires Aligned(L, R, s) && AllText(L) && AllText(R) && s.left != "" && s.right != ""
    ensures s.left[0] != s.right[0] && s.left[|s.left| - 1] != s.right[|s.right| - 1]
  {
    var i, j, k, m, p, q :| AlignedAt(L, R, s, i, j, k, m, p, q);
    var prefix, l, r, suffix := AlignedCut(L, R, s, i, j, k, m, p, q);
    CutOffDiffers(s, prefix, l, r, suffix, p, q);
  }

  lemma AlignedCut(L: seq<Segment>, R: seq<Segment>, s: Split, i: nat, j: nat, k: nat, m: nat, p: nat, q: nat)
    returns (prefix: string, l: string, r: string, suffix: string)
    requires AlignedAt(L, R, s, i, j, k, m, p, q) && AllText(L) && AllText(R)
    ensures CutOff(s, prefix, l, r, suffix, true, true, p, q)
  {
    prefix, l, r, suffix := Joined(L[..i]), Joined(L[i..k]), Joined(R[i..m]), Joined(L[k..]);
    assert BothText(L[i], R[i]) && BothText(L[k - 1], R[m - 1]);
  }

  /** The length follows from putting the texts together again and from what remains. */
  lemma PlainLength(s: Split, left: string, right: string, n: nat, q: nat)
    requires Reconstructs(s, left, right) && InCommon(left, right, n, q)
    requires s.left != "" && s.right != "" ==> s.left[0] != s.right[0] && s.left[|s.left| - 1] != s.right[|s.right| - 1]
    ensures |s.prefix| + |s.suffix| == n + q
  {
    if s.left == "" {
      assert s.prefix + "" == s.prefix;
      UsedUpLength(left, right, s.prefix, s.suffix, s.right, n, q);
    } else if s.right == "" {
      assert s.prefix + "" == s.prefix;
      InCommonTurned(left, right, n, q);
      UsedUpLength(right, left, s.prefix, s.suffix, s.left, n, q);
    } else {
      DifferentLength(left, right, s.prefix, s.suffix, s.left, s.right, n, q);
    }
  }

  lemma PlainAligned(s: Split, left: string, right: string, L: seq<Segment>, R: seq<Segment>)
    requires Distinct(L) && Distinct(R) && AllText(L) && AllText(R) && L != [] && R != []
    requires Reconstructs(s, left, right) <==> !Reuses(L, R)
    requires s.left != "" && s.right != "" ==> Aligned(L, R, s)
    ensures PlainSplit(s, left, right)
  {
    DistinctNeverReuses(L, R);
    if s.left != "" && s.right != "" {
      TextEndsDiffer(L, R, s);
    }
    forall n: nat, q: nat | InCommon(left, right, n, q) ensures |s.prefix| + |s.suffix| == n + q {
      PlainLength(s, left, right, n, q);
    }
  }

  /** An empty text has nothing in common with any. */
  lemma EmptySplit(left: string, right: string)
    requires left == "" || right == ""
    ensures PlainSplit(Split("", "", left, right), left, right)
  {
    WholeText(left, |left|);
    WholeText(right, |right|);
    forall n: nat, q: nat | InCommon(left, right, n, q) ensures n == 0 && q == 0 {
      assert q <= |left| && q <= |right| && n <= |left| - q && n <= |right| - q;
    }
  }

  // ----- a text against itself -----

  predicate Mirrored(c: Cursor) { c.ls == c.rs && c.le == c.re && c.leftDone == c.rightDone }

  lemma {:induction false} SelfNarrows(L: seq<Segment>, c: Cursor)
    requires InRange(L, L, c) && Mirrored(c) && (c.ls != c.le && c.rs != c.re ==> !c.leftDone && !c.rightDone)
    ensures var c' := Narrowed(L, L, c); Mirrored(c') && c'.ls == c'.le
    decreases c.le - c.ls
  {
    if c.ls != c.le {
      SelfNarrows(L, StepEnd(L, L, StepStart(L, L, c)));
    }
  }

  lemma SelfSplit(text: string, c: Cursor, prefix: string, suffix: string, p: nat, q: nat)
    requires Segmented(text) != []
    requires c == Narrowed(Segmented(text), Segmented(text), StartCursor(Segmented(text), Segmented(text)))
    requires var r := AfterLoop(Segmented(text), Segmented(text), prefix, suffix, c);
             && InRange(Segmented(text), Segmented(text), r.c)
             && Common(r.left, r.right, p, q)
             && (Segmented(text)[r.c.le].kind == Text && Segmented(text)[r.c.re].kind == Text && r.left == r.right
                 ==> p + q == |r.left|)
    ensures var r := AfterLoop(Segmented(text), Segmented(text), prefix, suffix, c);
            Finished(r, p, q, text) == Split(text, "", "", "")
  {
    var L := Segmented(text);
    SelfNarrows(L, StartCursor(L, L));
    EmptyMiddle(L, c.ls);
  }

  // ----- distinct segments are never used twice -----

  ghost predicate Distinct(s: seq<Segment>) { forall i, j :: 0 <= i < j < |s| ==> s[i] != s[j] }

  /** A used-up side was matched by the segment right behind what remains on the other side. */
  lemma {:induction false} DoneMeansMatched(L: seq<Segment>, R: seq<Segment>, c: Cursor)
    requires InRange(L, R, c) && (c.ls != c.le && c.rs != c.re ==> !c.leftDone && !c.rightDone)
    requires c.leftDone && !c.rightDone ==> c.re + 1 < |R| && L[c.ls] == R[c.re + 1]
    requires c.rightDone && !c.leftDone ==> c.le + 1 < |L| && R[c.rs] == L[c.le + 1]
    ensures var c' := Narrowed(L, R, c);
            && (c'.leftDone && !c'.rightDone ==> c'.re + 1 < |R| && L[c'.ls] == R[c'.re + 1])
            && (c'.rightDone && !c'.leftDone ==> c'.le + 1 < |L| && R[c'.rs] == L[c'.le + 1])
    decreases c.le - c.ls + (c.re - c.rs)
  {
    if c.ls != c.le && c.rs != c.re {
      var c' := StepEnd(L, R, StepStart(L, R, c));
      if c' != c {
        DoneMeansMatched(L, R, c');
      }
    }
  }

  /** Pairwise distinct segments on each side exclude the failing family. */
  lemma DistinctNeverReuses(L: seq<Segment>, R: seq<Segment>)
    requires L != [] && R != [] && Distinct(L) && Distinct(R)
    ensures !Reuses(L, R)
  {
    DoneMeansMatched(L, R, StartCursor(L, R));
  }

  // ----- the failing family is not empty -----

  /** `<a><b>` against `<a><c><b><b>`: the loop uses both `<b>` up, the branch after it takes another one. */
  lemma ReuseExample()
    ensures var a, b, c := Segment(Marker, "<a>"), Segment(Marker, "<b>"), Segment(Marker, "<c>");
            && Reuses([a, b], [a, c, b, b])
            && Segmented(Joined([a, b])) == [a, b] && Segmented(Joined([a, c, b, b])) == [a, c, b, b]
  {
    var a, b, c := Segment(Marker, "<a>"), Segment(Marker, "<b>"), Segment(Marker, "<c>");
    var L, R := [a, b], [a, c, b, b];
    var end := Cursor(1, 1, 1, 2, true, false);
    assert "<a>"[1] == 'a' && "<b>"[1] == 'b';
    assert StepStart(L, R, StartCursor(L, R)) == Cursor(1, 1, 1, 3, false, false);
    assert StepEnd(L, R, Cursor(1, 1, 1, 3, false, false)) == end;
    assert Narrowed(L, R, end) == end && Narrowed(L, R, StartCursor(L, R)) == Narrowed(L, R, end);
    MarkersAreCanonical(L);
    MarkersAreCanonical(R);
    SegmentRoundTripExactly(L);
    SegmentRoundTripExactly(R);
  }

  lemma {:induction false} MarkersAreCanonical(s: seq<Segment>)
    requires forall x :: x in s ==> x.kind == Marker && IsMarker(x.value)
    ensures Canonical(s)
  {
    if s != [] {
      assert s[0] in s && forall x :: x in s[1..] ==> x in s;
      MarkersAreCanonical(s[1..]);
    }
  }
}
