/** common/chat-auto-parser-helpers.cpp:252-282: cutting a text into markers and the text between them. */
module Segments {
  import opened Basics

  datatype Kind = Text | Marker
  datatype Segment = Segment(kind: Kind, value: string)

  predicate IsOpener(c: char) { c == '<' || c == '[' }

  predicate IsCloser(opener: char, c: char) { (opener == '<' && c == '>') || (opener == '[' && c == ']') }

  /** First position from `i` on that closes `opener`, or the length of the text. */
  function FindCloser(text: string, opener: char, i: nat): (k: nat)
    requires i <= |text|
    ensures i <= k <= |text| && (k < |text| ==> IsCloser(opener, text[k]))
    ensures forall j :: i <= j < k ==> !IsCloser(opener, text[j])
    decreases |text| - i
  {
    if i == |text| || IsCloser(opener, text[i]) then i else FindCloser(text, opener, i + 1)
  }

  /** First position from `i` on that opens a marker, or the length of the text. */
  function FindOpener(text: string, i: nat): (k: nat)
    requires i <= |text|
    ensures i <= k <= |text| && (k < |text| ==> IsOpener(text[k]))
    ensures forall j :: i <= j < k ==> !IsOpener(text[j])
    decreases |text| - i
  {
    if i == |text| || IsOpener(text[i]) then i else FindOpener(text, i + 1)
  }

  /** The first segment: a marker runs to its first closer; an unclosed one is text to the end. */
  function Head(text: string): (s: Segment)
    requires text != ""
    ensures s.value != "" && s.value <= text
  {
    if IsOpener(text[0]) then
      var k := FindCloser(text, text[0], 1);
      if k == |text| then Segment(Text, text) else Segment(Marker, text[..k + 1])
    else Segment(Text, text[..FindOpener(text, 1)])
  }

  function Segmented(text: string): seq<Segment>
    decreases |text|
  {
    if text == "" then [] else [Head(text)] + Segmented(text[|Head(text).value|..])
  }

  lemma HeadText(text: string, k: nat)
    requires 0 < k <= |text| && (k < |text| ==> IsOpener(text[k]))
    requires forall j :: 0 <= j < k ==> !IsOpener(text[j])
    ensures Head(text) == Segment(Text, text[..k])
  {
    var k' := FindOpener(text, 1);
    assert k' == k;
  }

  lemma HeadMarker(text: string, k: nat)
    requires 0 < k < |text| && IsOpener(text[0]) && IsCloser(text[0], text[k])
    requires forall j :: 1 <= j < k ==> !IsCloser(text[0], text[j])
    ensures Head(text) == Segment(Marker, text[..k + 1])
  {
    var k' := FindCloser(text, text[0], 1);
    assert k' == k;
  }

  lemma HeadUnclosed(text: string)
    requires text != "" && IsOpener(text[0])
    requires forall j :: 1 <= j < |text| ==> !IsCloser(text[0], text[j])
    ensures Head(text) == Segment(Text, text)
  {
    var k' := FindCloser(text, text[0], 1);
    assert k' == |text|;
  }

  /** `segmentize_markers` from position i on, with the last border and the marker flag of its loop. */
  function Scanned(text: string, i: nat, border: nat, inMarker: bool): seq<Segment>
    requires border <= i <= |text| && (inMarker ==> border < i)
    decreases |text| - i
  {
    if i == |text| then
      if border < |text| then [Segment(Text, text[border..])] else []
    else if !inMarker && IsOpener(text[i]) then
      (if border < i then [Segment(Text, text[border..i])] else []) + Scanned(text, i + 1, i, true)
    else if inMarker && IsCloser(text[border], text[i]) then
      [Segment(Marker, text[border..i + 1])] + Scanned(text, i + 1, i + 1, false)
    else Scanned(text, i + 1, border, inMarker)
  }

  /** `segmentize_markers`. */
  method SegmentizeMarkers(text: string) returns (segments: seq<Segment>)
    ensures segments == Segmented(text)
  {
    segments := [];
    var inMarker, lastBorder := false, 0;
    var opener := ' ';
    var i := 0;
    while i < |text|
      invariant 0 <= lastBorder <= i <= |text|
      invariant inMarker ==> lastBorder < i && opener == text[lastBorder]
      invariant segments + Scanned(text, i, lastBorder, inMarker) == Scanned(text, 0, 0, false)
    {
      if !inMarker && IsOpener(text[i]) {
        LoopOpens(text, i, lastBorder, segments);
        if lastBorder < i {
          segments := segments + [Segment(Text, text[lastBorder..i])];
        }
        lastBorder, inMarker, opener := i, true, text[i];
      } else if inMarker && IsCloser(opener, text[i]) {
        LoopCloses(text, i, lastBorder, segments);
        segments := segments + [Segment(Marker, text[lastBorder..i + 1])];
        lastBorder, inMarker := i + 1, false;
      }
      i := i + 1;
    }
    LoopEnds(text, lastBorder, inMarker, segments);
    if lastBorder < |text| {
      segments := segments + [Segment(Text, text[lastBorder..])];
    }
    ScannedAll(text);
  }

  lemma LoopOpens(text: string, i: nat, border: nat, segments: seq<Segment>)
    requires border <= i < |text| && IsOpener(text[i])
    ensures segments + Scanned(text, i, border, false) ==
              (if border < i then segments + [Segment(Text, text[border..i])] else segments) + Scanned(text, i + 1, i, true)
  {
    var rest := Scanned(text, i + 1, i, true);
    if border < i {
      Regrouped(segments, [Segment(Text, text[border..i])], rest);
    } else {
      assert [] + rest == rest;
    }
  }

  lemma LoopCloses(text: string, i: nat, border: nat, segments: seq<Segment>)
    requires border < i < |text| && IsCloser(text[border], text[i])
    ensures segments + Scanned(text, i, border, true) ==
              (segments + [Segment(Marker, text[border..i + 1])]) + Scanned(text, i + 1, i + 1, false)
  {
    Regrouped(segments, [Segment(Marker, text[border..i + 1])], Scanned(text, i + 1, i + 1, false));
  }

  lemma LoopEnds(text: string, border: nat, inMarker: bool, segments: seq<Segment>)
    requires border <= |text| && (inMarker ==> border < |text|)
    ensures segments + Scanned(text, |text|, border, inMarker) ==
              if border < |text| then segments + [Segment(Text, text[border..])] else segments
  {
  }

  lemma ScannedAll(text: string)
    ensures Scanned(text, 0, 0, false) == Segmented(text)
  {
    ScannedOutside(text, 0, 0);
    assert text[0..] == text;
  }

  // ----- the loop and the segments -----

  ghost predicate NoOpener(text: string, lo: nat, hi: nat)
    requires hi <= |text|
  {
    forall j :: lo <= j < hi ==> !IsOpener(text[j])
  }

  ghost predicate NoCloser(text: string, opener: char, lo: nat, hi: nat)
    requires hi <= |text|
  {
    forall j :: lo <= j < hi ==> !IsCloser(opener, text[j])
  }

  lemma SegmentedStep(text: string, h: Segment)
    requires text != "" && Head(text) == h
    ensures Segmented(text) == [h] + Segmented(text[|h.value|..])
  {
  }

  lemma EmitText(text: string, border: nat, next: nat)
    requires border < next <= |text| && (next < |text| ==> IsOpener(text[next])) && NoOpener(text, border, next)
    ensures Segmented(text[border..]) == [Segment(Text, text[border..next])] + Segmented(text[next..])
  {
    var t := text[border..];
    HeadText(t, next - border);
    SegmentedStep(t, Segment(Text, t[..next - border]));
    assert t[..next - border] == text[border..next] && t[next - border..] == text[next..];
  }

  lemma EmitMarker(text: string, border: nat, last: nat)
    requires border < last < |text| && IsOpener(text[border]) && IsCloser(text[border], text[last])
    requires NoCloser(text, text[border], border + 1, last)
    ensures Segmented(text[border..]) == [Segment(Marker, text[border..last + 1])] + Segmented(text[last + 1..])
  {
    var t, k := text[border..], last - border;
    assert t[0] == text[border] && t[k] == text[last] && forall j :: 0 <= j <= k ==> t[j] == text[border + j];
    HeadMarker(t, k);
    SegmentedStep(t, Segment(Marker, t[..k + 1]));
    assert t[..k + 1] == text[border..last + 1] && t[k + 1..] == text[last + 1..];
  }

  lemma EmitUnclosed(text: string, border: nat)
    requires border < |text| && IsOpener(text[border]) && NoCloser(text, text[border], border + 1, |text|)
    ensures Segmented(text[border..]) == [Segment(Text, text[border..])]
  {
    var t := text[border..];
    assert t[0] == text[border] && forall j :: 0 <= j < |t| ==> t[j] == text[border + j];
    HeadUnclosed(t);
    SegmentedStep(t, Segment(Text, t));
    assert t[|t|..] == "";
  }

  lemma OutsideEnds(text: string, border: nat)
    requires border <= |text| && NoOpener(text, border, |text|)
    ensures Scanned(text, |text|, border, false) == Segmented(text[border..])
  {
    var n := |text|;
    if border < n {
      EmitText(text, border, n);
      assert text[border..n] == text[border..] && text[n..] == "";
    } else {
      assert text[border..] == "";
    }
  }

  lemma OutsideOpens(text: string, i: nat, border: nat)
    requires border <= i < |text| && NoOpener(text, border, i) && IsOpener(text[i])
    requires Scanned(text, i + 1, i, true) == Segmented(text[i..])
    ensures Scanned(text, i, border, false) == Segmented(text[border..])
  {
    LoopOpens(text, i, border, []);
    assert [] + Scanned(text, i, border, false) == Scanned(text, i, border, false);
    if border < i {
      EmitText(text, border, i);
      assert [] + [Segment(Text, text[border..i])] == [Segment(Text, text[border..i])];
    } else {
      assert [] + Segmented(text[i..]) == Segmented(text[i..]);
    }
  }

  lemma OutsideStep(text: string, i: nat, border: nat)
    requires border <= i < |text| && !IsOpener(text[i])
    ensures Scanned(text, i, border, false) == Scanned(text, i + 1, border, false)
  {
  }

  lemma {:induction false} ScannedOutside(text: string, i: nat, border: nat)
    requires border <= i <= |text| && NoOpener(text, border, i)
    ensures Scanned(text, i, border, false) == Segmented(text[border..])
    decreases |text| - i, 1
  {
    if i == |text| {
      OutsideEnds(text, border);
    } else if IsOpener(text[i]) {
      OutsideToMarker(text, i, border);
    } else {
      OutsideGoesOn(text, i, border);
    }
  }

  lemma {:induction false} OutsideToMarker(text: string, i: nat, border: nat)
    requires border <= i < |text| && NoOpener(text, border, i) && IsOpener(text[i])
    ensures Scanned(text, i, border, false) == Segmented(text[border..])
    decreases |text| - i, 0
  {
    ScannedInside(text, i + 1, i);
    OutsideOpens(text, i, border);
  }

  lemma {:induction false} OutsideGoesOn(text: string, i: nat, border: nat)
    requires border <= i < |text| && NoOpener(text, border, i) && !IsOpener(text[i])
    ensures Scanned(text, i, border, false) == Segmented(text[border..])
    decreases |text| - i, 0
  {
    OutsideStep(text, i, border);
    ScannedOutside(text, i + 1, border);
  }

  lemma InsideEnds(text: string, border: nat)
    requires border < |text| && IsOpener(text[border]) && NoCloser(text, text[border], border + 1, |text|)
    ensures Scanned(text, |text|, border, true) == Segmented(text[border..])
  {
    EmitUnclosed(text, border);
  }

  /** The scan of a text that goes on behind a marker gives its segments. */
  ghost predicate Resumes(text: string, next: nat)
    requires next <= |text|
  {
    Scanned(text, next, next, false) == Segmented(text[next..])
  }

  lemma InsideCloses(text: string, i: nat, border: nat)
    requires border < i < |text| && IsOpener(text[border]) && NoCloser(text, text[border], border + 1, i)
    requires IsCloser(text[border], text[i]) && Resumes(text, i + 1)
    ensures Scanned(text, i, border, true) == Segmented(text[border..])
  {
    EmitMarker(text, border, i);
  }

  lemma InsideStep(text: string, i: nat, border: nat)
    requires border < i < |text| && !IsCloser(text[border], text[i])
    ensures Scanned(text, i, border, true) == Scanned(text, i + 1, border, true)
  {
  }

  lemma {:induction false} ScannedInside(text: string, i: nat, border: nat)
    requires border < i <= |text| && IsOpener(text[border]) && NoCloser(text, text[border], border + 1, i)
    ensures Scanned(text, i, border, true) == Segmented(text[border..])
    decreases |text| - i, 1
  {
    if i == |text| {
      InsideEnds(text, border);
    } else if IsCloser(text[border], text[i]) {
      InsideToText(text, i, border);
    } else {
      InsideGoesOn(text, i, border);
    }
  }

  lemma {:induction false} ResumesHere(text: string, next: nat)
    requires next <= |text|
    ensures Resumes(text, next)
    decreases |text| - next, 2
  {
    ScannedOutside(text, next, next);
  }

  lemma {:induction false} InsideToText(text: string, i: nat, border: nat)
    requires border < i < |text| && IsOpener(text[border]) && NoCloser(text, text[border], border + 1, i)
    requires IsCloser(text[border], text[i])
    ensures Scanned(text, i, border, true) == Segmented(text[border..])
    decreases |text| - i, 0
  {
    ResumesHere(text, i + 1);
    InsideCloses(text, i, border);
  }

  lemma {:induction false} InsideGoesOn(text: string, i: nat, border: nat)
    requires border < i < |text| && IsOpener(text[border]) && NoCloser(text, text[border], border + 1, i)
    requires !IsCloser(text[border], text[i])
    ensures Scanned(text, i, border, true) == Segmented(text[border..])
    decreases |text| - i, 0
  {
    NoCloserExtends(text, text[border], border + 1, i);
    InsideStep(text, i, border);
    ScannedInside(text, i + 1, border);
  }

  lemma NoCloserExtends(text: string, opener: char, lo: nat, i: nat)
    requires lo <= i < |text| && NoCloser(text, opener, lo, i) && !IsCloser(opener, text[i])
    ensures NoCloser(text, opener, lo, i + 1)
  {
  }

  // ----- what a marker is -----

  /** Text between angle or square brackets is a marker, whatever other brackets it holds. */
  lemma BracketsAreMarkers(body: string)
    ensures (forall i :: 0 <= i < |body| ==> body[i] != '>') ==>
              Segmented("<" + body + ">") == [Segment(Marker, "<" + body + ">")]
    ensures (forall i :: 0 <= i < |body| ==> body[i] != ']') ==>
              Segmented("[" + body + "]") == [Segment(Marker, "[" + body + "]")]
  {
    if forall i :: 0 <= i < |body| ==> body[i] != '>' {
      OneMarker("<" + body + ">", body);
    }
    if forall i :: 0 <= i < |body| ==> body[i] != ']' {
      OneMarker("[" + body + "]", body);
    }
  }

  lemma OneMarker(text: string, body: string)
    requires |text| == |body| + 2 && text[1..|text| - 1] == body && IsOpener(text[0]) && IsCloser(text[0], text[|text| - 1])
    requires forall i :: 0 <= i < |body| ==> !IsCloser(text[0], body[i])
    ensures Segmented(text) == [Segment(Marker, text)]
  {
    var k := |text| - 1;
    assert forall j :: 1 <= j < k ==> text[j] == body[j - 1];
    HeadMarker(text, k);
    assert text[..k + 1] == text && text[|text|..] == "";
  }

  /** Text without brackets that open a marker is one segment. */
  lemma PlainText(text: string)
    requires text != "" && forall i :: 0 <= i < |text| ==> text[i] != '<' && text[i] != '['
    ensures Segmented(text) == [Segment(Text, text)]
  {
    HeadText(text, |text|);
    assert text[..|text|] == text && text[|text|..] == "";
  }

  // ----- segmenting and joining undo each other -----

  function Joined(segments: seq<Segment>): string {
    if segments == [] then "" else segments[0].value + Joined(segments[1..])
  }

  lemma {:induction false} JoinedAppend(a: seq<Segment>, b: seq<Segment>)
    ensures Joined(a + b) == Joined(a) + Joined(b)
  {
    if a == [] {
      assert a + b == b;
    } else {
      assert (a + b)[1..] == a[1..] + b;
      JoinedAppend(a[1..], b);
    }
  }

  /** Joining the segments of any text gives the text back. */
  lemma {:induction false} JoinSegmented(text: string)
    ensures Joined(Segmented(text)) == text
    decreases |text|
  {
    if text != "" {
      var h := Head(text);
      JoinSegmented(text[|h.value|..]);
      assert Segmented(text)[1..] == Segmented(text[|h.value|..]);
    }
  }

  predicate IsMarker(v: string) {
    |v| >= 2 && IsOpener(v[0]) && IsCloser(v[0], v[|v| - 1]) && forall j :: 1 <= j < |v| - 1 ==> !IsCloser(v[0], v[j])
  }

  predicate IsPlainText(v: string) { v != "" && forall j :: 0 <= j < |v| ==> !IsOpener(v[j]) }

  predicate IsUnclosed(v: string) {
    v != "" && IsOpener(v[0]) && forall j :: 1 <= j < |v| ==> !IsCloser(v[0], v[j])
  }

  /** Markers that end at their first closer, opener-free texts between them, at most one unclosed marker at the end. */
  predicate Canonical(segments: seq<Segment>) {
    segments == [] ||
    var s, rest := segments[0], segments[1..];
    if s.kind == Marker then IsMarker(s.value) && Canonical(rest)
    else if IsUnclosed(s.value) then rest == []
    else IsPlainText(s.value) && Canonical(rest) && (rest == [] || (rest[0].value != "" && IsOpener(rest[0].value[0])))
  }

  lemma HeadIsCanonical(text: string)
    requires text != ""
    ensures var h := Head(text);
            if h.kind == Marker then IsMarker(h.value)
            else if IsUnclosed(h.value) then h.value == text
            else IsPlainText(h.value) && (|h.value| < |text| ==> IsOpener(text[|h.value|]))
  {
  }

  lemma {:induction false} SegmentedIsCanonical(text: string)
    ensures Canonical(Segmented(text))
    decreases |text|
  {
    if text != "" {
      var h := Head(text);
      var rest := text[|h.value|..];
      HeadIsCanonical(text);
      SegmentedIsCanonical(rest);
      assert Segmented(text)[1..] == Segmented(rest);
      if rest != "" {
        assert Head(rest).value[0] == rest[0] == text[|h.value|];
      }
    }
  }

  lemma HeadOfJoined(s: Segment, rest: string)
    requires s.kind == Marker ==> IsMarker(s.value)
    requires s.kind == Text && IsUnclosed(s.value) ==> rest == ""
    requires s.kind == Text && !IsUnclosed(s.value) ==> IsPlainText(s.value) && (rest == "" || IsOpener(rest[0]))
    ensures Head(s.value + rest) == s
  {
    var text := s.value + rest;
    assert text[..|s.value|] == s.value;
    if s.kind == Marker {
      HeadMarker(text, |s.value| - 1);
    } else if IsUnclosed(s.value) {
      assert text == s.value;
      HeadUnclosed(text);
    } else {
      HeadText(text, |s.value|);
    }
  }

  lemma {:induction false} SegmentJoined(segments: seq<Segment>)
    requires Canonical(segments)
    ensures Segmented(Joined(segments)) == segments
  {
    if segments != [] {
      var s, rest := segments[0], segments[1..];
      if rest != [] {
        assert Joined(rest) == rest[0].value + Joined(rest[1..]);
        SegmentJoined(rest);
      }
      HeadOfJoined(s, Joined(rest));
      var text := s.value + Joined(rest);
      assert text[|s.value|..] == Joined(rest);
      assert segments == [s] + rest;
    }
  }

  /** A list of segments survives joining and segmenting exactly when it is canonical. */
  lemma SegmentRoundTripExactly(segments: seq<Segment>)
    ensures Segmented(Joined(segments)) == segments <==> Canonical(segments)
  {
    if Canonical(segments) {
      SegmentJoined(segments);
    } else {
      SegmentedIsCanonical(Joined(segments));
    }
  }
}
