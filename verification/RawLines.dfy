/**
  common/console.cpp:365-448 and 497-527 on any bytes: the characters that `decode_utf8` finds in a line, and
  when they are those of the text the line encodes, or those that the cursor steps over.
  */
module RawLines {
  import opened Basics
  import opened Utf8

  /** What `decode_utf8` finds from `pos` on. */
  function CharsOf(line: seq<Byte>, pos: nat): seq<Decoded>
    requires pos <= |line|
    decreases |line| - pos
  {
    if pos == |line| then [] else var d := Decode(line, pos); [d] + CharsOf(line, pos + d.used)
  }

  lemma CharsStep(line: seq<Byte>, pos: nat, next: nat, d: Decoded)
    requires pos < |line| && d == Decode(line, pos) && next == pos + d.used
    ensures CharsOf(line, pos) == [d] + CharsOf(line, next)
  {
  }

  /** How many of the characters, which start at `pos`, end at or before the byte `cursor`; all when it is negative. */
  function Reached(chars: seq<Decoded>, pos: nat, cursor: int): (r: nat)
    ensures r <= |chars|
  {
    if chars == [] || 0 <= cursor < pos + chars[0].used then 0 else 1 + Reached(chars[1..], pos + chars[0].used, cursor)
  }

  /** Where the last of those ends. */
  function ReachedByte(chars: seq<Decoded>, pos: nat, cursor: int): nat {
    if chars == [] || 0 <= cursor < pos + chars[0].used then pos else ReachedByte(chars[1..], pos + chars[0].used, cursor)
  }

  // ----- lines that encode a text -----

  /** Writing the characters that are read gives the bytes back. */
  predicate ReEncodes(line: seq<Byte>, pos: nat)
    requires pos <= |line|
    decreases |line| - pos
  {
    pos == |line| ||
    (var d := Decode(line, pos); Encode(d.cp) == line[pos..pos + d.used] && ReEncodes(line, pos + d.used))
  }

  lemma {:induction false} ReEncodesFrom(line: seq<Byte>, pos: nat) returns (cps: seq<CodePoint>)
    requires pos <= |line| && ReEncodes(line, pos)
    ensures EncodeAll(cps) == line[pos..]
    decreases |line| - pos
  {
    if pos == |line| {
      cps := [];
    } else {
      var d := Decode(line, pos);
      var rest := ReEncodesFrom(line, pos + d.used);
      cps := ConsText(line, pos, pos + d.used, d.cp, rest);
    }
  }

  /** One more character in front of a text. */
  lemma ConsText(line: seq<Byte>, pos: nat, next: nat, cp: nat, rest: seq<CodePoint>) returns (cps: seq<CodePoint>)
    requires pos < next <= |line| && Encode(cp) == line[pos..next] && EncodeAll(rest) == line[next..]
    ensures EncodeAll(cps) == line[pos..]
  {
    assert |Encode(cp)| == next - pos;
    cps := [cp] + rest;
    assert cps[1..] == rest;
    assert line[pos..] == line[pos..next] + line[next..];
  }

  /** The first character of a text that is encoded behind `pre`, as it is read. */
  lemma HeadHere(pre: seq<Byte>, cps: seq<CodePoint>, line: seq<Byte>) returns (d: Decoded, e: seq<Byte>, next: nat)
    requires cps != [] && line == pre + EncodeAll(cps)
    ensures e == Encode(cps[0]) && next == |pre| + |e| && |pre| < next <= |line| && line == (pre + e) + EncodeAll(cps[1..])
    ensures d == Decode(line, |pre|) && d.cp == cps[0] && d.used == |e| && line[|pre|..next] == e
  {
    e := Encode(cps[0]);
    next := |pre| + |e|;
    EncodeShape(cps[0]);
    Regrouped(pre, e, EncodeAll(cps[1..]));
    assert line[|pre|..next] == e;
    DecodeEncode(line, |pre|, cps[0]);
    d := Decode(line, |pre|);
  }

  lemma ReEncodesStep(line: seq<Byte>, pos: nat, next: nat, d: Decoded)
    requires pos < next <= |line| && d == Decode(line, pos) && next == pos + d.used
    requires Encode(d.cp) == line[pos..next] && ReEncodes(line, next)
    ensures ReEncodes(line, pos)
  {
  }

  lemma {:induction false} EncodedReEncodes(pre: seq<Byte>, cps: seq<CodePoint>, line: seq<Byte>)
    requires line == pre + EncodeAll(cps)
    ensures ReEncodes(line, |pre|)
    decreases |cps|
  {
    if cps != [] {
      var d, e, next := HeadHere(pre, cps, line);
      EncodedReEncodes(pre + e, cps[1..], line);
      ReEncodesStep(line, |pre|, next, d);
    }
  }

  /** The lines whose characters are written as they are read are those that encode some text. */
  lemma ReEncodesExactly(line: seq<Byte>)
    ensures ReEncodes(line, 0) <==> exists cps :: line == EncodeAll(cps)
  {
    if ReEncodes(line, 0) {
      var cps := ReEncodesFrom(line, 0);
      assert line[0..] == line;
    }
    if cps :| line == EncodeAll(cps) {
      assert [] + EncodeAll(cps) == EncodeAll(cps);
      EncodedReEncodes([], cps, line);
    }
  }

  // ----- lines on which reading and stepping agree -----

  /** `next_utf8_char_pos` (lines 441-448) on any bytes. */
  function Skipped(line: seq<Byte>, pos: nat): (r: nat)
    requires pos <= |line|
    ensures pos <= r <= |line|
    ensures forall k :: pos <= k < r ==> IsContinuation(line[k])
    ensures r < |line| ==> !IsContinuation(line[r])
    decreases |line| - pos
  {
    if pos < |line| && IsContinuation(line[pos]) then Skipped(line, pos + 1) else pos
  }

  /** A character that is read never reaches over the next byte that is no continuation. */
  lemma CharIsOneLead(line: seq<Byte>, pos: nat)
    requires pos < |line|
    ensures forall k :: pos < k < pos + Decode(line, pos).used ==> IsContinuation(line[k])
  {
  }

  /** Stepping from `pos` on stops where the characters that are read end. */
  predicate StepsAgree(line: seq<Byte>, pos: nat)
    requires pos <= |line|
    decreases |line| - pos
  {
    pos == |line| ||
    (var next := pos + Decode(line, pos).used; Skipped(line, pos + 1) == next && StepsAgree(line, next))
  }

  lemma StepAgreesExactly(line: seq<Byte>, pos: nat)
    requires pos < |line|
    ensures var next := pos + Decode(line, pos).used;
            Skipped(line, pos + 1) == next <==> next == |line| || !IsContinuation(line[next])
  {
    CharIsOneLead(line, pos);
  }

  function Stray(line: seq<Byte>, pos: nat): nat
    requires pos <= |line|
  {
    if pos < |line| && IsContinuation(line[pos]) then 1 else 0
  }

  /** How many of the characters that are read start at a continuation. */
  function Strays(line: seq<Byte>, pos: nat): (r: nat)
    requires pos <= |line|
    ensures r >= Stray(line, pos)
    decreases |line| - pos
  {
    if pos == |line| then 0 else Stray(line, pos) + Strays(line, pos + Decode(line, pos).used)
  }

  /** The bytes of one character hold one that is no continuation, unless it is stray. */
  lemma LeadsOfChar(line: seq<Byte>, pos: nat, next: nat)
    requires pos < next <= |line| && forall k :: pos < k < next ==> IsContinuation(line[k])
    ensures Leads(line[pos..]) + Stray(line, pos) == 1 + Leads(line[next..])
  {
    var inner := line[pos + 1..next];
    NoLeads(inner);
    LeadsAppend(inner, line[next..]);
    assert line[pos + 1..] == inner + line[next..];
    assert line[pos..][1..] == line[pos + 1..];
  }

  lemma {:induction false} CharsAreLeadsAndStrays(line: seq<Byte>, pos: nat)
    requires pos <= |line|
    ensures |CharsOf(line, pos)| == Leads(line[pos..]) + Strays(line, pos)
    decreases |line| - pos
  {
    if pos < |line| {
      var next := pos + Decode(line, pos).used;
      CharIsOneLead(line, pos);
      LeadsOfChar(line, pos, next);
      CharsAreLeadsAndStrays(line, next);
    }
  }

  lemma {:induction false} StepsAgreeWithoutStrays(line: seq<Byte>, pos: nat)
    requires pos <= |line|
    ensures StepsAgree(line, pos) <==> Strays(line, pos) == Stray(line, pos)
    decreases |line| - pos
  {
    if pos < |line| {
      StepAgreesExactly(line, pos);
      StepsAgreeWithoutStrays(line, pos + Decode(line, pos).used);
    }
  }

  /**
    The cursor steps over the characters that were read exactly when there are as many as bytes that are no
    continuations, not counting a stray one at the start.
    */
  lemma StepsAgreeExactly(line: seq<Byte>)
    ensures StepsAgree(line, 0) <==> |CharsOf(line, 0)| == Leads(line) + Stray(line, 0)
  {
    assert line[0..] == line;
    CharsAreLeadsAndStrays(line, 0);
    StepsAgreeWithoutStrays(line, 0);
  }
}
