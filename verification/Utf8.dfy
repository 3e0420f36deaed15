/** common/console.cpp:365-448: encoding, decoding and stepping over UTF-8 characters. */
module Utf8 {
  import opened Basics

  type CodePoint = c: int | 0 <= c <= 0x10FFFF

  predicate IsContinuation(b: Byte) { 0x80 <= b < 0xC0 }

  /** The bit masks of the source, as the ranges used here. */
  lemma MasksAreRanges(c: bv8)
    ensures c & 0x80 == 0 <==> c < 0x80
    ensures c & 0xC0 == 0x80 <==> 0x80 <= c < 0xC0
    ensures c & 0xE0 == 0xC0 <==> 0xC0 <= c < 0xE0
    ensures c & 0xF0 == 0xE0 <==> 0xE0 <= c < 0xF0
    ensures c & 0xF8 == 0xF0 <==> 0xF0 <= c < 0xF8
  {
  }

  /** The shifts and masks of `append_utf8`, as the arithmetic of `Encode`. */
  lemma EncodingShifts(ch: bv32)
    ensures ch <= 0x7FF ==> 0xC0 | ((ch >> 6) & 0x1F) == 0xC0 + ch / 64
    ensures ch <= 0xFFFF ==> 0xE0 | ((ch >> 12) & 0x0F) == 0xE0 + ch / 4096
    ensures ch <= 0x10FFFF ==> 0xF0 | ((ch >> 18) & 0x07) == 0xF0 + ch / 262144
    ensures 0x80 | ((ch >> 12) & 0x3F) == 0x80 + ch / 4096 % 64
    ensures 0x80 | ((ch >> 6) & 0x3F) == 0x80 + ch / 64 % 64
    ensures 0x80 | (ch & 0x3F) == 0x80 + ch % 64
  {
  }

  /** The shifts and masks of `decode_utf8`, as the arithmetic of `Decode`. */
  lemma DecodingShifts(c: bv32, c1: bv32, c2: bv32, c3: bv32)
    requires 0x80 <= c1 < 0xC0 && 0x80 <= c2 < 0xC0 && 0x80 <= c3 < 0xC0
    ensures 0xC0 <= c < 0xE0 ==> ((c & 0x1F) << 6) | (c1 & 0x3F) == (c - 0xC0) * 64 + (c1 - 0x80)
    ensures 0xE0 <= c < 0xF0 ==>
              ((c & 0x0F) << 12) | ((c1 & 0x3F) << 6) | (c2 & 0x3F) ==
                (c - 0xE0) * 4096 + (c1 - 0x80) * 64 + (c2 - 0x80)
    ensures 0xF0 <= c < 0xF8 ==>
              ((c & 0x07) << 18) | ((c1 & 0x3F) << 12) | ((c2 & 0x3F) << 6) | (c3 & 0x3F) ==
                (c - 0xF0) * 262144 + (c1 - 0x80) * 4096 + (c2 - 0x80) * 64 + (c3 - 0x80)
  {
  }

  /** `append_utf8` (lines 411-429): nothing is written for a value above 0x10FFFF. */
  function Encode(ch: nat): (r: seq<Byte>)
    ensures |r| <= 4
  {
    if ch <= 0x7F then [ch]
    else if ch <= 0x7FF then [0xC0 + ch / 64, 0x80 + ch % 64]
    else if ch <= 0xFFFF then [0xE0 + ch / 4096, 0x80 + ch / 64 % 64, 0x80 + ch % 64]
    else if ch <= 0x10FFFF then [0xF0 + ch / 262144, 0x80 + ch / 4096 % 64, 0x80 + ch / 64 % 64, 0x80 + ch % 64]
    else []
  }

  /** The six bits a continuation byte carries. */
  function Payload(b: Byte): int { b - 0x80 }

  datatype Decoded = Decoded(cp: nat, used: nat)

  const BAD := Decoded(0xFFFD, 1)

  /** `decode_utf8` (lines 365-409): the code point and how many bytes it takes; 0xFFFD for bad input. */
  function Decode(input: seq<Byte>, pos: nat): (r: Decoded)
    requires pos < |input|
    ensures 1 <= r.used && pos + r.used <= |input|
  {
    var c: int := input[pos];
    var n := |input| - pos;
    if c < 0x80 then Decoded(c, 1)
    else if 0xC0 <= c < 0xE0 && n > 1 then
      if !IsContinuation(input[pos + 1]) then BAD
      else Decoded((c - 0xC0) * 64 + Payload(input[pos + 1]), 2)
    else if 0xE0 <= c < 0xF0 && n > 2 then
      if !IsContinuation(input[pos + 1]) || !IsContinuation(input[pos + 2]) then BAD
      else Decoded((c - 0xE0) * 4096 + Payload(input[pos + 1]) * 64 + Payload(input[pos + 2]), 3)
    else if 0xF0 <= c < 0xF8 && n > 3 then
      if !IsContinuation(input[pos + 1]) || !IsContinuation(input[pos + 2]) || !IsContinuation(input[pos + 3])
      then BAD
      else Decoded((c - 0xF0) * 262144 + Payload(input[pos + 1]) * 4096 + Payload(input[pos + 2]) * 64 +
            Payload(input[pos + 3]), 4)
    else BAD
  }

  /** `n` bytes from `pos` on have the form of one character (section 3 of RFC 3629). */
  predicate Shaped(input: seq<Byte>, pos: nat, n: nat) {
    && pos + n <= |input|
    && match n
       case 1 => input[pos] < 0x80
       case 2 => 0xC0 <= input[pos] < 0xE0 && IsContinuation(input[pos + 1])
       case 3 => 0xE0 <= input[pos] < 0xF0 && IsContinuation(input[pos + 1]) && IsContinuation(input[pos + 2])
       case 4 =>
         && 0xF0 <= input[pos] < 0xF8
         && IsContinuation(input[pos + 1]) && IsContinuation(input[pos + 2]) && IsContinuation(input[pos + 3])
       case _ => false
  }

  /** A form is read as a whole, and what has none is one bad byte. */
  lemma DecodeShapes(input: seq<Byte>, pos: nat)
    requires pos < |input|
    ensures forall n :: Shaped(input, pos, n) ==> Decode(input, pos).used == n
    ensures (forall n :: 1 <= n <= 4 ==> !Shaped(input, pos, n)) ==> Decode(input, pos) == Decoded(0xFFFD, 1)
  {
    assert Shaped(input, pos, 1) || Shaped(input, pos, 2) || Shaped(input, pos, 3) || Shaped(input, pos, 4)
      || Decode(input, pos) == BAD;
  }

  function Less(b: int, mark: int): int { b - mark }

  /** The bits of a character, six to a byte behind the first, in as few bytes as they need. */
  lemma EncodedBits(cp: CodePoint)
    ensures var e := Encode(cp);
            && Shaped(e, 0, |e|) && |e| == (if cp < 0x80 then 1 else if cp < 0x800 then 2 else if cp < 0x10000 then 3 else 4)
            && match |e|
               case 1 => cp == e[0]
               case 2 => cp == 64 * Less(e[0], 0xC0) + Less(e[1], 0x80)
               case 3 => cp == 4096 * Less(e[0], 0xE0) + 64 * Less(e[1], 0x80) + Less(e[2], 0x80)
               case _ => cp == 262144 * Less(e[0], 0xF0) + 4096 * Less(e[1], 0x80) + 64 * Less(e[2], 0x80) + Less(e[3], 0x80)
  {
    DivMod(cp);
  }

  function EncodeAll(cps: seq<CodePoint>): seq<Byte> {
    if cps == [] then [] else Encode(cps[0]) + EncodeAll(cps[1..])
  }

  /** Where character i starts. */
  function Offset(cps: seq<CodePoint>, i: nat): nat
    requires i <= |cps|
  {
    |EncodeAll(cps[..i])|
  }

  lemma {:induction false} EncodeAppend(a: seq<CodePoint>, b: seq<CodePoint>)
    ensures EncodeAll(a + b) == EncodeAll(a) + EncodeAll(b)
  {
    if a == [] {
      assert a + b == b;
    } else {
      assert (a + b)[1..] == a[1..] + b;
      EncodeAppend(a[1..], b);
    }
  }

  lemma EncodeOne(cp: CodePoint)
    ensures EncodeAll([cp]) == Encode(cp)
  {
    assert [cp][1..] == [] && Encode(cp) + [] == Encode(cp);
  }

  /** An encoded character is a leading byte followed by continuation bytes. */
  lemma EncodeShape(cp: CodePoint)
    ensures |Encode(cp)| >= 1 && !IsContinuation(Encode(cp)[0])
    ensures forall i :: 1 <= i < |Encode(cp)| ==> IsContinuation(Encode(cp)[i])
  {
  }

  lemma DivMod(ch: nat)
    ensures ch == ch / 64 * 64 + ch % 64 && ch / 64 == ch / 4096 * 64 + ch / 64 % 64
    ensures ch / 4096 == ch / 262144 * 64 + ch / 4096 % 64
  {
    assert ch / 4096 == ch / 64 / 64 && ch / 262144 == ch / 64 / 64 / 64;
  }

  /** Decoding an encoded character anywhere gives it back. */
  lemma DecodeEncode(input: seq<Byte>, pos: nat, cp: CodePoint)
    requires pos + |Encode(cp)| <= |input| && input[pos..pos + |Encode(cp)|] == Encode(cp)
    ensures pos < |input| && Decode(input, pos) == Decoded(cp, |Encode(cp)|)
  {
    EncodeShape(cp);
    DivMod(cp);
    var e := Encode(cp);
    assert forall i :: 0 <= i < |e| ==> input[pos + i] == e[i];
    assert input[pos] == e[0];
    if |e| > 1 { assert input[pos + 1] == e[1]; }
    if |e| > 2 { assert input[pos + 2] == e[2]; }
    if |e| > 3 { assert input[pos + 3] == e[3]; }
  }

  // ----- positions in an encoded text -----

  /** The bytes around character i. */
  lemma SplitAt(cps: seq<CodePoint>, i: nat)
    requires i <= |cps|
    ensures EncodeAll(cps) == EncodeAll(cps[..i]) + EncodeAll(cps[i..]) && Offset(cps, i) <= |EncodeAll(cps)|
  {
    assert cps == cps[..i] + cps[i..];
    EncodeAppend(cps[..i], cps[i..]);
  }

  lemma CharAt(cps: seq<CodePoint>, i: nat)
    requires i < |cps|
    ensures Offset(cps, i + 1) == Offset(cps, i) + |Encode(cps[i])| <= |EncodeAll(cps)|
    ensures EncodeAll(cps)[Offset(cps, i)..Offset(cps, i + 1)] == Encode(cps[i])
  {
    assert cps[..i + 1] == cps[..i] + [cps[i]];
    EncodeAppend(cps[..i], [cps[i]]);
    EncodeOne(cps[i]);
    SplitAt(cps, i + 1);
  }

  /** Reading at a character border gives the character and the next border. */
  lemma CharDecodes(cps: seq<CodePoint>, i: nat)
    requires i < |cps|
    ensures Offset(cps, i) < |EncodeAll(cps)|
    ensures var d := Decode(EncodeAll(cps), Offset(cps, i)); d.cp == cps[i] && Offset(cps, i) + d.used == Offset(cps, i + 1)
  {
    CharAt(cps, i);
    EncodeShape(cps[i]);
    DecodeEncode(EncodeAll(cps), Offset(cps, i), cps[i]);
  }

  lemma FirstOfSlice(line: seq<Byte>, a: nat, b: nat, e: seq<Byte>)
    requires a < b <= |line| && line[a..b] == e
    ensures e != [] && line[a] == e[0]
  {
    assert line[a..b][0] == line[a];
  }

  /** A character begins with a byte that is no continuation. */
  lemma FirstByte(cps: seq<CodePoint>, i: nat)
    requires i < |cps|
    ensures Offset(cps, i) < |EncodeAll(cps)| && !IsContinuation(EncodeAll(cps)[Offset(cps, i)])
  {
    CharAt(cps, i);
    EncodeShape(cps[i]);
    FirstOfSlice(EncodeAll(cps), Offset(cps, i), Offset(cps, i + 1), Encode(cps[i]));
  }

  /** A character border: the end, or a byte that is no continuation. */
  lemma BorderAt(cps: seq<CodePoint>, i: nat)
    requires i <= |cps|
    ensures Offset(cps, i) <= |EncodeAll(cps)|
    ensures i == |cps| <==> Offset(cps, i) == |EncodeAll(cps)|
    ensures i < |cps| ==> !IsContinuation(EncodeAll(cps)[Offset(cps, i)])
    ensures i == 0 <==> Offset(cps, i) == 0
  {
    if i < |cps| {
      FirstByte(cps, i);
    } else {
      assert cps[..i] == cps;
    }
    if i > 0 {
      CharAt(cps, i - 1);
      EncodeShape(cps[i - 1]);
    }
  }

  lemma InsideChar(cps: seq<CodePoint>, i: nat, k: nat)
    requires i < |cps| && Offset(cps, i) < k < Offset(cps, i + 1)
    ensures k < |EncodeAll(cps)| && IsContinuation(EncodeAll(cps)[k])
  {
    CharAt(cps, i);
    EncodeShape(cps[i]);
    InSlice(EncodeAll(cps), Offset(cps, i), Offset(cps, i + 1), k);
  }

  lemma InSlice(s: seq<Byte>, i: nat, j: nat, k: nat)
    requires i <= k < j <= |s|
    ensures s[k] == s[i..j][k - i]
  {
  }

  /** `next_utf8_char_pos` (lines 441-448). */
  method NextCharPos(line: seq<Byte>, start: nat, ghost cps: seq<CodePoint>, ghost i: nat) returns (pos: nat)
    requires i <= |cps| && line == EncodeAll(cps) && start == Offset(cps, i)
    ensures pos == if i < |cps| then Offset(cps, i + 1) else |line|
  {
    BorderAt(cps, i);
    if start >= |line| {
      return |line|;
    }
    ghost var next := Offset(cps, i + 1);
    CharBytes(cps, i);
    BorderAt(cps, i + 1);
    pos := start + 1;
    while pos < |line| && IsContinuation(line[pos])
      invariant start < pos <= next
    {
      pos := pos + 1;
    }
  }

  /** `prev_utf8_char_pos` (lines 432-439). */
  method PrevCharPos(line: seq<Byte>, start: nat, ghost cps: seq<CodePoint>, ghost i: nat) returns (pos: nat)
    requires i <= |cps| && line == EncodeAll(cps) && start == Offset(cps, i)
    ensures pos == if i > 0 then Offset(cps, i - 1) else 0
  {
    BorderAt(cps, i);
    if start == 0 {
      return 0;
    }
    ghost var first := Offset(cps, i - 1);
    CharBytes(cps, i - 1);
    pos := start - 1;
    while pos > 0 && IsContinuation(line[pos])
      invariant first <= pos < start
    {
      pos := pos - 1;
    }
  }

  /** One character: a byte that is no continuation, then only continuations. */
  lemma CharBytes(cps: seq<CodePoint>, i: nat)
    requires i < |cps|
    ensures Offset(cps, i) < Offset(cps, i + 1) <= |EncodeAll(cps)|
    ensures !IsContinuation(EncodeAll(cps)[Offset(cps, i)])
    ensures forall k :: Offset(cps, i) < k < Offset(cps, i + 1) ==> IsContinuation(EncodeAll(cps)[k])
  {
    CharAt(cps, i);
    EncodeShape(cps[i]);
    BorderAt(cps, i);
    BorderAt(cps, i + 1);
    forall k | Offset(cps, i) < k < Offset(cps, i + 1) ensures IsContinuation(EncodeAll(cps)[k]) {
      InsideChar(cps, i, k);
    }
  }

  // ----- the number of characters is in the bytes -----

  function Leads(line: seq<Byte>): nat {
    if line == [] then 0 else (if IsContinuation(line[0]) then 0 else 1) + Leads(line[1..])
  }

  lemma {:induction false} LeadsAppend(a: seq<Byte>, b: seq<Byte>)
    ensures Leads(a + b) == Leads(a) + Leads(b)
  {
    if a == [] {
      assert a + b == b;
    } else {
      assert (a + b)[1..] == a[1..] + b;
      LeadsAppend(a[1..], b);
    }
  }

  lemma {:induction false} NoLeads(a: seq<Byte>)
    requires forall i :: 0 <= i < |a| ==> IsContinuation(a[i])
    ensures Leads(a) == 0
  {
    if a != [] {
      NoLeads(a[1..]);
    }
  }

  lemma {:induction false} LeadsCount(cps: seq<CodePoint>)
    ensures Leads(EncodeAll(cps)) == |cps|
  {
    if cps != [] {
      var e := Encode(cps[0]);
      EncodeShape(cps[0]);
      NoLeads(e[1..]);
      assert Leads(e) == 1;
      LeadsAppend(e, EncodeAll(cps[1..]));
      LeadsCount(cps[1..]);
    }
  }
}
