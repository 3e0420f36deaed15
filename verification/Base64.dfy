/** common/base64.hpp: base64 with both alphabets of RFC 4648 (sections 4 and 5), decoded into a new buffer or in place. */
module Base64 {
  import opened Basics

  type Sextet = v: int | 0 <= v < 64

  datatype Alphabet = Auto | Standard | UrlSafe
  datatype Behavior = Moderate | Loose
  datatype Result = Ok(bytes: seq<Byte>) | Error

  /** Characters are their ASCII codes. */
  const PAD: Byte := 61  // =
  const PLUS: Byte := 43
  const SLASH: Byte := 47
  const MINUS: Byte := 45
  const UNDERSCORE: Byte := 95

  /** The character of the alphabet for six bits. */
  function Letter(v: Sextet, urlSafe: bool): Byte {
    if v < 26 then 65 + v
    else if v < 52 then 97 + (v - 26)
    else if v < 62 then 48 + (v - 52)
    else if v == 62 then (if urlSafe then MINUS else PLUS)
    else (if urlSafe then UNDERSCORE else SLASH)
  }

  // ----- encoding -----

  /** Three bytes as four characters; missing bytes are padded. */
  function Quad(bs: seq<Byte>, urlSafe: bool): (r: seq<Byte>)
    requires 1 <= |bs| <= 3
    ensures |r| == 4
  {
    var i0: int := bs[0];
    if |bs| == 1 then [Letter(i0 / 4, urlSafe), Letter(i0 % 4 * 16, urlSafe), PAD, PAD]
    else
      var i1: int := bs[1];
      if |bs| == 2 then
        [Letter(i0 / 4, urlSafe), Letter(i0 % 4 * 16 + i1 / 16, urlSafe), Letter(i1 % 16 * 4, urlSafe), PAD]
      else
        var i2: int := bs[2];
        [Letter(i0 / 4, urlSafe), Letter(i0 % 4 * 16 + i1 / 16, urlSafe),
         Letter(i1 % 16 * 4 + i2 / 64, urlSafe), Letter(i2 % 64, urlSafe)]
  }

  /** The shifts of the source give the letters used here. */
  lemma EncodingShifts(i0: bv8, i1: bv8, i2: bv8)
    ensures (i0 >> 2) & 0x3F == i0 / 4 && (i0 & 0x03) << 4 == i0 % 4 * 16 && (i1 & 0x0F) << 2 == i1 % 16 * 4
    ensures ((i0 & 0x03) << 4) | ((i1 >> 4) & 0x0F) == i0 % 4 * 16 + i1 / 16
    ensures ((i1 & 0x0F) << 2) | ((i2 >> 6) & 0x03) == i1 % 16 * 4 + i2 / 64
    ensures i2 & 0x3F == i2 % 64
  {
  }

  function Encoded(bs: seq<Byte>, urlSafe: bool): seq<Byte> {
    if bs == [] then []
    else if |bs| <= 3 then Quad(bs, urlSafe)
    else Quad(bs[..3], urlSafe) + Encoded(bs[3..], urlSafe)
  }

  /** `encode` (lines 80-144). */
  method Encode(input: seq<Byte>, alphabet: Alphabet) returns (out: seq<Byte>)
    ensures out == Encoded(input, alphabet == UrlSafe)
  {
    var urlSafe := alphabet == UrlSafe;
    out := [];
    var i := 0;
    while |input| - i > 3
      invariant 0 <= i <= |input|
      invariant out + Encoded(input[i..], urlSafe) == Encoded(input, urlSafe)
    {
      NextQuad(out, input[i..], urlSafe);
      assert input[i..][..3] == input[i..i + 3] && input[i..][3..] == input[i + 3..];
      out := out + Quad(input[i..i + 3], urlSafe);
      i := i + 3;
    }
    if i != |input| {
      out := out + Quad(input[i..], urlSafe);
    }
  }

  lemma NextQuad(before: seq<Byte>, rest: seq<Byte>, urlSafe: bool)
    requires |rest| >= 3
    ensures before + Encoded(rest, urlSafe) == (before + Quad(rest[..3], urlSafe)) + Encoded(rest[3..], urlSafe)
  {
    if |rest| == 3 {
      assert rest[..3] == rest && rest[3..] == [];
    }
  }

  function RequiredEncodeSize(size: nat): nat { (size / 3 + (if size % 3 != 0 then 1 else 0)) * 4 }

  function MaxDecodeSize(size: nat): nat { (size / 4 + (if size % 4 != 0 then 1 else 0)) * 3 }

  /** The length of the encoding is exactly what `required_encode_size` says. */
  lemma {:induction false} EncodedLength(bs: seq<Byte>, urlSafe: bool)
    ensures |Encoded(bs, urlSafe)| == RequiredEncodeSize(|bs|)
  {
    if |bs| > 3 {
      EncodedLength(bs[3..], urlSafe);
      RequiredStep(|bs|);
    }
  }

  lemma RequiredStep(n: nat)
    requires n > 3
    ensures RequiredEncodeSize(n) == 4 + RequiredEncodeSize(n - 3)
  {
  }

  // ----- what the text is (section 4 of RFC 4648) -----

  /** The symbol of a value in the base 64 alphabets. */
  function Symbol(v: Sextet, urlSafe: bool): int {
    if v < 26 then ('A' as int) + v
    else if v < 52 then ('a' as int) + v - 26
    else if v < 62 then ('0' as int) + v - 52
    else if v == 62 then (if urlSafe then '-' else '+') as int
    else (if urlSafe then '_' else '/') as int
  }

  lemma LettersAreTheAlphabet(v: Sextet, urlSafe: bool)
    ensures Letter(v, urlSafe) == Symbol(v, urlSafe) && PAD == '=' as int
  {
  }

  function ByteAt(bs: seq<Byte>, i: nat): (r: int)
    ensures 0 <= r < 256
  {
    if i < |bs| then bs[i] else 0
  }

  /** Three bytes from `i` on as one number of 24 bits; what is missing counts as 0. */
  function Group(bs: seq<Byte>, i: nat): nat { 65536 * ByteAt(bs, i) + 256 * ByteAt(bs, i + 1) + ByteAt(bs, i + 2) }

  /** The four groups of six bits of 24 bits. */
  function Sixth(n: nat, j: nat): Sextet
    requires j < 4
  {
    if j == 0 then n / 262144 % 64 else if j == 1 then n / 4096 % 64 else if j == 2 then n / 64 % 64 else n % 64
  }

  lemma OneMoreTime(d: int, k: int)
    requires d >= 0 && k >= 0
    ensures d * k >= 0 && d * (k + 1) == d * k + d && d * (-k - 1) == -(d * k) - d
  {
  }

  lemma SmallMultiple(d: int, k: int)
    requires -d < d * k < d
    ensures k == 0
  {
    if k > 0 {
      OneMoreTime(d, k - 1);
    } else if k < 0 {
      OneMoreTime(d, -k - 1);
    }
  }

  lemma Divided(n: int, d: int, high: int, low: int)
    requires n == d * high + low && 0 <= low < d && high >= 0
    ensures n / d == high && n % d == low
  {
    assert d * (n / d - high) == low - n % d;
    SmallMultiple(d, n / d - high);
  }

  lemma FirstSixths(a: Byte, b: Byte, c: Byte, n: nat)
    requires n == 65536 * a + 256 * b + c
    ensures Sixth(n, 0) == a / 4 && Sixth(n, 1) == a % 4 * 16 + b / 16
  {
    Divided(n, 262144, a / 4, 65536 * (a % 4) + 256 * b + c);
    Divided(n, 4096, 16 * a + b / 16, 256 * (b % 16) + c);
    Divided(16 * a + b / 16, 64, a / 4, a % 4 * 16 + b / 16);
  }

  lemma LastSixths(a: Byte, b: Byte, c: Byte, n: nat)
    requires n == 65536 * a + 256 * b + c
    ensures Sixth(n, 2) == b % 16 * 4 + c / 64 && Sixth(n, 3) == c % 64
  {
    Divided(n, 64, 1024 * a + 4 * b + c / 64, c % 64);
    Divided(1024 * a + 4 * b + c / 64, 64, 16 * a + b / 16, b % 16 * 4 + c / 64);
  }

  /** One group of up to three bytes: as many symbols as its bits need, and padding. */
  lemma QuadSymbols(bs: seq<Byte>, urlSafe: bool, j: nat)
    requires 1 <= |bs| <= 3 && j < 4
    ensures Quad(bs, urlSafe)[j] == if j <= |bs| then Symbol(Sixth(Group(bs, 0), j), urlSafe) else '=' as int
  {
    FirstSixths(bs[0], ByteAt(bs, 1), ByteAt(bs, 2), Group(bs, 0));
    LastSixths(bs[0], ByteAt(bs, 1), ByteAt(bs, 2), Group(bs, 0));
    LettersAreTheAlphabet(Sixth(Group(bs, 0), j), urlSafe);
  }

  /** Symbol `4 * g + j` of the text is the j-th six bits of the g-th three bytes, or padding where there are no bits. */
  lemma {:induction false} EncodedSymbols(bs: seq<Byte>, urlSafe: bool, g: nat, j: nat)
    requires 3 * g < |bs| && j < 4
    ensures 4 * g + j < |Encoded(bs, urlSafe)|
    ensures Encoded(bs, urlSafe)[4 * g + j] ==
              if 3 * g + j <= |bs| then Symbol(Sixth(Group(bs, 3 * g), j), urlSafe) else '=' as int
    decreases g
  {
    if |bs| <= 3 {
      QuadSymbols(bs, urlSafe, j);
    } else if g == 0 {
      QuadSymbols(bs[..3], urlSafe, j);
      assert Group(bs[..3], 0) == Group(bs, 0);
    } else {
      EncodedSymbols(bs[3..], urlSafe, g - 1, j);
      GroupOfRest(bs, 3 * g);
    }
  }

  lemma GroupOfRest(bs: seq<Byte>, i: nat)
    requires 3 <= i && 3 <= |bs|
    ensures Group(bs[3..], i - 3) == Group(bs, i)
  {
  }

  // ----- decoding -----

  datatype Value = NoValue | Value(v: Sextet, alphabet: Alphabet)

  /** `_base64_value` (lines 344-389), with the alphabet as it is afterwards. */
  function ValueOf(a: Alphabet, c: Byte): Value {
    if 65 <= c <= 90 then Value(c - 65, a)
    else if 97 <= c <= 122 then Value(c - 97 + 26, a)
    else if 48 <= c <= 57 then Value(c - 48 + 52, a)
    else if a != UrlSafe && c == PLUS then Value(62, Standard)
    else if a != UrlSafe && c == SLASH then Value(63, Standard)
    else if a != Standard && c == MINUS then Value(62, UrlSafe)
    else if a != Standard && c == UNDERSCORE then Value(63, UrlSafe)
    else NoValue
  }

  /** The state of the loop: the last six bits, how many of them are unused (0, 6, 4 or 2) and the alphabet. */
  datatype Loop = Loop(last: Sextet, bits: int, alphabet: Alphabet)

  predicate LoopOk(l: Loop) { l.bits == 0 || l.bits == 2 || l.bits == 4 || l.bits == 6 }

  /** The byte completed by the next six bits, when there is one. */
  function Completed(l: Loop, part: Sextet): (r: seq<Byte>)
    requires LoopOk(l)
    ensures |r| == if l.bits == 0 then 0 else 1
  {
    if l.bits == 0 then []
    else if l.bits == 6 then [l.last * 4 + part / 16]
    else if l.bits == 4 then [l.last % 16 * 16 + part / 4]
    else [l.last % 4 * 64 + part]
  }

  function Advanced(l: Loop, v: Value): (r: Loop)
    requires LoopOk(l) && v.Value?
    ensures LoopOk(r)
  {
    Loop(v.v, if l.bits == 0 then 6 else l.bits - 2, v.alphabet)
  }

  predicate PaddingOk(text: seq<Byte>, behavior: Behavior) {
    behavior == Loose || forall i :: 0 <= i < |text| ==> text[i] == PAD
  }

  function Decoded(text: seq<Byte>, l: Loop, behavior: Behavior): Result
    requires LoopOk(l)
    decreases text
  {
    if text == [] then Ok([])
    else if text[0] == PAD then (if PaddingOk(text[1..], behavior) then Ok([]) else Error)
    else
      var v := ValueOf(l.alphabet, text[0]);
      if v.NoValue? then Error
      else
        match Decoded(text[1..], Advanced(l, v), behavior)
        case Error => Error
        case Ok(rest) => Ok(Completed(l, v.v) + rest)
  }

  predicate Alphanumeric(c: Byte) { 65 <= c <= 90 || 97 <= c <= 122 || 48 <= c <= 57 }

  /** The symbols of one alphabet; when it is to be detected, of either but not of both. */
  ghost predicate OneAlphabet(text: seq<Byte>, a: Alphabet) {
    && (forall i :: 0 <= i < |text| ==> Alphanumeric(text[i]) || text[i] in [PLUS, SLASH, MINUS, UNDERSCORE])
    && ((PLUS in text || SLASH in text) ==> a != UrlSafe && MINUS !in text && UNDERSCORE !in text)
    && ((MINUS in text || UNDERSCORE in text) ==> a != Standard)
  }

  function FirstPad(text: seq<Byte>): (k: nat)
    ensures k <= |text|
  {
    if text == [] || text[0] == PAD then 0 else 1 + FirstPad(text[1..])
  }

  lemma OneAlphabetStep(c: Byte, rest: seq<Byte>, a: Alphabet)
    ensures OneAlphabet([c] + rest, a) <==> ValueOf(a, c).Value? && OneAlphabet(rest, ValueOf(a, c).alphabet)
  {
    var text := [c] + rest;
    assert text[0] == c && text[1..] == rest;
    assert forall i :: 0 <= i < |rest| ==> text[i + 1] == rest[i];
    assert forall x :: x in text <==> x == c || x in rest;
  }

  /**
    A text is decoded exactly when the symbols in front of the first padding belong to one alphabet and, unless the
    decoder is loose, nothing but padding follows.
    */
  lemma {:induction false} DecodesExactly(text: seq<Byte>, l: Loop, behavior: Behavior)
    requires LoopOk(l)
    ensures var k := FirstPad(text);
            Decoded(text, l, behavior).Ok? <==>
              OneAlphabet(text[..k], l.alphabet) && (behavior == Loose || forall i :: k <= i < |text| ==> text[i] == PAD)
    decreases text
  {
    if text != [] && text[0] != PAD {
      var rest, k := text[1..], FirstPad(text[1..]);
      assert text[..k + 1] == [text[0]] + rest[..k];
      OneAlphabetStep(text[0], rest[..k], l.alphabet);
      var v := ValueOf(l.alphabet, text[0]);
      if v.Value? {
        DecodesExactly(rest, Advanced(l, v), behavior);
        assert forall i :: k <= i < |rest| ==> rest[i] == text[i + 1];
        assert forall i :: k + 1 <= i < |text| ==> text[i] == rest[i - 1];
      }
    }
  }

  /** The shifts of the source give the bytes used here. */
  lemma ShiftsAreArithmetic(last: bv8, part: bv8)
    requires last < 64 && part < 64
    ensures (last << 2) | (part >> 4) == last * 4 + part / 16
    ensures (last << 4) | (part >> 2) == (last % 16) * 16 + part / 4
    ensures (last << 6) | part == (last % 4) * 64 + part
  {
  }

  function Start(a: Alphabet): Loop { Loop(0, 0, a) }

  function Glue(before: seq<Byte>, r: Result): Result {
    match r
    case Error => Error
    case Ok(rest) => Ok(before + rest)
  }

  lemma GlueTwice(a: seq<Byte>, b: seq<Byte>, r: Result)
    ensures Glue(a, Glue(b, r)) == Glue(a + b, r)
  {
    if r.Ok? {
      assert a + (b + r.bytes) == (a + b) + r.bytes;
    }
  }

  /** One symbol of the text. */
  lemma DecodedStep(text: seq<Byte>, i: nat, l: Loop, behavior: Behavior)
    requires i < |text| && LoopOk(l) && text[i] != PAD
    ensures var v := ValueOf(l.alphabet, text[i]);
            Decoded(text[i..], l, behavior) ==
              if v.NoValue? then Error else Glue(Completed(l, v.v), Decoded(text[i + 1..], Advanced(l, v), behavior))
  {
    assert text[i..][0] == text[i] && text[i..][1..] == text[i + 1..];
  }

  /** What the loop knows after i characters: the bytes written, and that the unread text is untouched. */
  ghost predicate Reading(text: seq<Byte>, now: seq<Byte>, i: nat, o: nat, l: Loop, a: Alphabet, behavior: Behavior) {
    && i <= |text| == |now| && LoopOk(l)
    && 6 * i == 8 * o + l.bits
    && now[i..] == text[i..]
    && Glue(now[..o], Decoded(text[i..], l, behavior)) == Decoded(text, Start(a), behavior)
  }

  lemma ReadingStart(text: seq<Byte>, a: Alphabet, behavior: Behavior)
    ensures Reading(text, text, 0, 0, Start(a), a, behavior)
  {
    assert text[0..] == text && text[..0] == [];
    assert Glue([], Decoded(text, Start(a), behavior)) == Decoded(text, Start(a), behavior);
  }

  lemma ReadingStep(text: seq<Byte>, now: seq<Byte>, i: nat, o: nat, l: Loop, a: Alphabet, behavior: Behavior, v: Value)
    requires Reading(text, now, i, o, l, a, behavior) && i < |text| && text[i] != PAD && v == ValueOf(l.alphabet, text[i])
    ensures v.NoValue? ==> Decoded(text, Start(a), behavior).Error?
    ensures v.Value? && l.bits == 0 ==> Reading(text, now, i + 1, o, Advanced(l, v), a, behavior)
    ensures v.Value? && l.bits != 0 ==>
              o <= i && Reading(text, now[o := Completed(l, v.v)[0]], i + 1, o + 1, Advanced(l, v), a, behavior)
  {
    DecodedStep(text, i, l, behavior);
    if v.Value? {
      GlueTwice(now[..o], Completed(l, v.v), Decoded(text[i + 1..], Advanced(l, v), behavior));
      assert now[i + 1..] == text[i + 1..] by { assert now[i..][1..] == now[i + 1..] && text[i..][1..] == text[i + 1..]; }
      if l.bits == 0 {
        assert now[..o] + [] == now[..o];
      } else {
        var next := now[o := Completed(l, v.v)[0]];
        assert next[..o + 1] == now[..o] + Completed(l, v.v);
        assert next[i + 1..] == now[i + 1..];
      }
    }
  }

  /** After k symbols exactly floor(6k/8) bytes are written, never past an unread character. */
  lemma WrittenSoFar(i: nat, o: nat, l: Loop)
    requires LoopOk(l) && 6 * i == 8 * o + l.bits
    ensures o == 6 * i / 8 && o <= i && o <= MaxDecodeSize(i)
  {
    assert i == i / 4 * 4 + i % 4;
  }

  lemma MaxDecodeSizeMonotone(i: nat, n: nat)
    requires i <= n
    ensures MaxDecodeSize(i) <= MaxDecodeSize(n)
  {
  }

  /** The decoding loop, writing into the array it reads (lines 205-229); stops at the end or behind a padding character. */
  method ReadSymbols(buf: array<Byte>, alphabet: Alphabet, behavior: Behavior) returns (bad: bool, i: nat, o: nat)
    modifies buf
    ensures bad ==> Decoded(old(buf[..]), Start(alphabet), behavior).Error?
    ensures !bad ==> o <= i <= buf.Length && o <= MaxDecodeSize(buf.Length) && buf[i..] == old(buf[i..])
    ensures !bad ==> (i < buf.Length ==> old(buf[i]) == PAD) &&
                     exists l :: Reading(old(buf[..]), buf[..], i, o, l, alphabet, behavior)
  {
    var l := Start(alphabet);
    i, o, bad := 0, 0, false;
    ghost var text := buf[..];
    ReadingStart(text, alphabet, behavior);
    while i != buf.Length
      invariant Reading(text, buf[..], i, o, l, alphabet, behavior)
      decreases buf.Length - i
    {
      WrittenSoFar(i, o, l);
      var c := buf[i];
      assert c == buf[i..][0] == text[i..][0] == text[i];
      if c == PAD {
        break;
      }
      var v := ValueOf(l.alphabet, c);
      ReadingStep(text, buf[..], i, o, l, alphabet, behavior, v);
      if v.NoValue? {
        bad := true;
        return;
      }
      if l.bits != 0 {
        buf[o] := Completed(l, v.v)[0];
        o := o + 1;
      }
      i := i + 1;
      l := Advanced(l, v);
    }
    WrittenSoFar(i, o, l);
    MaxDecodeSizeMonotone(i, buf.Length);
    assert buf[i..] == buf[..][i..];
  }

  /** `decode` in place (lines 200-244 and 294-313) agrees with decoding into a new buffer. */
  method DecodeInPlace(buf: array<Byte>, alphabet: Alphabet, behavior: Behavior) returns (ok: bool, n: nat)
    modifies buf
    ensures ok <==> Decoded(old(buf[..]), Start(alphabet), behavior).Ok?
    ensures ok ==> n <= buf.Length && n <= MaxDecodeSize(buf.Length)
    ensures ok ==> buf[..n] == Decoded(old(buf[..]), Start(alphabet), behavior).bytes
  {
    ghost var text := buf[..];
    var bad, i, o := ReadSymbols(buf, alphabet, behavior);
    if bad {
      return false, 0;
    }
    ghost var l :| Reading(text, buf[..], i, o, l, alphabet, behavior);
    ghost var rest := Decoded(text[i..], l, behavior);
    n := o;
    if i == buf.Length {
      assert text[i..] == [] && buf[..o] + [] == buf[..o];
      return true, n;
    }
    ghost var tail := text[i..][1..];
    assert rest == if PaddingOk(tail, behavior) then Ok([]) else Error;
    assert buf[..o] + [] == buf[..o];
    if behavior == Loose {
      return true, n;
    }
    ok := true;
    var j := i + 1;
    while j != buf.Length
      invariant i < j <= buf.Length && ok
      invariant forall k :: i < k < j ==> text[k] == PAD
      modifies {}
      decreases buf.Length - j
    {
      assert buf[j] == buf[i..][j - i] == text[j];
      if buf[j] != PAD {
        assert tail[j - i - 1] == text[j];
        return false, 0;
      }
      j := j + 1;
    }
    assert forall k :: 0 <= k < |tail| ==> tail[k] == text[i + 1 + k];
  }

  // ----- the round trip -----

  ghost predicate Fits(a: Alphabet, urlSafe: bool) { a == Auto || (a == UrlSafe <==> urlSafe) }

  lemma LetterHasItsValue(v: Sextet, urlSafe: bool, a: Alphabet)
    requires Fits(a, urlSafe)
    ensures var r := ValueOf(a, Letter(v, urlSafe)); r.Value? && r.v == v && Fits(r.alphabet, urlSafe)
    ensures Letter(v, urlSafe) != PAD
  {
  }

  /** With no bits left over, the last symbol no longer matters. */
  lemma LastIsForgotten(text: seq<Byte>, l: Loop, behavior: Behavior)
    requires l.bits == 0
    ensures Decoded(text, l, behavior) == Decoded(text, Loop(0, 0, l.alphabet), behavior)
  {
  }

  /** Decoding one more letter. */
  lemma LetterDecodes(v: Sextet, urlSafe: bool, rest: seq<Byte>, l: Loop, behavior: Behavior)
    requires LoopOk(l) && Fits(l.alphabet, urlSafe)
    ensures var r := ValueOf(l.alphabet, Letter(v, urlSafe));
            && r.Value? && Fits(r.alphabet, urlSafe) && Advanced(l, r) == Loop(v, if l.bits == 0 then 6 else l.bits - 2, r.alphabet)
            && Decoded([Letter(v, urlSafe)] + rest, l, behavior) == Glue(Completed(l, v), Decoded(rest, Advanced(l, r), behavior))
  {
    LetterHasItsValue(v, urlSafe, l.alphabet);
    var text := [Letter(v, urlSafe)] + rest;
    assert text[0..] == text && text[1..] == rest;
    DecodedStep(text, 0, l, behavior);
  }

  /** Two letters complete the first byte. */
  lemma TwoLetters(v0: Sextet, v1: Sextet, urlSafe: bool, rest: seq<Byte>, a: Alphabet, behavior: Behavior) returns (l: Loop)
    requires Fits(a, urlSafe)
    ensures l.last == v1 && l.bits == 4 && Fits(l.alphabet, urlSafe)
    ensures Decoded([Letter(v0, urlSafe)] + ([Letter(v1, urlSafe)] + rest), Start(a), behavior) ==
              Glue([v0 * 4 + v1 / 16], Decoded(rest, l, behavior))
  {
    var l0 := Start(a);
    LetterDecodes(v0, urlSafe, [Letter(v1, urlSafe)] + rest, l0, behavior);
    var l1 := Advanced(l0, ValueOf(a, Letter(v0, urlSafe)));
    LetterDecodes(v1, urlSafe, rest, l1, behavior);
    l := Advanced(l1, ValueOf(l1.alphabet, Letter(v1, urlSafe)));
    GlueTwice([], Completed(l1, v1), Decoded(rest, l, behavior));
    assert [] + Completed(l1, v1) == Completed(l1, v1);
  }

  lemma ThreeLetters(v0: Sextet, v1: Sextet, v2: Sextet, urlSafe: bool, rest: seq<Byte>, a: Alphabet, behavior: Behavior)
    returns (l: Loop)
    requires Fits(a, urlSafe)
    ensures l.last == v2 && l.bits == 2 && Fits(l.alphabet, urlSafe)
    ensures Decoded([Letter(v0, urlSafe)] + ([Letter(v1, urlSafe)] + ([Letter(v2, urlSafe)] + rest)), Start(a), behavior) ==
              Glue([v0 * 4 + v1 / 16] + [v1 % 16 * 16 + v2 / 4], Decoded(rest, l, behavior))
  {
    var l2 := TwoLetters(v0, v1, urlSafe, [Letter(v2, urlSafe)] + rest, a, behavior);
    LetterDecodes(v2, urlSafe, rest, l2, behavior);
    l := Advanced(l2, ValueOf(l2.alphabet, Letter(v2, urlSafe)));
    GlueTwice([v0 * 4 + v1 / 16], Completed(l2, v2), Decoded(rest, l, behavior));
  }

  lemma PaddingDecodes(n: nat, l: Loop, behavior: Behavior)
    requires LoopOk(l) && n > 0
    ensures Decoded(seq(n, _ => PAD), l, behavior) == Ok([])
  {
  }

  /** The padded last quad. */
  lemma LastQuadDecodes(bs: seq<Byte>, urlSafe: bool, a: Alphabet, behavior: Behavior)
    requires 1 <= |bs| <= 2 && Fits(a, urlSafe)
    ensures Decoded(Quad(bs, urlSafe), Start(a), behavior) == Ok(bs)
  {
    if |bs| == 1 {
      OneByteDecodes(bs, urlSafe, a, behavior);
    } else {
      TwoBytesDecode(bs, urlSafe, a, behavior);
    }
  }

  lemma OneByteDecodes(bs: seq<Byte>, urlSafe: bool, a: Alphabet, behavior: Behavior)
    requires |bs| == 1 && Fits(a, urlSafe)
    ensures Decoded(Quad(bs, urlSafe), Start(a), behavior) == Ok(bs)
  {
    var i0: int := bs[0];
    var v0, v1 := i0 / 4, i0 % 4 * 16;
    var l := TwoLetters(v0, v1, urlSafe, seq(2, _ => PAD), a, behavior);
    PaddingDecodes(2, l, behavior);
    assert Quad(bs, urlSafe) == [Letter(v0, urlSafe)] + ([Letter(v1, urlSafe)] + seq(2, _ => PAD));
    assert v0 * 4 + v1 / 16 == i0 && [i0] + [] == bs;
  }

  lemma TwoBytesDecode(bs: seq<Byte>, urlSafe: bool, a: Alphabet, behavior: Behavior)
    requires |bs| == 2 && Fits(a, urlSafe)
    ensures Decoded(Quad(bs, urlSafe), Start(a), behavior) == Ok(bs)
  {
    var i0: int, i1: int := bs[0], bs[1];
    var v0, v1, v2 := i0 / 4, i0 % 4 * 16 + i1 / 16, i1 % 16 * 4;
    var l := ThreeLetters(v0, v1, v2, urlSafe, seq(1, _ => PAD), a, behavior);
    PaddingDecodes(1, l, behavior);
    assert Quad(bs, urlSafe) == [Letter(v0, urlSafe)] + ([Letter(v1, urlSafe)] + ([Letter(v2, urlSafe)] + seq(1, _ => PAD)));
    assert v0 * 4 + v1 / 16 == i0 && v1 % 16 * 16 + v2 / 4 == i1;
    assert ([i0] + [i1]) + [] == bs;
  }

  /** A full quad gives its three bytes and leaves no bits over. */
  lemma FullQuadDecodes(bs: seq<Byte>, urlSafe: bool, rest: seq<Byte>, a: Alphabet, behavior: Behavior) returns (a': Alphabet)
    requires |bs| == 3 && Fits(a, urlSafe)
    ensures Fits(a', urlSafe)
    ensures Decoded(Quad(bs, urlSafe) + rest, Start(a), behavior) == Glue(bs, Decoded(rest, Start(a'), behavior))
  {
    var i0: int, i1: int, i2: int := bs[0], bs[1], bs[2];
    var v0, v1, v2, v3 := i0 / 4, i0 % 4 * 16 + i1 / 16, i1 % 16 * 4 + i2 / 64, i2 % 64;
    var l := ThreeLetters(v0, v1, v2, urlSafe, [Letter(v3, urlSafe)] + rest, a, behavior);
    LetterDecodes(v3, urlSafe, rest, l, behavior);
    var l' := Advanced(l, ValueOf(l.alphabet, Letter(v3, urlSafe)));
    a' := l'.alphabet;
    LastIsForgotten(rest, l', behavior);
    GlueTwice([v0 * 4 + v1 / 16] + [v1 % 16 * 16 + v2 / 4], Completed(l, v3), Decoded(rest, l', behavior));
    FourFirst(Quad(bs, urlSafe), rest);
    SextetsToBytes(i0, i1, i2);
    assert [v0 * 4 + v1 / 16] + [v1 % 16 * 16 + v2 / 4] + Completed(l, v3) == bs;
  }

  lemma FourFirst(q: seq<Byte>, rest: seq<Byte>)
    requires |q| == 4
    ensures q + rest == [q[0]] + ([q[1]] + ([q[2]] + ([q[3]] + rest)))
  {
  }

  lemma SextetsToBytes(i0: Byte, i1: Byte, i2: Byte)
    ensures var v1, v2 := i0 % 4 * 16 + i1 / 16, i1 % 16 * 4 + i2 / 64;
            && i0 / 4 * 4 + v1 / 16 == i0 && v1 % 16 * 16 + v2 / 4 == i1 && v2 % 4 * 64 + i2 % 64 == i2
  {
  }

  /** Decoding what was encoded gives the input back: either alphabet, the same one or detected, strict or loose. */
  lemma {:induction false} RoundTrip(bs: seq<Byte>, urlSafe: bool, a: Alphabet, behavior: Behavior)
    requires Fits(a, urlSafe)
    ensures Decoded(Encoded(bs, urlSafe), Start(a), behavior) == Ok(bs)
    decreases |bs|
  {
    if |bs| == 0 {
    } else if |bs| <= 2 {
      LastQuadDecodes(bs, urlSafe, a, behavior);
    } else {
      var rest := Encoded(bs[3..], urlSafe);
      NextQuad([], bs, urlSafe);
      assert [] + Encoded(bs, urlSafe) == Encoded(bs, urlSafe);
      assert ([] + Quad(bs[..3], urlSafe)) + rest == Quad(bs[..3], urlSafe) + rest;
      var a' := FullQuadDecodes(bs[..3], urlSafe, rest, a, behavior);
      RoundTrip(bs[3..], urlSafe, a', behavior);
      assert bs[..3] + bs[3..] == bs;
    }
  }
}
