/** common/common.cpp:325-359: a hexadecimal CPU mask sets the bits of the number it denotes. */
module CpuMask {
  import opened Basics

  const MAX_THREADS := 512
  const MAX_DIGITS := 128

  /** The digits that are read: an 0x prefix is dropped and at most 128 digits are used. */
  function Digits(mask: string): (r: string)
    ensures |r| <= MAX_DIGITS
  {
    var s := if |mask| >= 2 && mask[..2] == "0x" then mask[2..] else mask;
    if |s| > MAX_DIGITS then s[..MAX_DIGITS] else s
  }

  /** The number a string of hexadecimal digits denotes. */
  function Number(s: string): nat
    requires AllHex(s)
  {
    if s == "" then 0 else 16 * Number(s[..|s| - 1]) + HexValue(s[|s| - 1])
  }

  predicate Bit(n: nat, k: nat)
    decreases k
  {
    if k == 0 then n % 2 == 1 else Bit(n / 2, k - 1)
  }

  lemma ShiftOut(v: nat, d: nat, k: nat)
    requires d < 16
    ensures Bit(16 * v + d, k) == if k < 4 then Bit(d, k) else Bit(v, k - 4)
  {
    var n := 16 * v + d;
    assert n / 2 == 8 * v + d / 2 && n / 2 / 2 == 4 * v + d / 2 / 2;
    assert n / 2 / 2 / 2 == 2 * v + d / 2 / 2 / 2 && n / 2 / 2 / 2 / 2 == v;
    if k == 0 {
      assert n % 2 == d % 2;
    } else if k == 1 {
      assert Bit(n, 1) == Bit(n / 2, 0) && Bit(d, 1) == Bit(d / 2, 0);
    } else if k == 2 {
      assert Bit(n, 2) == Bit(n / 2 / 2, 0) && Bit(d, 2) == Bit(d / 2 / 2, 0);
    } else if k == 3 {
      assert Bit(n, 3) == Bit(n / 2, 2) == Bit(n / 2 / 2, 1) == Bit(n / 2 / 2 / 2, 0);
      assert Bit(d, 3) == Bit(d / 2, 2) == Bit(d / 2 / 2, 1) == Bit(d / 2 / 2 / 2, 0);
    } else {
      assert Bit(n, k) == Bit(n / 2, k - 1) == Bit(n / 2 / 2, k - 2);
      assert Bit(n / 2 / 2, k - 2) == Bit(n / 2 / 2 / 2, k - 3) == Bit(n / 2 / 2 / 2 / 2, k - 4);
    }
  }

  lemma {:induction false} ZeroHasNoBits(k: nat)
    ensures !Bit(0, k)
  {
    if k > 0 {
      ZeroHasNoBits(k - 1);
    }
  }

  /** Bit k of the number is bit k % 4 of the digit k / 4 places from the right. */
  lemma {:induction false} BitOfNumber(s: string, k: nat)
    requires AllHex(s)
    ensures Bit(Number(s), k) <==> k / 4 < |s| && Bit(HexValue(s[|s| - 1 - k / 4]), k % 4)
  {
    if s == "" {
      ZeroHasNoBits(k);
    } else {
      var n := |s| - 1;
      ShiftOut(Number(s[..n]), HexValue(s[n]), k);
      if k >= 4 {
        BitOfNumber(s[..n], k - 4);
        assert (k - 4) / 4 == k / 4 - 1 && (k - 4) % 4 == k % 4;
      }
    }
  }

  /** Bit k as the digits give it. */
  predicate DigitBit(s: string, k: nat) {
    k / 4 < |s| && var c := s[|s| - 1 - k / 4]; IsHex(c) && Bit(HexValue(c), k % 4)
  }

  lemma BlockBit(s: string, j: nat, b: nat)
    requires j < |s| && IsHex(s[j]) && b < 4
    ensures DigitBit(s, 4 * (|s| - 1 - j) + b) == Bit(HexValue(s[j]), b)
  {
    var k := 4 * (|s| - 1 - j) + b;
    assert k / 4 == |s| - 1 - j && k % 4 == b;
  }

  /** The mask tests of the source, as the divisions used here. */
  lemma MasksAreDivisions(id: bv8)
    ensures id & 8 != 0 <==> id / 8 % 2 == 1
    ensures id & 4 != 0 <==> id / 4 % 2 == 1
    ensures id & 2 != 0 <==> id / 2 % 2 == 1
    ensures id & 1 != 0 <==> id % 2 == 1
  {
  }

  /** The four assignments of one digit (lines 352-355). */
  method SetDigit(bits: array<bool>, n: nat, id: nat)
    requires id < 16 && 3 <= n < bits.Length
    modifies bits
    ensures bits[n] == (old(bits[n]) || Bit(id, 3)) && bits[n - 1] == (old(bits[n - 1]) || Bit(id, 2))
    ensures bits[n - 2] == (old(bits[n - 2]) || Bit(id, 1)) && bits[n - 3] == (old(bits[n - 3]) || Bit(id, 0))
    ensures forall k :: 0 <= k < bits.Length && !(n - 3 <= k <= n) ==> bits[k] == old(bits[k])
  {
    FourBits(id);
    bits[n] := bits[n] || id / 8 % 2 == 1;
    bits[n - 1] := bits[n - 1] || id / 4 % 2 == 1;
    bits[n - 2] := bits[n - 2] || id / 2 % 2 == 1;
    bits[n - 3] := bits[n - 3] || id % 2 == 1;
  }

  /** The mask after the digits whose bits start at `low` have been read. */
  ghost predicate Applied(s: string, before: seq<bool>, now: seq<bool>, low: nat) {
    |now| == |before| &&
    forall k :: 0 <= k < |now| ==> now[k] == (before[k] || (low <= k && DigitBit(s, k)))
  }

  lemma AppliedStep(s: string, before: seq<bool>, now: seq<bool>, after: seq<bool>, j: nat)
    requires j < |s| && IsHex(s[j]) && 4 * |s| <= |now| == |after| && Applied(s, before, now, 4 * (|s| - j))
    requires var m, id := 4 * (|s| - 1 - j), HexValue(s[j]);
             && after[m] == (now[m] || Bit(id, 0)) && after[m + 1] == (now[m + 1] || Bit(id, 1))
             && after[m + 2] == (now[m + 2] || Bit(id, 2)) && after[m + 3] == (now[m + 3] || Bit(id, 3))
             && forall k :: 0 <= k < |now| && !(m <= k <= m + 3) ==> after[k] == now[k]
    ensures Applied(s, before, after, 4 * (|s| - 1 - j))
  {
    BlockBit(s, j, 0);
    BlockBit(s, j, 1);
    BlockBit(s, j, 2);
    BlockBit(s, j, 3);
  }

  ghost predicate FirstBad(s: string, j: nat) {
    j < |s| && !IsHex(s[j]) && forall i :: 0 <= i < j ==> IsHex(s[i])
  }

  /** The bits of the digits before `j`, and no others, have been added. */
  ghost predicate StoppedAt(s: string, before: seq<bool>, now: seq<bool>, j: nat) {
    j <= |s| && Applied(s, before, now, 4 * (|s| - j))
  }

  /** `parse_cpu_mask`. */
  method ParseCpuMask(mask: string, bits: array<bool>) returns (ok: bool)
    requires bits.Length == MAX_THREADS
    modifies bits
    ensures ok <==> AllHex(Digits(mask))
    ensures ok ==> forall k :: 0 <= k < MAX_THREADS ==> bits[k] == (old(bits[k]) || Bit(Number(Digits(mask)), k))
    ensures !ok ==> exists j :: FirstBad(Digits(mask), j) && StoppedAt(Digits(mask), old(bits[..]), bits[..], j)
  {
    var s := Digits(mask);
    ghost var before := bits[..];
    NothingAbove(s, before);
    var j := 0;
    while j < |s|
      invariant 0 <= j <= |s| && Applied(s, before, bits[..], 4 * (|s| - j))
      invariant forall i :: 0 <= i < j ==> IsHex(s[i])
    {
      if !IsHex(s[j]) {
        assert FirstBad(s, j) && StoppedAt(s, before, bits[..], j);
        return false;
      }
      ghost var now := bits[..];
      SetDigit(bits, 4 * (|s| - j) - 1, HexValue(s[j]));
      AppliedStep(s, before, now, bits[..], j);
      j := j + 1;
    }
    forall k | 0 <= k < MAX_THREADS ensures bits[k] == (before[k] || Bit(Number(s), k)) {
      BitOfNumber(s, k);
      assert bits[k] == bits[..][k];
    }
    return true;
  }

  lemma NothingAbove(s: string, before: seq<bool>)
    ensures Applied(s, before, before, 4 * |s|)
  {
  }

  lemma FourBits(d: nat)
    requires d < 16
    ensures Bit(d, 0) == (d % 2 == 1) && Bit(d, 1) == (d / 2 % 2 == 1)
    ensures Bit(d, 2) == (d / 4 % 2 == 1) && Bit(d, 3) == (d / 8 % 2 == 1)
  {
    Quarter(d);
    Quarter(d / 2);
    assert d / 2 / 4 == d / 8;
  }

  lemma Quarter(d: nat)
    ensures Bit(d, 1) == (d / 2 % 2 == 1) && Bit(d, 2) == (d / 4 % 2 == 1)
    ensures forall k: nat :: k > 0 ==> Bit(d, k) == Bit(d / 2, k - 1)
  {
    assert Bit(d, 1) == Bit(d / 2, 0);
    assert Bit(d, 2) == Bit(d / 2, 1) == Bit(d / 2 / 2, 0);
    assert d / 2 / 2 == d / 4;
  }

  // ----- how a mask may be written -----

  predicate Prefixed(mask: string) { |mask| >= 2 && mask[0] == '0' && mask[1] == 'x' }

  /** A prefix makes no difference, and only the first 128 digits count. */
  lemma DigitsAre(mask: string)
    requires !Prefixed(mask)
    ensures Digits("0x" + mask) == Digits(mask) <= mask
    ensures |Digits(mask)| == if |mask| > 128 then 128 else |mask|
  {
    assert ("0x" + mask)[..2] == "0x" && ("0x" + mask)[2..] == mask;
    assert |mask| >= 2 ==> mask[..2][0] == mask[0] && mask[..2][1] == mask[1];
  }

  /** The digits in their order, in either case, stand for 0 to 15. */
  lemma DigitValues(v: nat)
    requires v < 16
    ensures IsHex("0123456789abcdef"[v]) && HexValue("0123456789abcdef"[v]) == v
    ensures IsHex("0123456789ABCDEF"[v]) && HexValue("0123456789ABCDEF"[v]) == v
  {
  }

  predicate SameDigits(s: string, t: string) {
    |s| == |t| && forall i :: 0 <= i < |s| ==> IsHex(s[i]) && IsHex(t[i]) && HexValue(s[i]) == HexValue(t[i])
  }

  /** A number does not depend on the case of its digits. */
  lemma {:induction false} SameNumber(s: string, t: string)
    requires SameDigits(s, t)
    ensures AllHex(s) && AllHex(t) && Number(s) == Number(t)
  {
    if s != "" {
      SameNumber(s[..|s| - 1], t[..|t| - 1]);
    }
  }
}
