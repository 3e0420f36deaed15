/** What several modules share: optional values, bytes, the classes of ASCII characters and facts about sequences. */
module Basics {

  datatype Option<T> = None | Some(value: T)

  type Byte = b: int | 0 <= b < 256

  /** `isspace` of the C locale. */
  predicate IsSpace(c: char) { c == ' ' || '\t' <= c <= '\r' }

  predicate IsDigit(c: char) { '0' <= c <= '9' }

  predicate IsHex(c: char) { IsDigit(c) || 'a' <= c <= 'f' || 'A' <= c <= 'F' }

  /** The value of a hexadecimal digit, and 0 for any other character. */
  function HexValue(c: char): (v: nat)
    ensures v < 16
  {
    if IsDigit(c) then (c as int) - ('0' as int)
    else if 'a' <= c <= 'f' then (c as int) - ('a' as int) + 10
    else if 'A' <= c <= 'F' then (c as int) - ('A' as int) + 10
    else 0
  }

  predicate AllHex(s: string) { forall i :: 0 <= i < |s| ==> IsHex(s[i]) }

  lemma Regrouped<T>(a: seq<T>, b: seq<T>, c: seq<T>)
    ensures a + (b + c) == (a + b) + c
  {
  }

  lemma RestOfRest<T>(s: seq<T>, i: nat, k: nat)
    requires i + k <= |s|
    ensures s[i..][k..] == s[i + k..]
  {
  }

  lemma PrefixCancels<T>(a: seq<T>, x: seq<T>, y: seq<T>)
    ensures a + x <= a + y <==> x <= y
  {
    if a + x <= a + y {
      assert (a + x)[|a|..] == x && (a + y)[|a|..|a| + |x|] == y[..|x|];
      assert (a + y)[..|a| + |x|] == a + x;
    }
  }
}
