/** common/common.cpp:576-611: backslash escapes replaced in the string that holds them. */
module Escapes {
  import opened Basics

  /** What `strtol` makes of exactly two characters in base 16: a blank or a sign may stand before one digit. */
  function HexPair(a: char, b: char): (r: Option<char>)
    ensures r.Some? ==> (r.value as int) < 256
  {
    if !IsHex(b) then None
    else
      var low := HexValue(b);
      if IsHex(a) then Some((16 * HexValue(a) + low) as char)
      else if IsSpace(a) || a == '+' then Some(low as char)
      else if a == '-' then Some((if low == 0 then 0 else 256 - low) as char)
      else None
  }

  /** One step of the replacement: what is written and how many characters are read. */
  datatype Piece = Piece(text: string, used: nat)

  function PieceAt(s: string, i: nat): (p: Piece)
    requires i < |s|
    ensures 1 <= |p.text| <= p.used && i + p.used <= |s|
  {
    if s[i] != '\\' || i + 1 == |s| then Piece([s[i]], 1)
    else
      var c := s[i + 1];
      if c == 'n' then Piece("\n", 2)
      else if c == 'r' then Piece("\r", 2)
      else if c == 't' then Piece("\t", 2)
      else if c == '\'' || c == '"' || c == '\\' then Piece([c], 2)
      else if c == 'x' && i + 3 < |s| && HexPair(s[i + 2], s[i + 3]).Some? then
        Piece([HexPair(s[i + 2], s[i + 3]).value], 4)
      else Piece(['\\', c], 2)
  }

  /** The text from position i on with its escapes replaced, left to right. */
  function Unescaped(s: string, i: nat): string
    requires i <= |s|
    decreases |s| - i
  {
    if i == |s| then "" else var p := PieceAt(s, i); p.text + Unescaped(s, i + p.used)
  }

  /** The characters that decide a piece are all unread. */
  lemma PieceFromUnread(s: string, t: string, i: nat)
    requires i < |s| == |t| && s[i..] == t[i..]
    ensures PieceAt(s, i) == PieceAt(t, i)
  {
    assert forall k :: i <= k < |s| ==> s[k] == s[i..][k - i] && t[k] == t[i..][k - i];
  }

  /** The piece at i has been written at n, and what is before n or not yet read has not changed. */
  ghost predicate Replaced(now: string, after: string, i: nat, n: nat, i': nat, n': nat)
    requires n <= i < |now|
  {
    var p := PieceAt(now, i);
    && |after| == |now| && i' == i + p.used && n' == n + |p.text| && n' <= i' <= |now|
    && (forall k :: 0 <= k < n ==> after[k] == now[k])
    && (forall k :: n <= k < n' ==> after[k] == p.text[k - n])
    && (forall k :: i' <= k < |now| ==> after[k] == now[k])
  }

  /** One turn of the loop (lines 580-607): reads at i, writes at n, both in the same array. */
  method ReplaceOne(buf: array<char>, i: nat, n: nat) returns (i': nat, n': nat)
    requires n <= i < buf.Length
    modifies buf
    ensures Replaced(old(buf[..]), buf[..], i, n, i', n')
  {
    if buf[i] == '\\' && i + 1 < buf.Length {
      i', n' := i + 2, n + 1;
      var c := buf[i + 1];
      if c == 'n' {
        buf[n] := '\n';
      } else if c == 'r' {
        buf[n] := '\r';
      } else if c == 't' {
        buf[n] := '\t';
      } else if c == '\'' || c == '"' || c == '\\' {
        buf[n] := c;
      } else if c == 'x' && i + 3 < buf.Length && HexPair(buf[i + 2], buf[i + 3]).Some? {
        buf[n] := HexPair(buf[i + 2], buf[i + 3]).value;
        i' := i + 4;
      } else {
        // two characters are written; the second is still unread at this point
        buf[n] := '\\';
        buf[n + 1] := buf[i + 1];
        n' := n + 2;
      }
    } else {
      buf[n] := buf[i];
      i', n' := i + 1, n + 1;
    }
  }

  /** What the loop knows: written text and unread text together still give the result. */
  ghost predicate Progress(text: string, now: string, i: nat, n: nat) {
    && n <= i <= |text| == |now|
    && now[i..] == text[i..]
    && now[..n] + Unescaped(text, i) == Unescaped(text, 0)
  }

  lemma ProgressStep(text: string, now: string, after: string, i: nat, n: nat, i': nat, n': nat)
    requires Progress(text, now, i, n) && i < |text| && Replaced(now, after, i, n, i', n')
    ensures Progress(text, after, i', n') && i < i'
  {
    var p := PieceAt(now, i);
    PieceFromUnread(now, text, i);
    PieceWritten(now, after, n, p.text);
    Regrouped(now[..n], p.text, Unescaped(text, i'));
    Unread(text, now, after, i, p.used);
  }

  lemma PieceWritten(now: string, after: string, n: nat, t: string)
    requires n + |t| <= |after| == |now|
    requires forall k :: 0 <= k < n ==> after[k] == now[k]
    requires forall k :: n <= k < n + |t| ==> after[k] == t[k - n]
    ensures after[..n + |t|] == now[..n] + t
  {
  }

  lemma Unread(text: string, now: string, after: string, i: nat, used: nat)
    requires i + used <= |text| == |now| == |after| && now[i..] == text[i..]
    requires forall k :: i + used <= k < |now| ==> after[k] == now[k]
    ensures after[i + used..] == text[i + used..]
  {
    assert now[i + used..] == now[i..][used..] && text[i + used..] == text[i..][used..];
    assert after[i + used..] == now[i + used..];
  }

  /** `string_process_escapes`: the write index never overtakes the read index, so the result is that of the original text. */
  method ProcessEscapes(buf: array<char>) returns (n: nat)
    modifies buf
    ensures n <= buf.Length && buf[..n] == Unescaped(old(buf[..]), 0)
  {
    var i := 0;
    n := 0;
    ghost var text := buf[..];
    while i < buf.Length
      invariant Progress(text, buf[..], i, n)
      decreases buf.Length - i
    {
      ghost var now, m, j := buf[..], n, i;
      i, n := ReplaceOne(buf, i, n);
      ProgressStep(text, now, buf[..], j, m, i, n);
    }
    assert buf[..][..n] == buf[..n];
  }

  // ----- escapes can write every text -----

  /** Every backslash doubled. */
  function Doubled(t: string): string {
    if t == "" then "" else (if t[0] == '\\' then "\\\\" else [t[0]]) + Doubled(t[1..])
  }

  lemma UnescapedFrom(s: string, i: nat)
    requires i <= |s|
    ensures Unescaped(s, i) == Unescaped(s[i..], 0)
    decreases |s| - i
  {
    if i < |s| {
      var p := PieceAt(s, i);
      PieceOfRest(s, i);
      UnescapedFrom(s, i + p.used);
      UnescapedFrom(s[i..], p.used);
      RestOfRest(s, i, p.used);
    }
  }

  lemma PieceOfRest(s: string, i: nat)
    requires i < |s|
    ensures PieceAt(s[i..], 0) == PieceAt(s, i)
  {
    var rest := s[i..];
    assert forall k :: 0 <= k < |rest| ==> rest[k] == s[i + k];
  }

  /** Unescaping a text with doubled backslashes gives the text back. */
  lemma {:induction false} DoubledRoundTrip(t: string)
    ensures Unescaped(Doubled(t), 0) == t
  {
    if t != "" {
      var d := Doubled(t);
      var k := if t[0] == '\\' then 2 else 1;
      assert d[k..] == Doubled(t[1..]);
      UnescapedFrom(d, k);
      DoubledRoundTrip(t[1..]);
      assert t == [t[0]] + t[1..];
    }
  }

  // ----- every escape -----

  /** The escapes of one letter: the character behind the backslash, and what it stands for. */
  const SHORT: map<char, char> :=
    map['n' := '\n', 'r' := '\r', 't' := '\t', '\'' := '\'', '"' := '"', '\\' := '\\']

  /** A way to write `t`: a character as it is, a short escape, \x and what `strtol` reads as a number, or an escape that is none. */
  predicate Writes(w: string, t: string) {
    || (|w| == 1 && w[0] != '\\' && t == w)
    || (|w| == 2 && w[0] == '\\' && w[1] in SHORT && t == [SHORT[w[1]]])
    || (|w| == 4 && w[0] == '\\' && w[1] == 'x' && IsHex(w[2]) && IsHex(w[3]) &&
          t == [(16 * HexValue(w[2]) + HexValue(w[3])) as char])
    || (|w| == 4 && w[0] == '\\' && w[1] == 'x' && (IsSpace(w[2]) || w[2] == '+') && IsHex(w[3]) &&
          t == [HexValue(w[3]) as char])
    || (|w| == 4 && w[..3] == "\\x-" && IsHex(w[3]) && t == [((256 - HexValue(w[3])) % 256) as char])
    || (|w| == 2 && w[0] == '\\' && w[1] !in SHORT && w[1] != 'x' && t == w)
  }

  ghost predicate AllWrite(ws: seq<string>, ts: seq<string>) {
    |ws| == |ts| && forall i :: 0 <= i < |ws| ==> Writes(ws[i], ts[i])
  }

  function Concat(ts: seq<string>): string {
    if ts == [] then "" else ts[0] + Concat(ts[1..])
  }

  lemma WrittenPiece(w: string, t: string, rest: string)
    requires Writes(w, t)
    ensures PieceAt(w + rest, 0) == Piece(t, |w|)
  {
    assert forall k :: 0 <= k < |w| ==> (w + rest)[k] == w[k];
    if |w| == 4 && w[..3] == "\\x-" {
      assert w[0] == w[..3][0] && w[1] == w[..3][1] && w[2] == w[..3][2];
    }
  }

  lemma WrittenFirst(w: string, t: string, rest: string)
    requires Writes(w, t)
    ensures Unescaped(w + rest, 0) == t + Unescaped(rest, 0)
  {
    WrittenPiece(w, t, rest);
    UnescapedFrom(w + rest, |w|);
    assert (w + rest)[|w|..] == rest;
  }

  /** However each part of a text is written, unescaping gives the text. */
  lemma {:induction false} EscapesAreRead(ws: seq<string>, ts: seq<string>)
    requires AllWrite(ws, ts)
    ensures Unescaped(Concat(ws), 0) == Concat(ts)
    decreases |ws|
  {
    if ws != [] {
      assert forall i :: 0 <= i < |ws| - 1 ==> ws[1..][i] == ws[i + 1] && ts[1..][i] == ts[i + 1];
      EscapesAreRead(ws[1..], ts[1..]);
      WrittenFirst(ws[0], ts[0], Concat(ws[1..]));
    }
  }
}
