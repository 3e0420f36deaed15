/** common/chat-peg-parser.cpp:78-160: Python-style quotes become JSON quotes without changing what is said. */
module QuoteNormalization {
  import opened Basics

  datatype Quote = Outside | Single | Double

  /** What one step reads: the text it writes, the quote state after it and the characters it uses. */
  datatype Piece = Piece(text: string, after: Quote, used: nat)

  /** One step at character `c`, with the character after it when there is one. */
  function PieceAt(q: Quote, c: char, more: bool, next: char): (p: Piece)
    ensures 1 <= p.used <= 2 && (p.used == 2 ==> more)
  {
    if c == '\\' && more then
      match q
      case Single =>
        if next == '\'' then Piece("'", q, 2)
        else if next == '"' then Piece("\\\"", q, 2)
        else Piece([c, next], q, 2)
      case Double => Piece([c, next], q, 2)
      case Outside => Piece([c], q, 1)
    else if c == '"' then
      if q == Single then Piece("\\\"", q, 1)
      else Piece("\"", if q == Double then Outside else Double, 1)
    else if c == '\'' then
      match q
      case Double => Piece("'", q, 1)
      case Single => Piece("\"", Outside, 1)
      case Outside => Piece("\"", Single, 1)
    else Piece([c], q, 1)
  }

  function NextPiece(q: Quote, s: string): (p: Piece)
    requires s != ""
    ensures 1 <= p.used <= 2 && p.used <= |s|
  {
    PieceAt(q, s[0], |s| > 1, if |s| > 1 then s[1] else s[0])
  }

  function Normalized(q: Quote, s: string): string
    decreases |s|
  {
    if s == "" then ""
    else var p := NextPiece(q, s); p.text + Normalized(p.after, s[p.used..])
  }

  function QuoteState(inSingle: bool, inDouble: bool): Quote {
    if inSingle then Single else if inDouble then Double else Outside
  }

  /** The piece at `i`. */
  function PieceOf(q: Quote, input: string, i: nat): (p: Piece)
    requires i < |input|
    ensures i + p.used <= |input| && p.used > 0
  {
    PieceAt(q, input[i], i + 1 < |input|, if i + 1 < |input| then input[i + 1] else input[i])
  }

  lemma PieceExtends(result: string, q: Quote, input: string, i: nat)
    requires i < |input|
    ensures var p := PieceOf(q, input, i);
            result + Normalized(q, input[i..]) == (result + p.text) + Normalized(p.after, input[i + p.used..])
  {
    var p := PieceOf(q, input, i);
    PieceOfRest(q, input, i, input[i..]);
    RestOfRest(input, i, p.used);
    Regrouped(result, p.text, Normalized(p.after, input[i + p.used..]));
  }

  lemma PieceOfRest(q: Quote, input: string, i: nat, rest: string)
    requires i < |input| && rest == input[i..]
    ensures NextPiece(q, rest) == PieceOf(q, input, i)
  {
    assert rest[0] == input[i] && (|rest| > 1 ==> rest[1] == input[i + 1]);
  }

  /** One turn of the loop (lines 90-157). */
  method NormalizeOne(input: string, i: nat, inSingle: bool, inDouble: bool)
    returns (text: string, used: nat, inSingle': bool, inDouble': bool)
    requires i < |input| && !(inSingle && inDouble)
    ensures var p := PieceOf(QuoteState(inSingle, inDouble), input, i);
            text == p.text && used == p.used && QuoteState(inSingle', inDouble') == p.after && !(inSingle' && inDouble')
  {
    inSingle', inDouble', used := inSingle, inDouble, 1;
    var c := input[i];
    if c == '\\' && i + 1 < |input| && (inSingle || inDouble) {
      var next := input[i + 1];
      if inSingle && next == '\'' {
        text := "'";
      } else if inSingle && next == '"' {
        text := "\\\"";
      } else {
        text := [c, next];
      }
      used := 2;
    } else if c == '"' {
      if inSingle {
        text := "\\\"";
      } else {
        inDouble' := !inDouble;
        text := "\"";
      }
    } else if c == '\'' {
      if inDouble {
        text := "'";
      } else {
        inSingle' := !inSingle;
        text := "\"";
      }
    } else {
      text := [c];
    }
  }

  /** `normalize_quotes_to_json`. */
  method NormalizeQuotes(input: string) returns (result: string)
    ensures result == Normalized(Outside, input)
  {
    result := "";
    var inSingle, inDouble := false, false;
    var i := 0;
    while i < |input|
      invariant 0 <= i <= |input| && !(inSingle && inDouble)
      invariant result + Normalized(QuoteState(inSingle, inDouble), input[i..]) == Normalized(Outside, input)
    {
      PieceExtends(result, QuoteState(inSingle, inDouble), input, i);
      var text, used, s, d := NormalizeOne(input, i, inSingle, inDouble);
      result, i, inSingle, inDouble := result + text, i + used, s, d;
    }
  }

  // ----- what a text says -----

  /** Structure, the borders of strings, and the characters of strings, where `Escaped(x)` is the character written \x. */
  datatype Token = Structural(c: char) | Border | Char(c: char) | Escaped(c: char)

  datatype Reading = Reading(token: Token, after: Quote, used: nat)

  /** Reading with both kinds of quotes; in either kind \" is a double quote, in single quotes \' is a single quote. */
  function ReadMixedOne(q: Quote, s: string): (r: Reading)
    requires s != ""
    ensures 1 <= r.used <= |s|
  {
    var c := s[0];
    if q == Outside then
      if c == '"' then Reading(Border, Double, 1)
      else if c == '\'' then Reading(Border, Single, 1)
      else Reading(Structural(c), Outside, 1)
    else if c == '\\' && |s| > 1 then
      if s[1] == '"' || (q == Single && s[1] == '\'') then Reading(Char(s[1]), q, 2) else Reading(Escaped(s[1]), q, 2)
    else if (q == Double && c == '"') || (q == Single && c == '\'') then Reading(Border, Outside, 1)
    else Reading(Char(c), q, 1)
  }

  function ReadMixed(q: Quote, s: string): seq<Token>
    decreases |s|
  {
    if s == "" then [] else var r := ReadMixedOne(q, s); [r.token] + ReadMixed(r.after, s[r.used..])
  }

  /** Reading JSON, which knows double quotes only. */
  function ReadJsonOne(inString: bool, s: string): (Token, bool, nat)
    requires s != ""
  {
    var c := s[0];
    if !inString then (if c == '"' then Border else Structural(c), c == '"', 1)
    else if c == '\\' && |s| > 1 then (if s[1] == '"' then Char('"') else Escaped(s[1]), true, 2)
    else if c == '"' then (Border, false, 1)
    else (Char(c), true, 1)
  }

  function ReadJson(inString: bool, s: string): seq<Token>
    decreases |s|
  {
    if s == "" then []
    else
      var (t, after, n) := ReadJsonOne(inString, s);
      [t] + ReadJson(after, if n <= |s| then s[n..] else "")
  }

  /** One written piece is one token. */
  lemma PieceIsToken(q: Quote, s: string, rest: string)
    requires s != "" && (NextPiece(q, s).used == |s| ==> rest == "")
    ensures var p, r := NextPiece(q, s), ReadMixedOne(q, s);
            && p.after == r.after && p.used == r.used && p.text != ""
            && ReadJsonOne(q != Outside, p.text + rest) == (r.token, p.after != Outside, |p.text|)
  {
    var p := NextPiece(q, s);
    var t := p.text + rest;
    assert t[0] == p.text[0];
    if |p.text| == 2 {
      assert t[1] == p.text[1];
    }
  }

  /** Reading one written piece. */
  lemma PieceReads(q: Quote, s: string, rest: string)
    requires s != "" && (NextPiece(q, s).used == |s| ==> rest == "")
    ensures var p, r := NextPiece(q, s), ReadMixedOne(q, s);
            && p.after == r.after && p.used == r.used
            && ReadJson(q != Outside, p.text + rest) == [r.token] + ReadJson(p.after != Outside, rest)
  {
    PieceIsToken(q, s, rest);
    var p := NextPiece(q, s);
    assert (p.text + rest)[|p.text|..] == rest;
  }

  /** Normalising keeps the structure and the contents of every string. */
  lemma {:induction false} NormalizingKeepsMeaning(q: Quote, s: string)
    ensures ReadJson(q != Outside, Normalized(q, s)) == ReadMixed(q, s)
    decreases |s|
  {
    if s != "" {
      var p := NextPiece(q, s);
      var rest := s[p.used..];
      PieceReads(q, s, Normalized(p.after, rest));
      NormalizingKeepsMeaning(p.after, rest);
    }
  }

  /** The state in which the written text is read again. */
  function Again(q: Quote): Quote { if q == Outside then Outside else Double }

  /** A written piece is read again as itself. */
  lemma PieceAgain(q: Quote, s: string, rest: string)
    requires s != ""
    requires NextPiece(q, s).used == |s| ==> rest == ""
    ensures var p := NextPiece(q, s);
            p.text != "" && NextPiece(Again(q), p.text + rest) == Piece(p.text, Again(p.after), |p.text|)
  {
    var p := NextPiece(q, s);
    var t := p.text + rest;
    assert t[0] == p.text[0];
    if |p.text| == 2 {
      assert t[1] == p.text[1];
    }
  }

  lemma PieceIsStable(q: Quote, s: string, rest: string)
    requires s != ""
    requires NextPiece(q, s).used == |s| ==> rest == ""
    ensures var p := NextPiece(q, s);
            Normalized(Again(q), p.text + rest) == p.text + Normalized(Again(p.after), rest)
  {
    var p := NextPiece(q, s);
    PieceAgain(q, s, rest);
    assert (p.text + rest)[|p.text|..] == rest;
  }

  /** Normalising a normalised text changes nothing. */
  lemma {:induction false} NormalizingIsIdempotent(q: Quote, s: string)
    ensures Normalized(Again(q), Normalized(q, s)) == Normalized(q, s)
    decreases |s|
  {
    if s != "" {
      var p := NextPiece(q, s);
      var rest := s[p.used..];
      PieceIsStable(q, s, Normalized(p.after, rest));
      NormalizingIsIdempotent(p.after, rest);
    }
  }

  /** No string of the text is delimited by single quotes. */
  predicate DoubleQuotedOnly(q: Quote, s: string)
    decreases |s|
  {
    s == "" || (var r := ReadMixedOne(q, s); r.after != Single && DoubleQuotedOnly(r.after, s[r.used..]))
  }

  /** A text is left as it is exactly when it has no single-quoted string. */
  lemma {:induction false} UnchangedExactly(q: Quote, s: string)
    requires q != Single
    ensures Normalized(q, s) == s <==> DoubleQuotedOnly(q, s)
    decreases |s|
  {
    if s != "" {
      var p := NextPiece(q, s);
      var rest := s[p.used..];
      PieceReads(q, s, if rest == "" then "" else rest);
      if p.after != Single {
        assert p.text == s[..p.used];
        assert s == s[..p.used] + rest;
        UnchangedExactly(p.after, rest);
        assert (p.text + Normalized(p.after, rest))[p.used..] == Normalized(p.after, rest);
      } else {
        assert (p.text + Normalized(p.after, rest))[0] == '"';
      }
    }
  }

  // ----- texts that are still being read -----

  /** The text stops behind a backslash inside a single-quoted string. */
  predicate Dangles(q: Quote, s: string)
    decreases |s|
  {
    if |s| < 2 then q == Single && s == "\\"
    else var p := NextPiece(q, s); Dangles(p.after, s[p.used..])
  }

  /** What the backslash at the end of `v` turns out to be in `w`: an escaped single quote, for which it is not written. */
  predicate Undone(q: Quote, v: string, w: string) { Dangles(q, v) && |v| < |w| && w[|v|] == '\'' }

  lemma PieceOfLonger(q: Quote, v: string, w: string, p: Piece)
    requires v <= w && (|v| > 1 || (|v| == 1 && v != "\\")) && p == NextPiece(q, v)
    ensures p == NextPiece(q, w) && v[p.used..] <= w[p.used..]
  {
    assert v[0] == w[0] && (|v| > 1 ==> v[1] == w[1]);
  }

  /** A backslash at the end of what is read so far. */
  lemma BackslashCut(q: Quote, w: string)
    requires "\\" <= w
    ensures Normalized(q, "\\") == "\\"
    ensures "\\" <= Normalized(q, w) <==> !Undone(q, "\\", w)
  {
    var v := "\\";
    assert v[1..] == "" && Normalized(q, "") == "" && w[0] == '\\';
  }

  /** What is normalised of a text that is cut begins the whole exactly when the cut is not undone. */
  lemma {:induction false} NormalizedCutExactly(q: Quote, v: string, w: string)
    requires v <= w
    ensures Normalized(q, v) <= Normalized(q, w) <==> !Undone(q, v, w)
    decreases |v|
  {
    if v == "\\" {
      BackslashCut(q, w);
    } else if v != "" {
      var p := NextPiece(q, v);
      PieceOfLonger(q, v, w, p);
      NormalizedCutExactly(p.after, v[p.used..], w[p.used..]);
      PrefixCancels(p.text, Normalized(p.after, v[p.used..]), Normalized(p.after, w[p.used..]));
    }
  }
}
