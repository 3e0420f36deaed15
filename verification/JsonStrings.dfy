/** Writing a text as a JSON string, the way `json(s).dump()` does, and reading it back. */
module JsonStrings {
  import opened Basics
  import opened Json
  import G = JsonGrammar

  function HexDigit(n: nat): char
    requires n < 16
  {
    "0123456789abcdef"[n]
  }

  /** One character as it is written inside a JSON string. */
  function EscapeChar(c: char): string {
    if c == '"' then "\\\""
    else if c == '\\' then "\\\\"
    else if c == '\U{08}' then "\\b"
    else if c == '\U{0C}' then "\\f"
    else if c == '\n' then "\\n"
    else if c == '\r' then "\\r"
    else if c == '\t' then "\\t"
    else if c < ' ' then ['\\', 'u', '0', '0', HexDigit((c as int) / 16), HexDigit((c as int) % 16)]
    else [c]
  }

  /** `escape_json_string_inner` (common/chat-peg-parser.cpp:70-76). */
  function Escape(s: string): string {
    if s == "" then "" else EscapeChar(s[0]) + Escape(s[1..])
  }

  /** `json(s).dump()`. */
  function Dump(s: string): string { "\"" + Escape(s) + "\"" }

  lemma {:induction false} EscapeAppend(a: string, b: string)
    ensures Escape(a + b) == Escape(a) + Escape(b)
  {
    if a == "" {
      assert a + b == b;
    } else {
      assert (a + b)[1..] == a[1..] + b;
      EscapeAppend(a[1..], b);
    }
  }

  /** A longer text is written as a continuation of a shorter one. */
  lemma EscapeMonotone(a: string, b: string)
    requires a <= b
    ensures Escape(a) <= Escape(b)
  {
    assert b == a + b[|a|..];
    EscapeAppend(a, b[|a|..]);
  }

  // ----- the recogniser's view -----

  lemma EscapeCharRuns(stack: seq<Frame>, isKey: bool, c: char)
    ensures Run(Live(stack, InString(isKey, Plain)), EscapeChar(c)) == Live(stack, InString(isKey, Plain))
  {
    var s := Live(stack, InString(isKey, Plain));
    var e := EscapeChar(c);
    if |e| == 1 {
      assert e == [e[0]] + "";
      RunCons(s, e[0], "");
    } else if |e| == 2 {
      assert e == [e[0]] + ([e[1]] + "");
      RunCons(s, e[0], [e[1]] + "");
      RunCons(Step(s, e[0]), e[1], "");
    } else {
      ControlRuns(s, e[4], e[5]);
    }
  }

  lemma ControlRuns(s: State, a: char, b: char)
    requires s.Live? && s.mode.InString? && s.mode.part.Plain? && IsHex(a) && IsHex(b)
    ensures Run(s, ['\\', 'u', '0', '0', a, b]) == s
  {
    var w := [a] + ([b] + "");
    assert ['\\', 'u', '0', '0', a, b] == ['\\'] + (['u'] + (['0'] + (['0'] + w)));
    ZeroZeroRuns(s, w);
    var s4 := Live(s.stack, InString(s.mode.isKey, Unicode("0" + "0")));
    RunCons(s4, a, [b] + "");
    RunCons(Step(s4, a), b, "");
  }

  lemma ZeroZeroRuns(s: State, w: string)
    requires s.Live? && s.mode.InString? && s.mode.part.Plain?
    ensures Run(s, ['\\'] + (['u'] + (['0'] + (['0'] + w)))) == Run(Live(s.stack, InString(s.mode.isKey, Unicode("0" + "0"))), w)
  {
    RunCons(s, '\\', ['u'] + (['0'] + (['0'] + w)));
    var s1 := Step(s, '\\');
    RunCons(s1, 'u', ['0'] + (['0'] + w));
    var s2 := Step(s1, 'u');
    RunCons(s2, '0', ['0'] + w);
    var s3 := Step(s2, '0');
    assert "" + ['0'] == "0";
    RunCons(s3, '0', w);
    assert Step(s3, '0') == Live(s.stack, InString(s.mode.isKey, Unicode("0" + "0")));
  }

  lemma {:induction false} EscapeRuns(stack: seq<Frame>, isKey: bool, s: string)
    ensures Run(Live(stack, InString(isKey, Plain)), Escape(s)) == Live(stack, InString(isKey, Plain))
  {
    if s != "" {
      EscapeCharRuns(stack, isKey, s[0]);
      RunAppend(Live(stack, InString(isKey, Plain)), EscapeChar(s[0]), Escape(s[1..]));
      EscapeRuns(stack, isKey, s[1..]);
    }
  }

  /** A dumped text is one string token. */
  lemma DumpRuns(s: State, stack: seq<Frame>, isKey: bool, text: string)
    requires Step(s, '"') == Live(stack, InString(isKey, Plain))
    ensures Run(s, Dump(text)) == EndString(stack, isKey)
  {
    var inside := Live(stack, InString(isKey, Plain));
    assert Dump(text) == ['"'] + (Escape(text) + (['"'] + ""));
    RunCons(s, '"', Escape(text) + (['"'] + ""));
    RunAppend(inside, Escape(text), ['"'] + "");
    EscapeRuns(stack, isKey, text);
    RunCons(inside, '"', "");
  }

  // ----- reading back -----

  /** The number written with the four digits from `i` on. */
  function FourDigits(body: string, i: nat): (r: nat)
    requires i + 4 <= |body|
    ensures r < 0x10000
  {
    4096 * HexValue(body[i]) + 256 * HexValue(body[i + 1]) + 16 * HexValue(body[i + 2]) + HexValue(body[i + 3])
  }

  /** The low surrogate of a pair, which is written behind the first six characters. */
  predicate LowFollows(body: string) {
    |body| >= 12 && body[6] == '\\' && body[7] == 'u' && 0xDC00 <= FourDigits(body, 8) < 0xE000
  }

  /** The character written in the four-digit form; half a pair, which no JSON text holds, counts as U+FFFD. */
  function ReadUnicode(body: string): (char, nat)
    requires |body| >= 6
  {
    var u := FourDigits(body, 2);
    if 0xD800 <= u < 0xDC00 && LowFollows(body) then
      ((0x10000 + 0x400 * (u - 0xD800) + (FourDigits(body, 8) - 0xDC00)) as char, 12)
    else if 0xD800 <= u < 0xE000 then ('\U{FFFD}', 6)
    else (u as char, 6)
  }

  /** The first character denoted by a string body and how many it is written with (section 7 of RFC 8259). */
  function ReadChar(body: string): (char, nat)
    requires body != ""
  {
    if body[0] != '\\' || |body| == 1 then (body[0], 1)
    else if body[1] == 'b' then ('\U{08}', 2)
    else if body[1] == 'f' then ('\U{0C}', 2)
    else if body[1] == 'n' then ('\n', 2)
    else if body[1] == 'r' then ('\r', 2)
    else if body[1] == 't' then ('\t', 2)
    else if body[1] == 'u' && |body| >= 6 then ReadUnicode(body)
    else (body[1], 2)
  }

  function Unescape(body: string): string
    decreases |body|
  {
    if body == "" then ""
    else
      var (c, n) := ReadChar(body);
      [c] + Unescape(if n <= |body| then body[n..] else "")
  }

  lemma EscapeCharReads(c: char, rest: string)
    ensures ReadChar(EscapeChar(c) + rest) == (c, |EscapeChar(c)|)
  {
    var w := EscapeChar(c);
    var e := w + rest;
    assert e[0] == w[0] && (|w| > 1 ==> e[1] == w[1]);
    if |w| == 6 {
      ControlReads(c, w, e);
    }
  }

  lemma ControlReads(c: char, w: string, e: string)
    requires (c as int) < 32 && w == ['\\', 'u', '0', '0', HexDigit((c as int) / 16), HexDigit((c as int) % 16)] && w <= e
    ensures ReadUnicode(e) == (c, 6)
  {
    assert forall i :: 0 <= i < 6 ==> e[i] == w[i];
    HexDigitsRead(c);
  }

  lemma HexDigitsRead(c: char)
    requires (c as int) < 256
    ensures var n := c as int; 16 * HexValue(HexDigit(n / 16)) + HexValue(HexDigit(n % 16)) == n
  {
    var n := c as int;
    assert HexValue(HexDigit(n / 16)) == n / 16;
    assert HexValue(HexDigit(n % 16)) == n % 16;
  }

  /** Reading a written text gives the text back. */
  lemma {:induction false} EscapeRoundTrip(s: string)
    ensures Unescape(Escape(s)) == s
  {
    if s != "" {
      var e, rest := EscapeChar(s[0]), Escape(s[1..]);
      EscapeCharReads(s[0], rest);
      assert (e + rest)[|e|..] == rest;
      EscapeRoundTrip(s[1..]);
      assert s == [s[0]] + s[1..];
    }
  }

  /** No written character is the beginning of another. */
  lemma EscapeCharApart(c: char, d: char, v: string, w: string)
    requires EscapeChar(c) + v <= EscapeChar(d) + w
    ensures c == d
  {
    var t := EscapeChar(d) + w;
    var n := |EscapeChar(c)|;
    assert t == EscapeChar(c) + t[n..];
    EscapeCharReads(c, t[n..]);
    EscapeCharReads(d, w);
  }

  /** The written form of one text begins that of another exactly when the text itself does. */
  lemma {:induction false} EscapeExact(a: string, b: string)
    ensures Escape(a) <= Escape(b) <==> a <= b
    decreases |a|
  {
    if a <= b {
      EscapeMonotone(a, b);
    } else if Escape(a) <= Escape(b) {
      EscapeCharApart(a[0], b[0], Escape(a[1..]), Escape(b[1..]));
      PrefixCancels(EscapeChar(a[0]), Escape(a[1..]), Escape(b[1..]));
      EscapeExact(a[1..], b[1..]);
    }
  }

  lemma EscapeLength(c: char)
    ensures |EscapeChar(c)| <= 6 && (|EscapeChar(c)| > 2 ==> c < ' ' && c !in "\U{08}\U{0C}\n\r\t")
    ensures |EscapeChar(c)| == 1 <==> c >= ' ' && c != '"' && c != '\\'
    ensures forall i :: 1 < i < |EscapeChar(c)| ==> !('A' <= EscapeChar(c)[i] <= 'F')
  {
  }

  /** No JSON string writes a character more shortly, and digits are written in lower case. */
  lemma EscapeIsShortest(c: char, u: G.Unit)
    requires G.GoodUnit(u) && ReadChar(G.UnitText(u)) == (c, |G.UnitText(u)|)
    ensures |EscapeChar(c)| <= |G.UnitText(u)|
    ensures forall i :: 1 < i < |EscapeChar(c)| ==> !('A' <= EscapeChar(c)[i] <= 'F')
  {
    EscapeLength(c);
  }

  // ----- no dumped text is the beginning of another -----

  /** Behind a value at the top level only blanks can follow. */
  lemma {:induction false} AfterTopStays(w: string)
    ensures var t := Run(Live([], AfterValue), w); t.Dead? || t == Live([], AfterValue)
    decreases w
  {
    if w != "" {
      if IsWhitespace(w[0]) {
        AfterTopStays(w[1..]);
      } else {
        RunDead(w[1..]);
      }
    }
  }

  /** Reading a dumped text: the string is open until the last character. */
  lemma DumpStaysOpen(text: string, n: nat)
    requires n < |Dump(text)|
    ensures Run(START, Dump(text)[..n]) != Live([], AfterValue)
  {
    var d := Dump(text);
    var body := "\"" + Escape(text);
    assert d == body + "\"" && d[..n] == body[..n];
    if Run(START, body[..n]) == Live([], AfterValue) {
      assert body == body[..n] + body[n..];
      RunAppend(START, body[..n], body[n..]);
      AfterTopStays(body[n..]);
      RunCons(START, '"', Escape(text));
      EscapeRuns([], false, text);
    }
  }

  lemma DumpIsPrefixFree(a: string, b: string)
    requires Dump(a) + ":" <= Dump(b) + ":"
    ensures a == b
  {
    var d, e := Dump(a), Dump(b);
    DumpRuns(START, [], false, a);
    assert d == (e + ":")[..|d|];
    if |d| < |e| {
      assert d == e[..|d|];
      DumpStaysOpen(b, |d|);
    }
    assert d == e;
    assert d[1..|d| - 1] == Escape(a) && e[1..|e| - 1] == Escape(b);
    EscapeRoundTrip(a);
    EscapeRoundTrip(b);
  }
}
