/**
  common/chat-peg-parser.cpp:322-375: how the value of an argument without a declared type is written.  It may be
  JSON, a Python-style container or plain text, and while it is being read it may look like another kind of value.
  */
module PegValues {
  import opened Basics
  import opened Json
  import opened JsonStrings
  import opened QuoteNormalization

  // ----- JSON strings with blanks around them -----

  function SkipBlanks(s: string): string {
    if s != "" && IsWhitespace(s[0]) then SkipBlanks(s[1..]) else s
  }

  function DropBlanks(s: string): string {
    if s != "" && IsWhitespace(s[|s| - 1]) then DropBlanks(s[..|s| - 1]) else s
  }

  /** A JSON text of this kind is a string. */
  predicate IsStringText(s: string) {
    var t := SkipBlanks(s);
    t != "" && t[0] == '"'
  }

  /** The string that a JSON text stands for. */
  function Denoted(s: string): string {
    var t := DropBlanks(SkipBlanks(s));
    if |t| < 2 then "" else Unescape(t[1..|t| - 1])
  }

  // ----- how a value is written -----

  /** As it stands, or as the contents of a JSON string whose closing quote is still to come. */
  datatype Value = Raw(text: string) | Quoted(text: string)

  predicate IsContainer(content: string) { content != "" && (content[0] == '[' || content[0] == '{') }

  function Prepared(content: string): string {
    if IsContainer(content) then Normalized(Outside, content) else content
  }

  function ValueOf(partial: bool, content: string): Value {
    var value := Prepared(content);
    if Accepts(value) then
      if IsStringText(value) then Quoted(Denoted(value)) else Raw(value)
    else if partial && IsContainer(content) then Raw(value)
    else Quoted(value)
  }

  function Written(v: Value): string {
    match v
    case Raw(text) => text
    case Quoted(text) => "\"" + JsonStrings.Escape(text)
  }

  /** What is added to the arguments when no string is open. */
  function UntypedText(partial: bool, content: string): string {
    if content == "" then "" else Written(ValueOf(partial, content))
  }

  /** The same when one may be open: plain text then continues it. */
  function UntypedAdds(quotePending: bool, partial: bool, content: string): string {
    if quotePending && content != "" && !Accepts(Prepared(content)) && ValueOf(partial, content).Quoted? then
      JsonStrings.Escape(Prepared(content))
    else UntypedText(partial, content)
  }

  /** Whether a string is open behind it. */
  predicate LeavesOpen(quotePending: bool, partial: bool, content: string) {
    quotePending || (content != "" && ValueOf(partial, content).Quoted?)
  }

  // ----- what a JSON string stands for -----

  /** A text that is dumped stands for itself. */
  lemma DumpedValue(partial: bool, s: string)
    ensures ValueOf(partial, Dump(s)) == Quoted(s)
  {
    var d := Dump(s);
    assert SkipBlanks(d) == d && DropBlanks(d) == d && d[1..|d| - 1] == JsonStrings.Escape(s);
    EscapeRoundTrip(s);
    DumpRuns(START, [], false, s);
  }

  // ----- values that are still being read -----

  lemma ContainerNormalized(content: string)
    requires IsContainer(content)
    ensures var n := Normalized(Outside, content); n != "" && n[0] == content[0] && !IsStringText(n)
  {
  }

  lemma RawStart(partial: bool, content: string)
    requires content != "" && ValueOf(partial, content).Raw?
    ensures var t := ValueOf(partial, content).text; t != "" && t[0] != '"'
  {
    if IsContainer(content) {
      ContainerNormalized(content);
    }
  }

  /** One written value begins another exactly when both are of a kind and its text begins the other's. */
  lemma WrittenExactly(a: Value, b: Value)
    requires a.Raw? ==> a.text != "" && a.text[0] != '"'
    requires b.Raw? ==> b.text != "" && b.text[0] != '"'
    ensures Written(a) <= Written(b) <==> (a.Raw? <==> b.Raw?) && a.text <= b.text
  {
    if a.Quoted? && b.Quoted? {
      PrefixCancels("\"", JsonStrings.Escape(a.text), JsonStrings.Escape(b.text));
      EscapeExact(a.text, b.text);
    }
  }

  /** Written without quotes. */
  predicate Bare(content: string) { Accepts(content) && !IsStringText(content) }

  function Meaning(content: string): string {
    if Accepts(content) then Denoted(content) else content
  }

  /** When the text of a value that is cut is continued by that of the whole value. */
  predicate Continued(v: string, w: string, partial: bool) {
    if v == "" then true
    else if IsContainer(w) then (partial || Accepts(Prepared(w))) && !Undone(Outside, v, w)
    else if Bare(v) || Bare(w) then Bare(v) && Bare(w)
    else Meaning(v) <= Meaning(w)
  }

  lemma ContainerCut(v: string, w: string, partial: bool)
    requires v <= w && v != "" && IsContainer(w)
    ensures UntypedText(true, v) <= UntypedText(partial, w) <==> Continued(v, w, partial)
  {
    ContainerNormalized(v);
    ContainerNormalized(w);
    NormalizedCutExactly(Outside, v, w);
    WrittenExactly(ValueOf(true, v), ValueOf(partial, w));
  }

  /** The text of a value that is cut is continued by that of the whole value exactly under this condition. */
  lemma UntypedCutExactly(v: string, w: string, partial: bool)
    requires v <= w
    ensures UntypedText(true, v) <= UntypedText(partial, w) <==> Continued(v, w, partial)
  {
    if v == "" {
    } else if IsContainer(w) {
      ContainerCut(v, w, partial);
    } else {
      if ValueOf(true, v).Raw? { RawStart(true, v); }
      if ValueOf(partial, w).Raw? { RawStart(partial, w); }
      WrittenExactly(ValueOf(true, v), ValueOf(partial, w));
    }
  }

  // ----- a condition that holds between any two cuts -----

  lemma {:induction false} SkipRuns(s: string)
    ensures Run(START, s) == Run(START, SkipBlanks(s))
  {
    if s != "" && IsWhitespace(s[0]) {
      SkipRuns(s[1..]);
    }
  }

  lemma {:induction false} SkipAppend(v: string, x: string)
    requires SkipBlanks(v) != ""
    ensures SkipBlanks(v + x) == SkipBlanks(v) + x
  {
    assert (v + x)[0] == v[0] && (v + x)[1..] == v[1..] + x;
    if IsWhitespace(v[0]) {
      SkipAppend(v[1..], x);
    }
  }

  lemma {:induction false} DropAppend(v: string, x: string)
    requires Blank(x)
    ensures DropBlanks(v + x) == DropBlanks(v)
    decreases |x|
  {
    if x == "" {
      assert v + x == v;
    } else {
      var n := |x| - 1;
      assert (v + x)[|v| + n] == x[n] && (v + x)[..|v| + n] == v + x[..n];
      DropAppend(v, x[..n]);
    }
  }

  /** Reading one string at the top level. */
  predicate TopString(s: State) {
    s.Live? ==> s.stack == [] && (s.mode.AfterValue? || (s.mode.InString? && !s.mode.isKey))
  }

  lemma {:induction false} TopStringStays(s: State, text: string)
    requires TopString(s)
    ensures TopString(Run(s, text))
    decreases text
  {
    if text != "" {
      TopStringStays(Step(s, text[0]), text[1..]);
    }
  }

  lemma {:induction false} BlanksAfterTop(x: string)
    requires Run(Live([], AfterValue), x).Live?
    ensures Blank(x)
  {
    if x != "" {
      if !IsWhitespace(x[0]) {
        RunDead(x[1..]);
      }
      BlanksAfterTop(x[1..]);
      assert x == [x[0]] + x[1..];
    }
  }

  /** Two texts of which one begins the other and both are JSON strings stand for the same string. */
  lemma SameString(v: string, x: string)
    requires Accepts(v) && Accepts(v + x) && IsStringText(v)
    ensures Denoted(v + x) == Denoted(v)
  {
    var t := SkipBlanks(v);
    SkipRuns(v);
    assert t == [t[0]] + t[1..];
    TopStringStays(Step(START, t[0]), t[1..]);
    RunAppend(START, v, x);
    BlanksAfterTop(x);
    SkipAppend(v, x);
    DropAppend(t, x);
  }

  lemma SameKind(v: string, w: string)
    requires v <= w && Accepts(v) && Accepts(w)
    ensures Bare(v) == Bare(w) && (!Bare(v) ==> Meaning(v) == Meaning(w))
  {
    var x := w[|v|..];
    assert w == v + x;
    SkipRuns(v);
    SkipAppend(v, x);
    if IsStringText(v) {
      SameString(v, x);
    }
  }

  /** A container goes on being one, and any other text is JSON when it is cut exactly if it is JSON at the end. */
  predicate Alike(v: string, w: string, partial: bool) {
    if v == "" then true
    else if IsContainer(w) then (partial || Accepts(Prepared(w))) && !Undone(Outside, v, w)
    else Accepts(v) == Accepts(w)
  }

  lemma AlikeIsContinued(v: string, w: string, partial: bool)
    requires v <= w && Alike(v, w, partial)
    ensures Continued(v, w, partial)
  {
    if v != "" && !IsContainer(w) && Accepts(v) {
      SameKind(v, w);
    }
  }

  lemma AlikeBetween(u: string, v: string, w: string, partial: bool)
    requires u <= v <= w && Alike(u, w, partial) && Alike(v, w, partial)
    ensures Alike(u, v, true)
  {
  }

  // ----- literals -----

  lemma {:induction false} LiteralRuns(rest: string, k: nat)
    requires rest != "" && k <= |rest|
    ensures Run(Live([], InLiteral(rest)), rest[..k]) ==
              if k == |rest| then Live([], AfterValue) else Live([], InLiteral(rest[k..]))
    decreases |rest|
  {
    if k == 0 {
      assert rest[0..] == rest;
    } else {
      assert rest[..k][0] == rest[0] && rest[..k][1..] == rest[1..][..k - 1];
      if |rest| == 1 {
        assert rest[..k][1..] == "";
      } else {
        LiteralRuns(rest[1..], k - 1);
        assert rest[1..][k - 1..] == rest[k..];
      }
    }
  }

  lemma LiteralStart(word: string)
    requires IsLiteral(word)
    ensures Step(START, word[0]) == Live([], InLiteral(word[1..])) && forall i :: 0 <= i < |word| ==> 'a' <= word[i] <= 'z'
  {
    assert "true"[1..] == "rue" && "false"[1..] == "alse" && "null"[1..] == "ull";
  }

  lemma LiteralAccepted(word: string, k: nat)
    requires IsLiteral(word) && 0 < k <= |word|
    ensures Accepts(word[..k]) <==> k == |word|
  {
    LiteralStart(word);
    LiteralRuns(word[1..], k - 1);
    assert word[..k][0] == word[0] && word[..k][1..] == word[1..][..k - 1];
  }

  /** A literal is not continued from any cut: so far it is plain text, which is quoted. */
  lemma LiteralIsNotContinued(word: string, k: nat, partial: bool)
    requires IsLiteral(word) && 0 < k < |word|
    ensures !Continued(word[..k], word, partial)
  {
    LiteralAccepted(word, k);
    LiteralAccepted(word, |word|);
    assert word[..|word|] == word;
  }
}
