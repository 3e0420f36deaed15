/**
  A pushdown recogniser for JSON texts as defined by RFC 8259, reading one character
  at a time.  It stands for the JSON library behind `json::parse` and
  `json::sax_parse`: a text is accepted exactly when the run over it ends in an
  accepting state, and a run that can no longer be completed is `Dead`.
  Characters are code points, so UTF-8 validation is not part of it.
  */
module Json {
  import opened Basics

  /** The elements kept by the SAX error locator: open containers and keys whose value is still open. */
  datatype Frame = Object | Key | Array

  /** Progress inside a string body, section 7 of RFC 8259. */
  datatype StringPart =
    | Plain                     // between two characters
    | Escape                    // after a backslash
    | Unicode(digits: string)   // after \u and fewer than four digits
    | HighEnd                   // after a complete high surrogate
    | HighBackslash             // after a high surrogate and a backslash
    | Low(digits: string)       // inside the low surrogate of a pair

  /** Progress inside a number, section 6 of RFC 8259. */
  datatype NumberPart = Minus | Zero | Digits | Point | Fraction | Exponent | ExponentSign | ExponentDigits

  datatype Mode =
    | ExpectValue
    | ArrayStart
    | ObjectStart
    | ExpectKey
    | ExpectColon
    | AfterValue
    | InString(isKey: bool, part: StringPart)
    | InLiteral(rest: string)
    | InNumber(number: NumberPart)

  datatype State = Dead | Live(stack: seq<Frame>, mode: Mode)

  const START := Live([], ExpectValue)

  predicate IsWhitespace(c: char) { c == ' ' || c == '\t' || c == '\n' || c == '\r' }

  predicate Blank(s: string) { forall i :: 0 <= i < |s| ==> IsWhitespace(s[i]) }

  predicate IsLiteral(word: string) { word == "true" || word == "false" || word == "null" }

  predicate IsD(c: char) { c == 'd' || c == 'D' }

  /** Second digit of a high surrogate, whose first digit is `d`. */
  predicate IsHighDigit(c: char) { c == '8' || c == '9' || c == 'a' || c == 'A' || c == 'b' || c == 'B' }

  /** Second digit of a low surrogate. */
  predicate IsLowDigit(c: char) { 'c' <= c <= 'f' || 'C' <= c <= 'F' }

  predicate IsHighSurrogate(digits: string) {
    |digits| >= 2 && IsD(digits[0]) && IsHighDigit(digits[1])
  }

  function Top(stack: seq<Frame>): Frame
    requires stack != []
  {
    stack[|stack| - 1]
  }

  /** `close_value`: a finished value completes the key it belongs to. */
  function CloseValue(stack: seq<Frame>): seq<Frame> {
    if stack != [] && Top(stack) == Key then stack[..|stack| - 1] else stack
  }

  function EndContainer(stack: seq<Frame>): State
    requires stack != []
  {
    Live(CloseValue(stack[..|stack| - 1]), AfterValue)
  }

  predicate IsCompleteNumber(n: NumberPart) {
    n == Zero || n == Digits || n == Fraction || n == ExponentDigits
  }

  datatype NumberStep = Continue(next: NumberPart) | Ends | Bad

  function StepNumber(n: NumberPart, c: char): NumberStep {
    match n
    case Minus => if c == '0' then Continue(Zero) else if IsDigit(c) then Continue(Digits) else Bad
    case Zero =>
      if c == '.' then Continue(Point) else if c == 'e' || c == 'E' then Continue(Exponent) else Ends
    case Digits =>
      if IsDigit(c) then Continue(Digits)
      else if c == '.' then Continue(Point) else if c == 'e' || c == 'E' then Continue(Exponent) else Ends
    case Point => if IsDigit(c) then Continue(Fraction) else Bad
    case Fraction =>
      if IsDigit(c) then Continue(Fraction) else if c == 'e' || c == 'E' then Continue(Exponent) else Ends
    case Exponent =>
      if IsDigit(c) then Continue(ExponentDigits) else if c == '+' || c == '-' then Continue(ExponentSign) else Bad
    case ExponentSign => if IsDigit(c) then Continue(ExponentDigits) else Bad
    case ExponentDigits => if IsDigit(c) then Continue(ExponentDigits) else Ends
  }

  function StartValue(stack: seq<Frame>, c: char): State {
    if c == '{' then Live(stack + [Object], ObjectStart)
    else if c == '[' then Live(stack + [Array], ArrayStart)
    else if c == '"' then Live(stack, InString(false, Plain))
    else if c == 't' then Live(stack, InLiteral("rue"))
    else if c == 'f' then Live(stack, InLiteral("alse"))
    else if c == 'n' then Live(stack, InLiteral("ull"))
    else if c == '-' then Live(stack, InNumber(Minus))
    else if c == '0' then Live(stack, InNumber(Zero))
    else if IsDigit(c) then Live(stack, InNumber(Digits))
    else Dead
  }

  function EndString(stack: seq<Frame>, isKey: bool): State {
    if isKey then Live(stack + [Key], ExpectColon) else Live(CloseValue(stack), AfterValue)
  }


  function StepString(stack: seq<Frame>, isKey: bool, part: StringPart, c: char): State {
    var to := (p: StringPart) => Live(stack, InString(isKey, p));
    match part
    case Plain =>
      if c == '"' then EndString(stack, isKey)
      else if c == '\\' then to(Escape)
      else if c < ' ' then Dead
      else to(Plain)
    case Escape =>
      if c == 'u' then to(Unicode(""))
      else if c == '"' || c == '\\' || c == '/' || c == 'b' || c == 'f' || c == 'n' || c == 'r' || c == 't' then to(Plain)
      else Dead
    case Unicode(digits) =>
      if !IsHex(c) then Dead
      else if |digits| == 1 && IsD(digits[0]) && IsLowDigit(c) then Dead  // a lone low surrogate
      else if |digits| < 3 then to(Unicode(digits + [c]))
      else if IsHighSurrogate(digits) then to(HighEnd)
      else to(Plain)
    case HighEnd => if c == '\\' then to(HighBackslash) else Dead
    case HighBackslash => if c == 'u' then to(Low("")) else Dead
    case Low(digits) =>
      if !IsHex(c) then Dead
      else if |digits| == 0 && !IsD(c) then Dead
      else if |digits| == 1 && !IsLowDigit(c) then Dead
      else if |digits| < 3 then to(Low(digits + [c]))
      else to(Plain)
  }

  /** What may follow a finished value inside the containers of `stack`. */
  function StepAfter(stack: seq<Frame>, c: char): State {
    if IsWhitespace(c) then Live(stack, AfterValue)
    else if stack == [] then Dead
    else if Top(stack) == Array then
      if c == ',' then Live(stack, ExpectValue) else if c == ']' then EndContainer(stack) else Dead
    else if Top(stack) == Object then
      if c == ',' then Live(stack, ExpectKey) else if c == '}' then EndContainer(stack) else Dead
    else Dead
  }

  function Step(s: State, c: char): State {
    match s
    case Dead => Dead
    case Live(stack, mode) =>
      match mode
      case ExpectValue => if IsWhitespace(c) then s else StartValue(stack, c)
      case ArrayStart =>
        if IsWhitespace(c) then s
        else if c == ']' && stack != [] then EndContainer(stack)
        else StartValue(stack, c)
      case ObjectStart =>
        if IsWhitespace(c) then s
        else if c == '"' then Live(stack, InString(true, Plain))
        else if c == '}' && stack != [] then EndContainer(stack)
        else Dead
      case ExpectKey =>
        if IsWhitespace(c) then s else if c == '"' then Live(stack, InString(true, Plain)) else Dead
      case ExpectColon =>
        if IsWhitespace(c) then s else if c == ':' then Live(stack, ExpectValue) else Dead
      case AfterValue => StepAfter(stack, c)
      case InString(isKey, part) => StepString(stack, isKey, part, c)
      case InLiteral(rest) =>
        if rest == "" || c != rest[0] then Dead
        else if |rest| == 1 then Live(CloseValue(stack), AfterValue)
        else Live(stack, InLiteral(rest[1..]))
      case InNumber(n) =>
        match StepNumber(n, c)
        case Continue(next) => Live(stack, InNumber(next))
        case Ends => StepAfter(CloseValue(stack), c)
        case Bad => Dead
  }

  function Run(s: State, text: string): State
    decreases text
  {
    if text == "" then s else Run(Step(s, text[0]), text[1..])
  }

  /** What the end of the input does: a complete number becomes a finished value. */
  function AtEnd(s: State): State {
    if s.Live? && s.mode.InNumber? && IsCompleteNumber(s.mode.number)
    then Live(CloseValue(s.stack), AfterValue)
    else s
  }

  predicate Accepting(s: State) {
    AtEnd(s) == Live([], AfterValue)
  }

  /** `json::parse` succeeds. */
  predicate Accepts(text: string) {
    Accepting(Run(START, text))
  }

  // ----- runs -----

  lemma {:induction false} RunAppend(s: State, a: string, b: string)
    ensures Run(s, a + b) == Run(Run(s, a), b)
    decreases a
  {
    if a == "" {
      assert a + b == b;
    } else {
      assert (a + b)[1..] == a[1..] + b;
      RunAppend(Step(s, a[0]), a[1..], b);
    }
  }

  lemma RunCons(s: State, c: char, rest: string)
    ensures Run(s, [c] + rest) == Run(Step(s, c), rest)
  {
    assert ([c] + rest)[1..] == rest;
  }

  lemma RunLast(s: State, text: string)
    requires text != ""
    ensures Run(s, text) == Step(Run(s, text[..|text| - 1]), text[|text| - 1])
  {
    var n := |text| - 1;
    assert text == text[..n] + [text[n]];
    RunAppend(s, text[..n], [text[n]]);
    assert Run(Run(s, text[..n]), [text[n]]) == Run(Step(Run(s, text[..n]), text[n]), "");
  }

  lemma {:induction false} RunDead(text: string)
    ensures Run(Dead, text) == Dead
  {
    if text != "" {
      RunDead(text[1..]);
    }
  }

  /** Every prefix of an accepted text leaves the recogniser alive. */
  lemma PrefixIsLive(text: string, n: nat)
    requires Accepts(text) && n <= |text|
    ensures Run(START, text[..n]).Live?
  {
    assert text == text[..n] + text[n..];
    RunAppend(START, text[..n], text[n..]);
    RunDead(text[n..]);
  }

  // ----- the shape of reachable states -----

  ghost predicate KeysInObjects(stack: seq<Frame>) {
    forall i :: 0 <= i < |stack| && stack[i] == Key ==> 0 < i && stack[i - 1] == Object
  }

  predicate ValuePlace(stack: seq<Frame>) { stack == [] || Top(stack) == Key || Top(stack) == Array }

  predicate StringPartOk(part: StringPart) {
    match part
    case Unicode(d) => |d| < 4 && AllHex(d) && !(|d| >= 2 && IsD(d[0]) && IsLowDigit(d[1]))
    case Low(d) => |d| < 4 && AllHex(d) && (|d| >= 1 ==> IsD(d[0])) && (|d| >= 2 ==> IsLowDigit(d[1]))
    case _ => true
  }

  /** What is left of a literal: lower-case letters, the last of them `e` or `l`. */
  predicate LiteralRest(rest: string) {
    rest != "" && rest[|rest| - 1] in ['e', 'l'] && forall c :: c in rest ==> 'a' <= c <= 'z'
  }

  ghost predicate ModeFits(stack: seq<Frame>, mode: Mode) {
    match mode
    case ExpectValue => ValuePlace(stack)
    case ArrayStart => stack != [] && Top(stack) == Array
    case ObjectStart => stack != [] && Top(stack) == Object
    case ExpectKey => stack != [] && Top(stack) == Object
    case ExpectColon => stack != [] && Top(stack) == Key
    case AfterValue => stack == [] || Top(stack) != Key
    case InString(isKey, part) =>
      StringPartOk(part) && if isKey then stack != [] && Top(stack) == Object else ValuePlace(stack)
    case InLiteral(rest) => ValuePlace(stack) && LiteralRest(rest)
    case InNumber(_) => ValuePlace(stack)
  }

  ghost predicate Valid(s: State) {
    s.Live? ==> KeysInObjects(s.stack) && ModeFits(s.stack, s.mode)
  }

  lemma CloseValueFits(stack: seq<Frame>)
    requires KeysInObjects(stack)
    ensures Valid(Live(CloseValue(stack), AfterValue))
  {
  }

  lemma EndContainerFits(stack: seq<Frame>)
    requires KeysInObjects(stack) && stack != []
    ensures Valid(EndContainer(stack))
  {
    CloseValueFits(stack[..|stack| - 1]);
  }

  lemma StepAfterFits(stack: seq<Frame>, c: char)
    requires KeysInObjects(stack) && (stack == [] || Top(stack) != Key)
    ensures Valid(StepAfter(stack, c))
  {
    if stack != [] {
      EndContainerFits(stack);
    }
  }

  lemma StepStringFits(stack: seq<Frame>, isKey: bool, part: StringPart, c: char)
    requires KeysInObjects(stack) && ModeFits(stack, InString(isKey, part))
    ensures Valid(StepString(stack, isKey, part, c))
  {
    if part.Plain? && c == '"' {
      EndStringFits(stack, isKey);
    } else if part.Unicode? && StepString(stack, isKey, part, c).Live? {
      UnicodeDigitFits(part.digits, c);
    } else if part.Low? && IsHex(c) {
      LowDigitFits(part.digits, c);
    }
  }

  lemma UnicodeDigitFits(d: string, c: char)
    requires StringPartOk(Unicode(d)) && IsHex(c) && !(|d| == 1 && IsD(d[0]) && IsLowDigit(c))
    ensures |d| < 3 ==> StringPartOk(Unicode(d + [c]))
  {
  }

  lemma LowDigitFits(d: string, c: char)
    requires StringPartOk(Low(d)) && IsHex(c)
    ensures |d| < 3 && (|d| == 0 ==> IsD(c)) && (|d| == 1 ==> IsLowDigit(c)) ==> StringPartOk(Low(d + [c]))
  {
  }

  lemma EndStringFits(stack: seq<Frame>, isKey: bool)
    requires KeysInObjects(stack) && (isKey ==> stack != [] && Top(stack) == Object)
    ensures Valid(EndString(stack, isKey))
  {
    CloseValueFits(stack);
  }

  lemma StartValueFits(stack: seq<Frame>, c: char)
    requires KeysInObjects(stack) && ValuePlace(stack)
    ensures Valid(StartValue(stack, c))
  {
    assert KeysInObjects(stack + [Object]) && KeysInObjects(stack + [Array]);
  }

  lemma StepLiteralFits(stack: seq<Frame>, rest: string, c: char)
    requires KeysInObjects(stack) && ModeFits(stack, InLiteral(rest))
    ensures Valid(Step(Live(stack, InLiteral(rest)), c))
  {
    CloseValueFits(stack);
    if |rest| > 1 {
      assert forall x :: x in rest[1..] ==> x in rest;
    }
  }

  lemma StartOrEndFits(stack: seq<Frame>, c: char)
    requires KeysInObjects(stack) && stack != [] && Top(stack) == Array
    ensures Valid(StartValue(stack, c)) && Valid(EndContainer(stack))
  {
    StartValueFits(stack, c);
    EndContainerFits(stack);
  }

  lemma StepKeepsValid(s: State, c: char)
    requires Valid(s)
    ensures Valid(Step(s, c))
  {
    if s.Live? {
      match s.mode {
        case ExpectValue => StartValueFits(s.stack, c);
        case ArrayStart => StartOrEndFits(s.stack, c);
        case ObjectStart => EndContainerFits(s.stack);
        case ExpectKey =>
        case ExpectColon =>
        case AfterValue => StepAfterFits(s.stack, c);
        case InString(isKey, part) => StepStringFits(s.stack, isKey, part, c);
        case InLiteral(rest) => StepLiteralFits(s.stack, rest, c);
        case InNumber(n) => CloseValueFits(s.stack); StepAfterFits(CloseValue(s.stack), c);
      }
    }
  }

  lemma {:induction false} RunKeepsValid(s: State, text: string)
    requires Valid(s)
    ensures Valid(Run(s, text))
    decreases text
  {
    if text != "" {
      StepKeepsValid(s, text[0]);
      RunKeepsValid(Step(s, text[0]), text[1..]);
    }
  }
}
