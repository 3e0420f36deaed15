/** Why healing works: the state of the recogniser at the truncation decides the branch of the ladder. */
module JsonHealing {
  import opened Basics
  import opened Json
  import opened JsonPartial

  /** A marker that can stand inside a string literally. */
  ghost predicate PlainMarker(marker: string) {
    marker != "" && forall c :: c in marker ==> c != '"' && c != '\\' && ' ' <= c
  }

  lemma AcceptsAfter(str: string, tail: string)
    ensures CanParse(str, tail) <==> Accepting(Run(Run(START, str), tail))
  {
    RunAppend(START, str, tail);
  }

  // ----- closers -----

  lemma CloserIsRead(stack: seq<Frame>)
    requires stack != [] && Top(stack) != Key
    ensures Closer(Top(stack)) == [Closer(Top(stack))[0]]
    ensures Step(Live(stack, AfterValue), Closer(Top(stack))[0]) == Live(CloseValue(stack[..|stack| - 1]), AfterValue)
  {
  }

  lemma {:induction false} ClosingAccepts(stack: seq<Frame>)
    requires Valid(Live(stack, AfterValue))
    ensures Accepting(Run(Live(stack, AfterValue), Closing(stack)))
  {
    if stack != [] {
      var rest := stack[..|stack| - 1];
      ClosingIgnoresKey(rest);
      CloseValueFits(rest);
      CloserIsRead(stack);
      RunCons(Live(stack, AfterValue), Closer(Top(stack))[0], Closing(rest));
      ClosingAccepts(CloseValue(rest));
    }
  }

  lemma ClosingIgnoresKey(stack: seq<Frame>)
    ensures Closing(CloseValue(stack)) == Closing(stack)
  {
  }

  ghost predicate OnlyClosers(w: string) { forall c :: c in w ==> c == '}' || c == ']' }

  lemma {:induction false} ClosingOnlyClosers(stack: seq<Frame>)
    ensures OnlyClosers(Closing(stack))
  {
    if stack != [] {
      ClosingOnlyClosers(stack[..|stack| - 1]);
    }
  }

  lemma CloserStep(stack: seq<Frame>, c: char)
    requires stack == [] || Top(stack) != Key
    requires c == '}' || c == ']'
    ensures StepAfter(stack, c).Live? ==> stack != [] && Closer(Top(stack)) == [c] && StepAfter(stack, c) == EndContainer(stack)
  {
  }

  lemma FirstCloser(stack: seq<Frame>, c: char, w: string)
    requires stack == [] || Top(stack) != Key
    requires (c == '}' || c == ']') && Accepting(Run(Live(stack, AfterValue), [c] + w))
    ensures stack != [] && Closer(Top(stack)) == [c]
    ensures Accepting(Run(Live(CloseValue(stack[..|stack| - 1]), AfterValue), w))
  {
    RunCons(Live(stack, AfterValue), c, w);
    RunDead(w);
    CloserStep(stack, c);
  }

  /** Only the right closers in the right order finish the text. */
  lemma {:induction false} ClosersAreForced(stack: seq<Frame>, w: string)
    requires Valid(Live(stack, AfterValue)) && OnlyClosers(w)
    requires Accepting(Run(Live(stack, AfterValue), w))
    ensures w == Closing(stack)
    decreases w
  {
    if w != "" {
      var c, w' := w[0], w[1..];
      assert c in w && forall x :: x in w' ==> x in w;
      assert w == [c] + w';
      FirstCloser(stack, c, w');
      var rest := stack[..|stack| - 1];
      CloseValueFits(rest);
      ClosersAreForced(CloseValue(rest), w');
      ClosingIgnoresKey(rest);
    }
  }

  // ----- inside and outside strings -----

  ghost predicate NoQuote(w: string) { '"' !in w }

  predicate Quoting(s: State) { s.Live? && s.mode.InString? }

  lemma StepKeepsQuoting(s: State, c: char)
    requires c != '"' && s.Live?
    ensures Step(s, c).Dead? || (Quoting(Step(s, c)) <==> Quoting(s))
  {
  }

  lemma {:induction false} NoQuoteKeepsQuoting(s: State, w: string)
    requires s.Live? && NoQuote(w)
    ensures Run(s, w).Dead? || (Quoting(Run(s, w)) <==> Quoting(s))
    decreases w
  {
    if w != "" {
      StepKeepsQuoting(s, w[0]);
      if Step(s, w[0]).Dead? {
        RunDead(w[1..]);
      } else {
        NoQuoteKeepsQuoting(Step(s, w[0]), w[1..]);
      }
    }
  }

  lemma OpenStringRejects(s: State, w: string)
    requires Quoting(s) && NoQuote(w)
    ensures !Accepting(Run(s, w))
  {
    NoQuoteKeepsQuoting(s, w);
  }

  lemma {:induction false} PlainRun(stack: seq<Frame>, isKey: bool, w: string)
    requires forall c :: c in w ==> c != '"' && c != '\\' && ' ' <= c
    ensures Run(Live(stack, InString(isKey, Plain)), w) == Live(stack, InString(isKey, Plain))
  {
    if w != "" {
      assert w[0] in w && forall c :: c in w[1..] ==> c in w;
      PlainRun(stack, isKey, w[1..]);
    }
  }

  /** A text whose first character is impossible is rejected. */
  lemma FirstDead(s: State, w: string)
    requires w != "" && Step(s, w[0]).Dead?
    ensures !Accepting(Run(s, w))
  {
    RunDead(w[1..]);
  }

  // ----- the accepting continuations -----

  lemma AfterValueCloses(stack: seq<Frame>)
    requires KeysInObjects(stack)
    ensures Accepting(Run(Live(CloseValue(stack), AfterValue), Closing(stack)))
  {
    CloseValueFits(stack);
    ClosingAccepts(CloseValue(stack));
    ClosingIgnoresKey(stack);
  }

  /** `"` closes a value string, then the containers are closed. */
  lemma QuoteCloses(stack: seq<Frame>)
    requires KeysInObjects(stack)
    ensures Accepting(Run(Live(stack, InString(false, Plain)), "\"" + Closing(stack)))
  {
    RunCons(Live(stack, InString(false, Plain)), '"', Closing(stack));
    AfterValueCloses(stack);
  }

  /** `1` is a complete value. */
  lemma OneCloses(stack: seq<Frame>)
    requires KeysInObjects(stack)
    ensures Accepting(Run(Live(stack, ExpectValue), "1" + Closing(stack)))
    ensures stack != [] ==> Accepting(Run(Live(stack, ArrayStart), "1" + Closing(stack)))
  {
    RunCons(Live(stack, ExpectValue), '1', Closing(stack));
    RunCons(Live(stack, ArrayStart), '1', Closing(stack));
    NumberCloses(stack);
  }

  lemma NumberCloses(stack: seq<Frame>)
    requires KeysInObjects(stack)
    ensures Accepting(Run(Live(stack, InNumber(Digits)), Closing(stack)))
  {
    AfterValueCloses(stack);
    ClosingOnlyClosers(stack);
    var w := Closing(stack);
    if w != "" {
      assert w[0] in w;
      assert Step(Live(stack, InNumber(Digits)), w[0]) == Step(Live(CloseValue(stack), AfterValue), w[0]);
    }
  }

  lemma ColonOneText(w: string)
    ensures ": 1" + w == [':'] + ([' '] + ("1" + w))
  {
  }

  /** `: 1` after a key. */
  lemma ColonOneCloses(stack: seq<Frame>)
    requires KeysInObjects(stack)
    ensures Accepting(Run(Live(stack, ExpectColon), ": 1" + Closing(stack)))
  {
    var w := "1" + Closing(stack);
    ColonOneText(Closing(stack));
    RunCons(Live(stack, ExpectColon), ':', [' '] + w);
    RunCons(Live(stack, ExpectValue), ' ', w);
    OneCloses(stack);
  }

  lemma KeyClosingIsObjectClosing(stack: seq<Frame>)
    ensures Closing(stack + [Key]) == Closing(stack)
  {
    assert (stack + [Key])[..|stack|] == stack;
  }

  lemma KeyTailSplits(closing: string)
    ensures "\": 1" + closing == ['"'] + (": 1" + closing)
  {
  }

  /** `": 1` closes a key string and gives it a value. */
  lemma KeyQuoteCloses(stack: seq<Frame>)
    requires KeysInObjects(stack) && stack != [] && Top(stack) == Object
    ensures Accepting(Run(Live(stack, InString(true, Plain)), "\": 1" + Closing(stack)))
  {
    var tail, keyed := ": 1" + Closing(stack), stack + [Key];
    KeyTailSplits(Closing(stack));
    RunCons(Live(stack, InString(true, Plain)), '"', tail);
    KeyClosingIsObjectClosing(stack);
    assert KeysInObjects(keyed);
    ColonOneCloses(keyed);
  }

  /** The text after the truncation point once the marker string is open. */
  function StringTail(isKey: bool, closing: string): string {
    if isKey then "\": 1" + closing else "\"" + closing
  }

  lemma TailCloses(stack: seq<Frame>, isKey: bool)
    requires KeysInObjects(stack) && (isKey ==> stack != [] && Top(stack) == Object)
    ensures Accepting(Run(Live(stack, InString(isKey, Plain)), StringTail(isKey, Closing(stack))))
  {
    if isKey { KeyQuoteCloses(stack); } else { QuoteCloses(stack); }
  }

  /** From any state that `lead` takes into a plain string, marker and tail finish the text. */
  lemma MarkerCloses(s: State, lead: string, stack: seq<Frame>, isKey: bool, marker: string)
    requires KeysInObjects(stack) && (isKey ==> stack != [] && Top(stack) == Object)
    requires Run(s, lead) == Live(stack, InString(isKey, Plain)) && PlainMarker(marker)
    ensures Accepting(Run(s, (lead + marker) + StringTail(isKey, Closing(stack))))
  {
    var tail := StringTail(isKey, Closing(stack));
    assert (lead + marker) + tail == lead + (marker + tail);
    RunAppend(s, lead, marker + tail);
    PlainRun(stack, isKey, marker);
    RunAppend(Live(stack, InString(isKey, Plain)), marker, tail);
    TailCloses(stack, isKey);
  }

  // ----- what the last characters say about the state -----

  lemma LastStep(str: string) returns (before: string, s: State, c: char)
    requires str != "" && Run(START, str).Live?
    ensures before == str[..|str| - 1] && c == str[|str| - 1] && str == before + [c]
    ensures s == Run(START, before) && s.Live? && Valid(s) && Run(START, str) == Step(s, c)
  {
    before, c := str[..|str| - 1], str[|str| - 1];
    s := Run(START, before);
    RunLast(START, str);
    assert Valid(START);
    RunKeepsValid(START, before);
  }

  /** The character that put the recogniser into a waiting mode. */
  function Opener(stack: seq<Frame>, mode: Mode): Option<char> {
    if stack == [] then None
    else match mode
         case ExpectValue => Some(if Top(stack) == Key then ':' else ',')
         case ArrayStart => Some('[')
         case ObjectStart => Some('{')
         case ExpectKey => Some(',')
         case _ => None
  }

  /** White space leaves a waiting state alone, and otherwise its opener has just been read. */
  lemma OpenerStep(s: State, c: char)
    requires s.Live? && Valid(s) && Step(s, c).Live? && Opener(Step(s, c).stack, Step(s, c).mode).Some?
    ensures if IsWhitespace(c) then Step(s, c) == s else Opener(Step(s, c).stack, Step(s, c).mode) == Some(c)
  {
    if s.mode.InNumber? {
      AfterOpens(CloseValue(s.stack), c);
    } else if s.mode.AfterValue? {
      AfterOpens(s.stack, c);
    }
  }

  lemma AfterOpens(stack: seq<Frame>, c: char)
    requires StepAfter(stack, c).Live?
    ensures Opener(StepAfter(stack, c).stack, StepAfter(stack, c).mode).Some? ==>
              !IsWhitespace(c) && Opener(StepAfter(stack, c).stack, StepAfter(stack, c).mode) == Some(c)
  {
  }

  lemma {:induction false} LastNonSpaceIsOpener(str: string)
    requires Run(START, str).Live?
    requires var q := Run(START, str); Opener(q.stack, q.mode).Some?
    ensures var q := Run(START, str); LastNonSpace(str) == Opener(q.stack, q.mode)
  {
    var before, s, c := LastStep(str);
    OpenerStep(s, c);
    if IsWhitespace(c) {
      LastNonSpaceIsOpener(before);
    }
  }

  predicate ScalarChar(c: char) {
    IsDigit(c) || 'a' <= c <= 'z' || c == '.' || c == '+' || c == '-' || c == 'E'
  }

  predicate InScalar(s: State) { s.Live? && (s.mode.InNumber? || s.mode.InLiteral?) }

  /** How a number or literal is entered and continued. */
  lemma ScalarStep(s: State, c: char)
    requires s.Live? && Valid(s) && InScalar(Step(s, c))
    ensures ScalarChar(c) && Step(s, c).stack == s.stack && WaitingOrScalar(s)
    ensures Step(s, c).mode.InNumber? && IsCompleteNumber(Step(s, c).mode.number) ==> IsDigit(c)
  {
    if s.mode.InLiteral? {
      assert s.mode.rest[0] in s.mode.rest;
    } else if s.mode.InNumber? {
      StepAfterIsNotScalar(CloseValue(s.stack), c);
    }
  }

  lemma StepAfterIsNotScalar(stack: seq<Frame>, c: char)
    ensures var t := StepAfter(stack, c);
            t.Dead? || t.mode.AfterValue? || t.mode.ExpectKey? ||
            (t == Live(stack, ExpectValue) && c == ',' && stack != [] && Top(stack) == Array)
  {
  }

  /** How a waiting state is entered and continued. */
  lemma WaitStep(s: State, c: char)
    requires s.Live? && Valid(s)
    requires Step(s, c).Live? && (Step(s, c).mode.ExpectValue? || Step(s, c).mode.ArrayStart?)
    ensures Step(s, c).stack != []
         ==> (IsWhitespace(c) && s == Step(s, c)) || Opener(Step(s, c).stack, Step(s, c).mode) == Some(c)
    ensures Step(s, c).stack == [] ==> s == Step(s, c)
  {
    if Step(s, c).stack != [] {
      OpenerStep(s, c);
    } else if s.mode.InNumber? {
      StepAfterIsNotScalar(CloseValue(s.stack), c);
    }
  }

  lemma ScalarEnding(str: string)
    requires InScalar(Run(START, str))
    ensures str != "" && ScalarChar(str[|str| - 1]) && LastNonSpace(str) == Some(str[|str| - 1])
    ensures var q := Run(START, str);
            q.mode.InNumber? && IsCompleteNumber(q.mode.number) ==> MaybeNumber(str)
  {
    var before, s, c := LastStep(str);
    ScalarStep(s, c);
  }

  ghost predicate WaitingOrScalar(q: State) {
    InScalar(q) || (q.Live? && (q.mode.ExpectValue? || q.mode.ArrayStart?))
  }

  /** Cutting back to the separator of the current value leaves the recogniser waiting for that value. */
  ghost predicate CutsTo(str: string, a: char, b: char, stack: seq<Frame>) {
    var r := LastIndexOf(str, a, b);
    && r.Some?
    && (Run(START, str[..r.value + 1]) == Live(stack, ExpectValue) ||
        Run(START, str[..r.value + 1]) == Live(stack, ArrayStart))
    && forall c :: c in str[r.value + 1..] ==> ScalarChar(c) || IsWhitespace(c)
  }

  lemma CutExtends(before: string, c: char, a: char, b: char, stack: seq<Frame>)
    requires CutsTo(before, a, b, stack) && c != a && c != b && (ScalarChar(c) || IsWhitespace(c))
    ensures CutsTo(before + [c], a, b, stack)
  {
    var str := before + [c];
    LastIndexSkips(before, c, a, b);
    var p := LastIndexOf(before, a, b).value;
    assert str[..p + 1] == before[..p + 1];
    CharsExtend(before[p + 1..], c);
    assert str[p + 1..] == before[p + 1..] + [c];
  }

  lemma LastIndexSkips(before: string, c: char, a: char, b: char)
    requires c != a && c != b
    ensures LastIndexOf(before + [c], a, b) == LastIndexOf(before, a, b)
  {
    assert (before + [c])[..|before|] == before;
  }

  lemma CharsExtend(w: string, c: char)
    requires (forall x :: x in w ==> ScalarChar(x) || IsWhitespace(x)) && (ScalarChar(c) || IsWhitespace(c))
    ensures forall x :: x in w + [c] ==> ScalarChar(x) || IsWhitespace(x)
  {
  }

  lemma CutHere(str: string, a: char, b: char)
    requires str != "" && (str[|str| - 1] == a || str[|str| - 1] == b) && Run(START, str).Live?
    requires Run(START, str).mode.ExpectValue? || Run(START, str).mode.ArrayStart?
    ensures CutsTo(str, a, b, Run(START, str).stack)
  {
    assert str[..|str|] == str;
  }

  /** Stepping within or towards a value that sits in a container. */
  lemma CutStep(s: State, c: char)
    requires s.Live? && Valid(s) && WaitingOrScalar(Step(s, c)) && Step(s, c).stack != []
    ensures (WaitingOrScalar(s) && Step(s, c).stack == s.stack && (ScalarChar(c) || IsWhitespace(c)))
         || (!InScalar(Step(s, c)) && Opener(Step(s, c).stack, Step(s, c).mode) == Some(c))
  {
    if InScalar(Step(s, c)) {
      ScalarStep(s, c);
    } else {
      WaitStep(s, c);
    }
  }

  lemma {:induction false} CutKey(str: string)
    requires WaitingOrScalar(Run(START, str))
    requires var q := Run(START, str); q.stack != [] && Top(q.stack) == Key
    ensures CutsTo(str, ':', ':', Run(START, str).stack)
  {
    var before, s, c := LastStep(str);
    CutStep(s, c);
    if c == ':' {
      CutHere(str, ':', ':');
    } else {
      CutKey(before);
      CutExtends(before, c, ':', ':', s.stack);
    }
  }

  lemma {:induction false} CutArray(str: string)
    requires WaitingOrScalar(Run(START, str))
    requires var q := Run(START, str); q.stack != [] && Top(q.stack) == Array
    ensures CutsTo(str, '[', ',', Run(START, str).stack)
  {
    var before, s, c := LastStep(str);
    CutStep(s, c);
    if c == '[' || c == ',' {
      CutHere(str, '[', ',');
    } else {
      CutArray(before);
      CutExtends(before, c, '[', ',', s.stack);
    }
  }

  // ----- unicode escapes -----

  lemma EscapeDigitIsHex(str: string, k: nat, i: nat)
    requires EndsInEscape(str, k) && |str| - k <= i < |str|
    ensures IsHex(str[i])
  {
    assert str[|str| - k..][i - (|str| - k)] == str[i] && str[i] in str[|str| - k..];
  }

  lemma EscapeIsUnique(str: string, j: nat, k: nat)
    requires EndsInEscape(str, j) && EndsInEscape(str, k)
    ensures j == k
  {
    var low, high := if j < k then j else k, if j < k then k else j;
    if low < high {
      // the `u` of the shorter escape would be a digit of the longer one
      EscapeDigitIsHex(str, high, |str| - low - 1);
    }
  }

  lemma EscapeLengthIs(str: string, k: nat)
    requires EndsInEscape(str, k) && k <= 4
    ensures EscapeLength(str) == k + 2
  {
    if EndsInEscape(str, 4) { EscapeIsUnique(str, 4, k); }
    else if EndsInEscape(str, 3) { EscapeIsUnique(str, 3, k); }
    else if EndsInEscape(str, 2) { EscapeIsUnique(str, 2, k); }
    else if EndsInEscape(str, 1) { EscapeIsUnique(str, 1, k); }
  }

  /** The text is `before`, a backslash, `u` and the digits `d`. */
  ghost predicate EscapeTail(str: string, d: string, before: string) {
    str == before + ("\\u" + d)
  }

  lemma EscapeTailLength(str: string, d: string, before: string)
    requires EscapeTail(str, d, before) && |d| <= 4 && AllHex(d)
    ensures EscapeLength(str) == |d| + 2 && str[..|str| - EscapeLength(str)] == before
    ensures EndsLookingHigh(str) <==> IsHighSurrogate(d)
  {
    assert str[|str| - |d|..] == d;
    EscapeLengthIs(str, |d|);
    assert str[|str| - |d| - 2..] == "\\u" + d;
    assert ("\\u" + d)[2..] == d;
  }

  function Within(q: State, part: StringPart): State
    requires Quoting(q)
  {
    Live(q.stack, InString(q.mode.isKey, part))
  }

  predicate OpenEscape(q: State) {
    Quoting(q) && (q.mode.part.Unicode? || q.mode.part.Low? || q.mode.part.HighEnd?)
  }

  /** How an open escape is entered and continued. */
  lemma EscapeStep(s: State, c: char)
    requires s.Live? && OpenEscape(Step(s, c))
    ensures Quoting(s) && Step(s, c) == Within(s, Step(s, c).mode.part)
    ensures match Step(s, c).mode.part
            case Unicode(d) =>
              (d == "" && s.mode.part.Escape? && c == 'u') ||
              (s.mode.part.Unicode? && d == s.mode.part.digits + [c] && IsHex(c))
            case Low(d) =>
              (d == "" && s.mode.part.HighBackslash? && c == 'u') ||
              (s.mode.part.Low? && d == s.mode.part.digits + [c] && IsHex(c))
            case _ =>
              s.mode.part.Unicode? && |s.mode.part.digits| >= 3 && IsHighSurrogate(s.mode.part.digits) && IsHex(c)
  {
    if s.mode.InNumber? {
      StepAfterIsNotScalar(CloseValue(s.stack), c);
    }
  }

  lemma BackslashStep(s: State, c: char)
    requires s.Live? && Quoting(Step(s, c))
    requires Step(s, c).mode.part.Escape? || Step(s, c).mode.part.HighBackslash?
    ensures Quoting(s) && c == '\\' && Step(s, c) == Within(s, Step(s, c).mode.part)
    ensures s.mode.part == if Step(s, c).mode.part.Escape? then Plain else HighEnd
  {
    if s.mode.InNumber? {
      StepAfterIsNotScalar(CloseValue(s.stack), c);
    }
  }

  /** The digits an open escape has read, and where escapes of its kind start. */
  ghost predicate TailFits(q: State, d: string, before: string)
    requires OpenEscape(q)
  {
    && AllHex(d)
    && match q.mode.part
       case Unicode(digits) => d == digits && Run(START, before) == Within(q, Plain)
       case Low(digits) => d == digits && Run(START, before) == Within(q, HighEnd)
       case _ => |d| == 4 && IsHighSurrogate(d) && Run(START, before) == Within(q, Plain)
  }

  /** An open escape is at the end of the text, and before it the string was where escapes may start. */
  lemma {:induction false} UnicodeTail(str: string) returns (d: string, before: string)
    requires OpenEscape(Run(START, str))
    ensures EscapeTail(str, d, before) && TailFits(Run(START, str), d, before)
  {
    var str', s, c := LastStep(str);
    EscapeStep(s, c);
    if s.mode.part.Escape? || s.mode.part.HighBackslash? {
      var str'', s', c' := LastStep(str');
      BackslashStep(s', c');
      d, before := "", str'';
      assert str == before + ("\\u" + d);
    } else {
      var d', before' := UnicodeTail(str');
      d, before := d' + [c], before';
      assert str == before' + ("\\u" + d') + [c] == before + ("\\u" + d);
    }
  }

  /** The failing family: an open `\u` or `\ud` that starts a new character, behind text that only reads like a high surrogate. */
  ghost predicate Misread(str: string) {
    var q := Run(START, str);
    && Quoting(q)
    && q.mode.part.Unicode?
    && var d := q.mode.part.digits;
       && (d == "" || (|d| == 1 && IsD(d[0])))
       && |str| >= |d| + 2
       && EndsLookingHigh(str[..|str| - |d| - 2])
  }

  lemma RunFour(s: State, a: char, b: char, c: char, d: char)
    ensures Run(s, [a, b, c, d]) == Step(Step(Step(Step(s, a), b), c), d)
  {
    RunThree(Step(s, a), b, c, d);
    assert [a, b, c, d] == [a] + [b, c, d];
    RunCons(s, a, [b, c, d]);
  }

  lemma RunThree(s: State, a: char, b: char, c: char)
    ensures Run(s, [a, b, c]) == Step(Step(Step(s, a), b), c)
  {
    assert [a, b, c] == [a] + ([b] + ([c] + []));
    RunCons(s, a, [b] + ([c] + []));
    RunCons(Step(s, a), b, [c] + []);
    RunCons(Step(Step(s, a), b), c, []);
  }

  lemma {:induction false} ZerosRun(q: State, d: string)
    requires Quoting(q) && q == Within(q, Unicode(d)) && StringPartOk(Unicode(d))
    ensures Run(q, Zeros(4 - |d|)) == Within(q, if IsHighSurrogate(d) then HighEnd else Plain)
    decreases 4 - |d|
  {
    var w := Zeros(4 - |d|);
    assert w == ['0'] + Zeros(3 - |d|);
    RunCons(q, '0', Zeros(3 - |d|));
    if |d| < 3 {
      ZerosRun(Step(q, '0'), d + ['0']);
    } else {
      assert Zeros(0) == "";
    }
  }

  lemma LowZerosRun(q: State, d: string)
    requires Quoting(q) && q == Within(q, Low(d)) && StringPartOk(Low(d)) && |d| >= 2
    ensures Run(q, Zeros(4 - |d|)) == Within(q, Plain)
  {
    if |d| == 3 {
      assert Zeros(1) == ['0'] + "";
      RunCons(q, '0', "");
    } else {
      assert Zeros(2) == ['0'] + (['0'] + "");
      RunCons(q, '0', ['0'] + "");
      RunCons(Step(q, '0'), '0', "");
    }
  }

  lemma LowRun(q: State)
    requires Quoting(q) && q == Within(q, Low(""))
    ensures Run(q, "dc00") == Within(q, Plain)
  {
    RunFour(q, 'd', 'c', '0', '0');
  }

  lemma LowAfterD(q: State, d: string)
    requires Quoting(q) && q == Within(q, Low(d)) && StringPartOk(Low(d)) && |d| == 1
    ensures Run(q, "c00") == Within(q, Plain)
  {
    assert "c00" == ['c', '0', '0'];
    RunThree(q, 'c', '0', '0');
  }

  lemma LowPairRun(q: State)
    requires Quoting(q)
    ensures Run(Within(q, HighBackslash), "udc00") == Within(q, Plain)
    ensures Run(Within(q, HighEnd), "\\udc00") == Within(q, Plain)
  {
    LowRun(Within(q, Low("")));
    assert "udc00" == ['u'] + "dc00";
    RunCons(Within(q, HighBackslash), 'u', "dc00");
    assert "\\udc00" == ['\\'] + "udc00";
    RunCons(Within(q, HighEnd), '\\', "udc00");
  }

  lemma UnicodePaddingRun(str: string, q: State, d: string, before: string)
    requires Quoting(q) && q == Within(q, Unicode(d)) && StringPartOk(Unicode(d)) && q == Run(START, str)
    requires EscapeTail(str, d, before)
    ensures Run(q, UnicodePadding(str)) == if Misread(str) then Dead else Within(q, Plain)
  {
    UnicodePaddingIs(str, d, before);
    ZerosRun(q, d);
    if IsHighSurrogate(d) {
      LowPairRun(q);
      RunAppend(q, Zeros(4 - |d|), "\\udc00");
    } else if EndsLookingHigh(before) && d == "" {
      LowForNew(q);
    } else if EndsLookingHigh(before) && |d| == 1 {
      LowForNewD(q, d);
    }
  }

  /** The padding of an escape that starts a new character. */
  lemma UnicodePaddingIs(str: string, d: string, before: string)
    requires EscapeTail(str, d, before) && |d| < 4 && AllHex(d)
    ensures |str| >= |d| + 2 && str[..|str| - |d| - 2] == before
    ensures UnicodePadding(str) ==
              if IsHighSurrogate(d) then Zeros(4 - |d|) + "\\udc00"
              else if EndsLookingHigh(before) && d == "" then "dc00"
              else if EndsLookingHigh(before) && |d| == 1 then "c00"
              else Zeros(4 - |d|)
  {
    EscapeTailLength(str, d, before);
  }

  /** A low surrogate where a character has to start is refused. */
  lemma LowForNew(q: State)
    requires Quoting(q) && q == Within(q, Unicode(""))
    ensures Run(q, "dc00").Dead?
  {
    RunFour(q, 'd', 'c', '0', '0');
  }

  lemma LowForNewD(q: State, d: string)
    requires Quoting(q) && q == Within(q, Unicode(d)) && |d| == 1 && IsHex(d[0])
    ensures Run(q, "c00") == if IsD(d[0]) then Dead else Within(q, Plain)
  {
    assert "c00" == ['c', '0', '0'];
    RunThree(q, 'c', '0', '0');
  }

  /** The padding of a low surrogate that is cut short. */
  lemma LowPadding(str: string, d: string, before: string)
    requires StringPartOk(Low(d)) && EscapeTail(str, d, before) && EndsLookingHigh(before)
    ensures UnicodePadding(str) == if d == "" then "dc00" else if |d| == 1 then "c00" else Zeros(4 - |d|)
  {
    EscapeTailLength(str, d, before);
  }

  lemma LowPaddingRun(str: string, q: State, d: string, before: string)
    requires Quoting(q) && q == Within(q, Low(d)) && StringPartOk(Low(d)) && q == Run(START, str)
    requires EscapeTail(str, d, before) && EndsLookingHigh(before)
    ensures Run(q, UnicodePadding(str)) == Within(q, Plain)
  {
    LowPadding(str, d, before);
    if d == "" {
      LowRun(q);
    } else if |d| == 1 {
      LowAfterD(q, d);
    } else {
      LowZerosRun(q, d);
    }
  }

  lemma HighPaddingRun(str: string, q: State, d: string, before: string)
    requires Quoting(q) && q == Within(q, HighEnd) && |d| == 4 && AllHex(d) && IsHighSurrogate(d)
    requires EscapeTail(str, d, before)
    ensures Run(q, UnicodePadding(str)) == Within(q, Plain)
  {
    EscapeTailLength(str, d, before);
    LowPairRun(q);
    assert Zeros(0) + "\\udc00" == "\\udc00";
  }

  lemma HighEndsLookingHigh(str: string)
    requires OpenEscape(Run(START, str)) && Run(START, str).mode.part.HighEnd?
    ensures EndsLookingHigh(str)
  {
    var d, before := UnicodeTail(str);
    EscapeTailLength(str, d, before);
  }

  lemma BackslashIsNoEscape(str: string, k: nat)
    requires EndsInBackslash(str)
    ensures !EndsInEscape(str, k)
  {
    if 0 < k <= |str| {
      assert str[|str| - k..][k - 1] == '\\' && '\\' in str[|str| - k..];
    }
  }

  lemma BackslashPadding(str: string)
    requires EndsInBackslash(str)
    ensures UnicodePadding(str) == "udc00"
  {
    BackslashIsNoEscape(str, 0);
    BackslashIsNoEscape(str, 1);
    BackslashIsNoEscape(str, 2);
    BackslashIsNoEscape(str, 3);
    BackslashIsNoEscape(str, 4);
  }

  /** The padding completes every open escape to a valid character, unless the text is misread. */
  lemma PaddingWorks(str: string)
    requires var q := Run(START, str); Quoting(q) && !q.mode.part.Plain? && !q.mode.part.Escape?
    ensures var q := Run(START, str);
            Run(q, UnicodePadding(str)) == if Misread(str) then Dead else Within(q, Plain)
  {
    var q := Run(START, str);
    assert Valid(START);
    RunKeepsValid(START, str);
    if q.mode.part.HighBackslash? {
      var str', s, c := LastStep(str);
      BackslashStep(s, c);
      BackslashPadding(str);
      LowPairRun(q);
    } else {
      var d, before := UnicodeTail(str);
      match q.mode.part {
        case Unicode(_) => UnicodePaddingRun(str, q, d, before);
        case Low(_) => HighEndsLookingHigh(before); LowPaddingRun(str, q, d, before);
        case HighEnd => HighPaddingRun(str, q, d, before);
      }
    }
  }
}
