/**
  common/json-partial.cpp: parse a JSON text and, when it is truncated, repair it with
  a healing marker.  Reading is done by the recogniser of module Json; the SAX error
  locator keeps the stack of open elements from the events it is sent.
  */
module JsonPartial {
  import opened Basics
  import opened Json

  /** The events a SAX parser sends; the scalar events all have the same handler. */
  datatype SaxEvent = Scalar | StartObject | EndObject | KeyRead | StartArray | EndArray

  /** The stack after one event, or the assertion failure of `end_object` and `end_array`. */
  predicate HandlerAssertHolds(stack: seq<Frame>, e: SaxEvent) {
    match e
    case EndObject => stack != [] && Top(stack) == Object
    case EndArray => stack != [] && Top(stack) == Array
    case _ => true
  }

  function Handle(stack: seq<Frame>, e: SaxEvent): seq<Frame>
    requires HandlerAssertHolds(stack, e)
  {
    match e
    case Scalar => CloseValue(stack)
    case StartObject => stack + [Object]
    case KeyRead => stack + [Key]
    case StartArray => stack + [Array]
    case EndObject => CloseValue(stack[..|stack| - 1])
    case EndArray => CloseValue(stack[..|stack| - 1])
  }

  /** The event sent when `c` is read in a state that is not inside a number. */
  function TokenEvents(mode: Mode, c: char): seq<SaxEvent> {
    match mode
    case InString(isKey, Plain) => if c == '"' then [if isKey then KeyRead else Scalar] else []
    case InLiteral(rest) => if |rest| == 1 && c == rest[0] then [Scalar] else []
    case ExpectValue => if c == '{' then [StartObject] else if c == '[' then [StartArray] else []
    case ArrayStart =>
      if c == '{' then [StartObject] else if c == '[' then [StartArray] else if c == ']' then [EndArray] else []
    case ObjectStart => if c == '}' then [EndObject] else []
    case _ => []
  }

  function AfterEvents(stack: seq<Frame>, c: char): seq<SaxEvent> {
    if stack == [] then []
    else if Top(stack) == Array && c == ']' then [EndArray]
    else if Top(stack) == Object && c == '}' then [EndObject]
    else []
  }

  /** The event that completes a number, which happens when the next character is not part of it. */
  function NumberEvents(mode: Mode, c: char): seq<SaxEvent> {
    if mode.InNumber? && StepNumber(mode.number, c) == Ends then [Scalar] else []
  }

  function Events(s: State, c: char): seq<SaxEvent> {
    if s.Dead? then []
    else if s.mode.AfterValue? then AfterEvents(s.stack, c)
    else if NumberEvents(s.mode, c) != [] then [Scalar] + AfterEvents(CloseValue(s.stack), c)
    else TokenEvents(s.mode, c)
  }

  ghost predicate HandlersHold(stack: seq<Frame>, es: seq<SaxEvent>)
    decreases es
  {
    es == [] || (HandlerAssertHolds(stack, es[0]) && HandlersHold(Handle(stack, es[0]), es[1..]))
  }

  ghost function HandleAll(stack: seq<Frame>, es: seq<SaxEvent>): seq<Frame>
    requires HandlersHold(stack, es)
    decreases es
  {
    if es == [] then stack else HandleAll(Handle(stack, es[0]), es[1..])
  }

  lemma OneEvent(stack: seq<Frame>, e: SaxEvent)
    requires HandlerAssertHolds(stack, e)
    ensures HandlersHold(stack, [e]) && HandleAll(stack, [e]) == Handle(stack, e)
  {
    assert HandlersHold(Handle(stack, e), []) && HandleAll(Handle(stack, e), []) == Handle(stack, e);
    assert [e][1..] == [];
  }

  lemma AfterFollows(stack: seq<Frame>, c: char)
    requires stack == [] || Top(stack) != Key
    ensures HandlersHold(stack, AfterEvents(stack, c))
    ensures StepAfter(stack, c).Live? ==> HandleAll(stack, AfterEvents(stack, c)) == StepAfter(stack, c).stack
  {
    if AfterEvents(stack, c) != [] {
      OneEvent(stack, AfterEvents(stack, c)[0]);
    }
  }

  /** The SAX stack is the recogniser's stack, and no handler assertion can fail. */
  lemma EventsFollowStack(s: State, c: char)
    requires s.Live? && Valid(s)
    ensures HandlersHold(s.stack, Events(s, c))
    ensures Step(s, c).Live? ==> HandleAll(s.stack, Events(s, c)) == Step(s, c).stack
  {
    if s.mode.AfterValue? {
      AfterFollows(s.stack, c);
    } else if NumberEvents(s.mode, c) != [] {
      var t, es := CloseValue(s.stack), AfterEvents(CloseValue(s.stack), c);
      CloseValueFits(s.stack);
      AfterFollows(t, c);
      assert ([Scalar] + es)[1..] == es;
    } else if TokenEvents(s.mode, c) != [] {
      OneEvent(s.stack, TokenEvents(s.mode, c)[0]);
    }
  }

  /** `json_error_locator` (common/json-partial.cpp:40-113). */
  class ErrorLocator {
    var position: nat
    var foundError: bool
    var stack: seq<Frame>

    constructor ()
      ensures position == 0 && !foundError && stack == []
    {
      position, foundError, stack := 0, false, [];
    }

    /** `charsRead` counts the character the library stopped at. */
    method ParseError(charsRead: nat)
      requires charsRead > 0
      modifies this
      ensures position == charsRead - 1 && foundError && stack == old(stack)
    {
      position, foundError := charsRead - 1, true;
    }

    method PopKey()
      modifies this`stack
      ensures stack == CloseValue(old(stack))
    {
      if stack != [] && Top(stack) == Key {
        stack := stack[..|stack| - 1];
      }
    }

    method Receive(e: SaxEvent)
      requires HandlerAssertHolds(stack, e)
      modifies this`stack
      ensures stack == Handle(old(stack), e)
    {
      match e {
        case Scalar => PopKey();
        case StartObject => stack := stack + [Object];
        case KeyRead => stack := stack + [Key];
        case StartArray => stack := stack + [Array];
        case EndObject => stack := stack[..|stack| - 1]; PopKey();
        case EndArray => stack := stack[..|stack| - 1]; PopKey();
      }
    }

    method ReceiveAll(es: seq<SaxEvent>)
      requires HandlersHold(stack, es)
      modifies this`stack
      ensures stack == HandleAll(old(stack), es)
    {
      var i := 0;
      while i < |es|
        invariant 0 <= i <= |es|
        invariant HandlersHold(stack, es[i..])
        invariant HandleAll(stack, es[i..]) == HandleAll(old(stack), es)
      {
        assert es[i..][0] == es[i] && es[i..][1..] == es[i + 1..];
        Receive(es[i]);
        i := i + 1;
      }
    }
  }

  /** How many characters can be read before the recogniser is stuck. */
  ghost function Readable(s: State, text: string): (n: nat)
    ensures n <= |text|
    decreases text
  {
    if text == "" || Step(s, text[0]).Dead? then 0 else 1 + Readable(Step(s, text[0]), text[1..])
  }

  // ----- where the library reports an error -----

  /** How many of the next `k` characters from `i` on are hexadecimal digits in a row. */
  function HexRun(text: string, i: nat, k: nat): (r: nat)
    requires i <= |text|
    ensures r <= k && i + r <= |text|
    decreases k
  {
    if k > 0 && i < |text| && IsHex(text[i]) then 1 + HexRun(text, i + 1, k - 1) else 0
  }

  /** A refused character of a string; surrogates are judged only when all four digits have been read. */
  function StringErrorAt(text: string, part: StringPart, n: nat): (r: nat)
    requires n < |text|
    ensures n <= r <= |text|
  {
    var digits := match part case Unicode(d) => |d| case Low(d) => |d| case _ => 3;
    if !IsHex(text[n]) || digits >= 3 then n
    else
      var k := HexRun(text, n + 1, 3 - digits);
      if k == 3 - digits then n + k else n + 1 + k
  }

  /** The error in or at the end of a token that was entered with `mode` and is read up to `i`. */
  function ScanErrorAt(text: string, mode: Mode, i: nat): (r: nat)
    requires 0 < i <= |text|
    ensures i - 1 <= r <= |text|
    decreases |text| - i
  {
    if i == |text| then
      if mode.InNumber? && IsCompleteNumber(mode.number) then i - 1 else i
    else
      match mode
      case InString(isKey, part) =>
        var t := StepString([], isKey, part, text[i]);
        if t.Dead? then StringErrorAt(text, part, i)
        else if t.mode.InString? then ScanErrorAt(text, t.mode, i + 1)
        else i
      case InLiteral(rest) =>
        if |rest| <= 1 || text[i] != rest[0] then i else ScanErrorAt(text, InLiteral(rest[1..]), i + 1)
      case InNumber(number) =>
        (match StepNumber(number, text[i])
         case Continue(next) => ScanErrorAt(text, InNumber(next), i + 1)
         case Ends => i - 1
         case Bad => i)
      case _ => i
  }

  /**
    The position handed to the locator, less one, when the recogniser refuses the character at `n`.
    A token that cannot stand there is read to its end first, and the error is at its last character.
    */
  function ErrorAt(text: string, mode: Mode, n: nat): (r: nat)
    requires n < |text|
    ensures n <= r <= |text|
  {
    if mode.InString? then StringErrorAt(text, mode.part, n)
    else if mode.InLiteral? || (mode.InNumber? && StepNumber(mode.number, text[n]) == Bad) then n
    else
      var start := StartValue([], text[n]);
      if start.Live? && start.stack == [] then ScanErrorAt(text, start.mode, n + 1) else n
  }

  ghost function ErrorPosition(input: string): (r: nat)
    ensures Readable(START, input) <= r <= |input|
  {
    var n := Readable(START, input);
    var s := Run(START, input[..n]);
    if n == |input| || s.Dead? then n else ErrorAt(input, s.mode, n)
  }

  /** The locator's stack when the parser stops. */
  ghost function LocatorStack(input: string): seq<Frame> {
    var n := Readable(START, input);
    var s := Run(START, input[..n]);
    if s.Dead? then []
    else if n == |input| then AtEnd(s).stack
    else if HandlersHold(s.stack, Events(s, input[n])) then HandleAll(s.stack, Events(s, input[n]))
    else []
  }

  lemma {:induction false} ReadableIs(s: State, text: string, n: nat)
    requires n <= |text| && Run(s, text[..n]).Live?
    requires n < |text| ==> Step(Run(s, text[..n]), text[n]).Dead?
    ensures Readable(s, text) == n
    decreases text
  {
    if n > 0 {
      assert text[..n][1..] == text[1..][..n - 1];
      RunDead(text[1..][..n - 1]);
      ReadableIs(Step(s, text[0]), text[1..], n - 1);
    }
  }

  /** `json::sax_parse` driving the locator. */
  method SaxParse(input: string) returns (loc: ErrorLocator)
    ensures fresh(loc)
    ensures loc.foundError <==> !Accepts(input)
    ensures loc.foundError ==> loc.position == ErrorPosition(input)
    ensures loc.stack == LocatorStack(input)
  {
    loc := new ErrorLocator();
    var s := START;
    var i := 0;
    assert Valid(START);
    while i < |input|
      invariant 0 <= i <= |input|
      invariant s == Run(START, input[..i]) && s.Live? && Valid(s)
      invariant loc.stack == s.stack && !loc.foundError
      invariant fresh(loc)
    {
      EventsFollowStack(s, input[i]);
      StepKeepsValid(s, input[i]);
      OneMore(input, i);
      loc.ReceiveAll(Events(s, input[i]));
      if Step(s, input[i]).Dead? {
        StoppedAt(input, i);
        loc.ParseError(ErrorAt(input, s.mode, i) + 1);
        return;
      }
      s := Step(s, input[i]);
      i := i + 1;
    }
    ReadToEnd(input, i);
    if s.mode.InNumber? && IsCompleteNumber(s.mode.number) {
      loc.Receive(Scalar);
    }
    if !Accepting(s) {
      loc.ParseError(|input| + 1);
    }
  }

  lemma OneMore(input: string, i: nat)
    requires i < |input|
    ensures Run(START, input[..i + 1]) == Step(Run(START, input[..i]), input[i])
  {
    assert input[..i + 1][..i] == input[..i];
    RunLast(START, input[..i + 1]);
  }

  /** What is known when the character at `i` is refused. */
  lemma StoppedAt(input: string, i: nat)
    requires i < |input|
    requires var s := Run(START, input[..i]); s.Live? && Valid(s) && Step(s, input[i]).Dead?
    ensures var s := Run(START, input[..i]);
            && !Accepts(input) && ErrorPosition(input) == ErrorAt(input, s.mode, i)
            && HandlersHold(s.stack, Events(s, input[i])) && LocatorStack(input) == HandleAll(s.stack, Events(s, input[i]))
  {
    OneMore(input, i);
    assert input == input[..i + 1] + input[i + 1..];
    RunAppend(START, input[..i + 1], input[i + 1..]);
    RunDead(input[i + 1..]);
    ReadableIs(START, input, i);
    EventsFollowStack(Run(START, input[..i]), input[i]);
  }

  lemma ReadToEnd(input: string, i: nat)
    requires i == |input| && Run(START, input[..i]).Live?
    ensures var s := Run(START, input[..i]);
            && s == Run(START, input) && (Accepts(input) <==> Accepting(s))
            && ErrorPosition(input) == |input| && LocatorStack(input) == AtEnd(s).stack
  {
    assert input[..i] == input;
    ReadableIs(START, input, i);
  }

  // ----- the healing ladder -----

  function Closer(f: Frame): string {
    match f
    case Object => "}"
    case Array => "]"
    case Key => ""
  }

  function Closing(stack: seq<Frame>): string {
    if stack == [] then "" else Closer(Top(stack)) + Closing(stack[..|stack| - 1])
  }

  /** `find_last_not_of(" \n\r\t")`. */
  function LastNonSpace(str: string): Option<char> {
    if str == "" then None
    else if IsWhitespace(str[|str| - 1]) then LastNonSpace(str[..|str| - 1])
    else Some(str[|str| - 1])
  }

  /** `find_last_of`: the last position holding one of two characters. */
  function LastIndexOf(str: string, a: char, b: char): (r: Option<nat>)
    ensures r.Some? ==> r.value < |str| && (str[r.value] == a || str[r.value] == b)
    ensures r.Some? ==> forall i :: r.value < i < |str| ==> str[i] != a && str[i] != b
    ensures r.None? ==> forall i :: 0 <= i < |str| ==> str[i] != a && str[i] != b
  {
    if str == "" then None
    else if str[|str| - 1] == a || str[|str| - 1] == b then Some(|str| - 1)
    else LastIndexOf(str[..|str| - 1], a, b)
  }

  /** The text stops on something that may be an unfinished number. */
  predicate MaybeNumber(str: string) {
    && str != ""
    && !IsSpace(str[|str| - 1])
    && var c := str[|str| - 1];
       IsDigit(c) || c == '.' || c == 'e' || c == 'E' || c == '-'
  }

  /** The text ends in \u and exactly k hexadecimal digits. */
  predicate EndsInEscape(str: string, k: nat) {
    |str| >= k + 2 && str[|str| - k - 2] == '\\' && str[|str| - k - 1] == 'u' && AllHex(str[|str| - k..])
  }

  /** Length of the match of the partial unicode escape at the end of the text, 0 when there is none. */
  function EscapeLength(str: string): (n: nat)
    ensures n <= 6
  {
    if EndsInEscape(str, 4) then 6
    else if EndsInEscape(str, 3) then 5
    else if EndsInEscape(str, 2) then 4
    else if EndsInEscape(str, 1) then 3
    else if EndsInEscape(str, 0) then 2
    else 0
  }

  /** `is_high_surrogate`, a test on the characters of the escape. */
  predicate LooksHigh(s: string) {
    |s| >= 4 && s[0] == '\\' && s[1] == 'u' && IsHighSurrogate(s[2..])
  }

  /** The escape at the end of `str`, if any, reads like a high surrogate. */
  predicate EndsLookingHigh(str: string) {
    EscapeLength(str) <= |str| && LooksHigh(str[|str| - EscapeLength(str)..])
  }

  function Zeros(n: nat): string { seq(n, _ => '0') }

  /** `unicode_marker_padding` (common/json-partial.cpp:183-211). */
  function UnicodePadding(str: string): string {
    var n := EscapeLength(str);
    if n == 0 || n > |str| then "udc00"
    else if EndsLookingHigh(str) then Zeros(6 - n) + "\\udc00"
    else if EndsLookingHigh(str[..|str| - n]) then
      if n == 2 then "dc00" else if n == 3 then "c00" else Zeros(6 - n)
    else Zeros(6 - n)
  }

  /** A repair keeps a prefix of the text, adds `dump` (which holds the marker) and then `tail`. */
  datatype Repair = Unknown | Splice(keep: nat, dump: string, tail: string)

  function Apply(str: string, r: Repair): string
    requires r.Splice? && r.keep <= |str|
  {
    str[..r.keep] + (r.dump + r.tail)
  }

  predicate CanParse(str: string, tail: string) { Accepts(str + tail) }

  predicate LastIs(str: string, c: char) { LastNonSpace(str) == Some(c) }

  predicate EndsInBackslash(str: string) { str != "" && str[|str| - 1] == '\\' }

  /** Where the text was found to stop; `Cut` is the last resort. */
  datatype Branch = NewValue | AfterKey | NewMember | InText | AfterBackslash | InUnicode | AfterItem | Cut

  /** What is put in front of the rest, ending in the marker: the json_dump_marker. */
  function DumpOf(b: Branch, padding: string, marker: string): string {
    match b
    case NewValue => "\"" + marker
    case AfterKey => ":\"" + marker
    case NewMember => "\"" + marker
    case InText => marker
    case AfterBackslash => "\\" + marker
    case InUnicode => padding + marker
    case AfterItem => ",\"" + marker
    case Cut => "\"" + marker
  }

  function Spliced(b: Branch, str: string, tail: string, marker: string): Repair {
    Splice(|str|, DumpOf(b, UnicodePadding(str), marker), tail)
  }

  /** Inside an object value (common/json-partial.cpp:215-242). */
  function KeyBranch(str: string, closing: string): Branch {
    var padding, tail := UnicodePadding(str), "\"" + closing;
    if LastIs(str, ':') && CanParse(str, "1" + closing) then NewValue
    else if CanParse(str, ": 1" + closing) then AfterKey
    else if LastIs(str, '{') && CanParse(str, closing) then NewMember
    else if CanParse(str, tail) then InText
    else if EndsInBackslash(str) && CanParse(str, "\\" + tail) then AfterBackslash
    else if CanParse(str, padding + tail) then InUnicode
    else Cut
  }

  function KeyLadder(str: string, closing: string, marker: string): (r: Repair)
    ensures r.Splice? ==> r.keep <= |str|
  {
    var b := KeyBranch(str, closing);
    if b.Cut? then CutBack(str, ':', ':', closing, marker)
    else Spliced(b, str, if b.NewMember? then "\": 1" + closing else "\"" + closing, marker)
  }

  /** Inside an array (common/json-partial.cpp:243-266). */
  function ArrayBranch(str: string, closing: string): Branch {
    var padding, tail := UnicodePadding(str), "\"" + closing;
    if (LastIs(str, ',') || LastIs(str, '[')) && CanParse(str, "1" + closing) then NewValue
    else if CanParse(str, tail) then InText
    else if EndsInBackslash(str) && CanParse(str, "\\" + tail) then AfterBackslash
    else if CanParse(str, padding + tail) then InUnicode
    else if !MaybeNumber(str) && CanParse(str, ", 1" + closing) then AfterItem
    else Cut
  }

  function ArrayLadder(str: string, closing: string, marker: string): (r: Repair)
    ensures r.Splice? ==> r.keep <= |str|
  {
    var b := ArrayBranch(str, closing);
    if b.Cut? then CutBack(str, '[', ',', closing, marker) else Spliced(b, str, "\"" + closing, marker)
  }

  /** Inside an object, outside its values (common/json-partial.cpp:267-291). */
  function ObjectBranch(str: string, closing: string): Branch {
    var padding, tail := UnicodePadding(str), "\": 1" + closing;
    if (LastIs(str, '{') && CanParse(str, closing)) || (LastIs(str, ',') && CanParse(str, "\"" + tail)) then NewMember
    else if !MaybeNumber(str) && CanParse(str, ",\"" + tail) then AfterItem
    else if CanParse(str, tail) then InText
    else if EndsInBackslash(str) && CanParse(str, "\\" + tail) then AfterBackslash
    else if CanParse(str, padding + tail) then InUnicode
    else Cut
  }

  function ObjectLadder(str: string, closing: string, marker: string): (r: Repair)
    ensures r.Splice? ==> r.keep <= |str|
  {
    var b := ObjectBranch(str, closing);
    if b.Cut? then CutBack(str, ':', ':', closing, marker) else Spliced(b, str, "\": 1" + closing, marker)
  }

  /** The last resort of every ladder: cut back to a separator and put the marker there. */
  function CutBack(str: string, a: char, b: char, closing: string, marker: string): (r: Repair)
    ensures r.Splice? ==> r.keep <= |str|
  {
    match LastIndexOf(str, a, b)
    case None => Unknown
    case Some(p) => Splice(p + 1, "\"" + marker, "\"" + closing)
  }

  function Ladder(str: string, stack: seq<Frame>, marker: string): (r: Repair)
    requires stack != []
    ensures r.Splice? ==> r.keep <= |str|
  {
    match Top(stack)
    case Key => KeyLadder(str, Closing(stack), marker)
    case Array => ArrayLadder(str, Closing(stack), marker)
    case Object => ObjectLadder(str, Closing(stack), marker)
  }

  /** An unclosed string at the top level (common/json-partial.cpp:300-318). */
  function TopLevelRepair(str: string, marker: string): (r: Repair)
    ensures r.Splice? ==> r.keep <= |str|
  {
    if CanParse(str, "\"") then Splice(|str|, marker, "\"")
    else if EndsInBackslash(str) && CanParse(str, "\\\"") then Splice(|str|, "\\" + marker, "\"")
    else Unknown
  }

  /** `text` is the JSON text that was finally parsed, `dump` the json_dump_marker ("" when nothing was healed). */
  datatype Outcome =
    | Parsed(text: string, dump: string, end: nat)
    | NotParsed
    | Threw

  function Finish(str: string, r: Repair): Outcome
    requires r.Splice? ==> r.keep <= |str|
  {
    if r.Splice? && Accepts(Apply(str, r)) then Parsed(Apply(str, r), r.dump, |str|) else Threw
  }

  /** What `common_json_parse` does with any input (common/json-partial.cpp:114-323). */
  ghost function ParseOutcome(input: string, marker: string): Outcome {
    var str, stack := input[..ErrorPosition(input)], LocatorStack(input);
    if Accepts(input) then Parsed(input, "", |input|)
    else if Accepts(str) then Parsed(str, "", |str|)
    else if marker == "" then NotParsed
    else if stack != [] then
      if LastNonSpace(str).None? then Threw else Finish(str, Ladder(str, stack, marker))
    else if str != "" && TopLevelRepair(str, marker).Splice? then Finish(str, TopLevelRepair(str, marker))
    else NotParsed
  }

  method CommonJsonParse(input: string, marker: string) returns (r: Outcome)
    ensures r == ParseOutcome(input, marker)
  {
    var loc := SaxParse(input);
    if !loc.foundError {
      return Parsed(input, "", |input|);
    }
    var str := input[..loc.position];
    if Accepts(str) {
      return Parsed(str, "", |str|);
    }
    if marker != "" && loc.stack != [] {
      r := HealOpenContainer(str, loc.stack, marker);
      return;
    }
    if loc.position != 0 && marker != "" && loc.stack == [] {
      var repair := TopLevelRepair(str, marker);
      if repair.Unknown? {
        return NotParsed;
      }
      r := Complete(str, repair);
      return;
    }
    return NotParsed;
  }

  /** common/json-partial.cpp:141-299. */
  method HealOpenContainer(str: string, stack: seq<Frame>, marker: string) returns (r: Outcome)
    requires stack != []
    ensures r == if LastNonSpace(str).None? then Threw else Finish(str, Ladder(str, stack, marker))
  {
    if LastNonSpace(str).None? {
      return Threw;
    }
    var closing := BuildClosing(stack);
    var repair;
    if Top(stack) == Key {
      repair := KeyLadder(str, closing, marker);
    } else if Top(stack) == Array {
      repair := ArrayLadder(str, closing, marker);
    } else {
      repair := ObjectLadder(str, closing, marker);
    }
    assert repair == Ladder(str, stack, marker);
    r := Complete(str, repair);
  }

  /** What is left of the closers when `i` elements are still to be closed. */
  ghost predicate ClosedTo(stack: seq<Frame>, i: nat, closing: string) {
    i <= |stack| && closing + Closing(stack[..i]) == Closing(stack)
  }

  lemma ClosingStep(stack: seq<Frame>, i: nat, closing: string, longer: string)
    requires 0 < i && ClosedTo(stack, i, closing) && longer == closing + Closer(stack[i - 1])
    ensures ClosedTo(stack, i - 1, longer)
  {
    assert stack[..i][..i - 1] == stack[..i - 1] && Top(stack[..i]) == stack[i - 1];
    Regrouped(closing, Closer(stack[i - 1]), Closing(stack[..i - 1]));
  }

  /** The closers of the open elements, innermost first (common/json-partial.cpp:160-170). */
  method BuildClosing(stack: seq<Frame>) returns (closing: string)
    ensures closing == Closing(stack)
  {
    closing := "";
    var i := |stack|;
    assert stack[..i] == stack && "" + Closing(stack) == Closing(stack);
    while i > 0
      invariant 0 <= i <= |stack|
      invariant ClosedTo(stack, i, closing)
    {
      ghost var before := closing;
      if stack[i - 1] == Object {
        closing := closing + "}";
      } else if stack[i - 1] == Array {
        closing := closing + "]";
      } else {
        assert closing + "" == closing;
      }
      ClosingStep(stack, i, before, closing);
      i := i - 1;
    }
    assert stack[..0] == [] && closing + "" == closing;
  }

  /** Applying the repair and the final `json::parse`, which may throw. */
  method Complete(str: string, repair: Repair) returns (r: Outcome)
    requires repair.Splice? ==> repair.keep <= |str|
    ensures r == Finish(str, repair)
  {
    if repair.Unknown? {
      return Threw;
    }
    var healed := str[..repair.keep];
    healed := healed + (repair.dump + repair.tail);
    if !Accepts(healed) {
      return Threw;
    }
    return Parsed(healed, repair.dump, |str|);
  }
}
