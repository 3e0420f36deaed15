/**
  common/json-partial.cpp:114-139 on texts in which something else follows: only what stands in front of the first
  character that cannot go on matters, and a document is parsed although it is followed by other text.
  */
module JsonFollowing {
  import opened Basics
  import opened Json
  import opened JsonPartial
  import opened JsonHealingTheorem

  /** No JSON text begins with `str` and this character. */
  predicate Refused(str: string, c: char) {
    Run(START, str).Live? && Step(Run(START, str), c).Dead?
  }

  lemma FrontOf(str: string, rest: string, k: nat)
    requires rest != "" && |str| < k <= |str + rest|
    ensures (str + rest)[..k] == str + ([rest[0]] + rest[1..k - |str|])
  {
    assert rest[..k - |str|] == [rest[0]] + rest[1..k - |str|];
    assert (str + rest)[..k] == str + rest[..k - |str|];
  }

  /** A text that goes on with a refused character is not accepted. */
  lemma RefusedIsDead(str: string, c: char, more: string)
    requires Refused(str, c)
    ensures !Accepts(str + ([c] + more))
  {
    RunAppend(START, str, [c] + more);
    RunCons(Run(START, str), c, more);
    RunDead(more);
  }

  lemma ReadUpTo(str: string, rest: string)
    requires rest != "" && Refused(str, rest[0])
    ensures var input := str + rest;
            && Readable(START, input) == |str| && input[..|str|] == str && input[|str|] == rest[0]
            && forall k :: |str| < k <= |input| ==> !Accepts(input[..k])
  {
    var input := str + rest;
    assert input[..|str|] == str;
    ReadableIs(START, input, |str|);
    forall k | |str| < k <= |input| ensures !Accepts(input[..k]) {
      FrontOf(str, rest, k);
      RefusedIsDead(str, rest[0], rest[1..k - |str|]);
    }
  }

  /** The events of a refused character leave the containers that are open, as the end of the input does. */
  lemma RefusedKeepsStack(s: State, c: char)
    requires s.Live? && Valid(s) && Step(s, c).Dead?
    ensures HandlersHold(s.stack, Events(s, c)) && HandleAll(s.stack, Events(s, c)) == AtEnd(s).stack
  {
    EventsFollowStack(s, c);
    if NumberEvents(s.mode, c) != [] {
      CloseValueFits(s.stack);
      assert AfterEvents(CloseValue(s.stack), c) == [];
      assert Events(s, c) == [Scalar];
      OneEvent(s.stack, Scalar);
    } else {
      assert Events(s, c) == [];
    }
  }

  /** A text that goes wrong where the error is reported is treated as if it ended there. */
  lemma ErrorIsLikeTheEnd(str: string, rest: string, marker: string)
    requires rest != "" && Refused(str, rest[0]) && ErrorPosition(str + rest) == |str|
    ensures ParseOutcome(str + rest, marker) == ParseOutcome(str, marker)
  {
    ReadUpTo(str, rest);
    LiveIsReadable(str);
    LiveIsValid(str);
    RefusedKeepsStack(Run(START, str), rest[0]);
    assert (str + rest)[..|str + rest|] == str + rest;
  }

  // ----- behind a document -----

  /** The first character of a string, a literal or a number. */
  predicate StartsScalar(c: char) { c == '"' || c == 't' || c == 'f' || c == 'n' || c == '-' || IsDigit(c) }

  /** A number of one digit. */
  predicate OneDigit(rest: string) {
    && rest != "" && IsDigit(rest[0])
    && (|rest| == 1 || StepNumber(if rest[0] == '0' then Zero else Digits, rest[1]) == Ends)
  }

  lemma ScanStops(text: string, mode: Mode, n: nat)
    requires n < |text| && StartValue([], text[n]) == Live([], mode)
    ensures ScanErrorAt(text, mode, n + 1) == n <==> OneDigit(text[n..])
  {
  }

  /** Where the error behind a document is reported. */
  lemma ErrorBehind(doc: string, rest: string)
    requires Accepts(doc) && rest != "" && Refused(doc, rest[0])
    ensures ErrorPosition(doc + rest) == |doc| <==> !StartsScalar(rest[0]) || OneDigit(rest)
  {
    ReadUpTo(doc, rest);
    var input, start := doc + rest, StartValue([], rest[0]);
    assert input[|doc|..] == rest;
    if start.Live? && start.stack == [] {
      ScanStops(input, start.mode, |doc|);
    }
  }

  /** A whole document is parsed as it stands. */
  lemma DocumentIsParsed(doc: string, marker: string)
    requires Accepts(doc)
    ensures ParseOutcome(doc, marker) == Parsed(doc, "", |doc|)
  {
  }

  /**
    A document that is followed by other text is parsed, up to where it ends, exactly when that text does not begin
    with a string, a literal or a number of several characters; otherwise the call reports that it failed.  In both
    cases no longer part of the input is a document.
    */
  lemma DocumentInFront(doc: string, rest: string, marker: string)
    requires Accepts(doc) && rest != "" && Refused(doc, rest[0])
    ensures ParseOutcome(doc + rest, marker) ==
              if !StartsScalar(rest[0]) || OneDigit(rest) then Parsed(doc, "", |doc|) else NotParsed
    ensures forall k :: |doc| < k <= |doc + rest| ==> !Accepts((doc + rest)[..k])
  {
    ReadUpTo(doc, rest);
    ErrorBehind(doc, rest);
    if !StartsScalar(rest[0]) || OneDigit(rest) {
      ErrorIsLikeTheEnd(doc, rest, marker);
      DocumentIsParsed(doc, marker);
    } else {
      TokenBehind(doc, rest, marker);
    }
  }

  /** The first character of a longer token behind a document is part of what is tried, and cannot be repaired. */
  lemma TokenBehind(doc: string, rest: string, marker: string)
    requires Accepts(doc) && rest != "" && Refused(doc, rest[0]) && ErrorPosition(doc + rest) > |doc|
    ensures ParseOutcome(doc + rest, marker) == NotParsed
  {
    ReadUpTo(doc, rest);
    var input := doc + rest;
    var p := ErrorPosition(input);
    var str := input[..p];
    LiveIsValid(doc);
    RefusedKeepsStack(Run(START, doc), rest[0]);
    assert str == doc + rest[..p - |doc|] && input[..|input|] == input;
    StaysRefused(doc, rest[..p - |doc|], "\"");
    StaysRefused(doc, rest[..p - |doc|], "\\\"");
  }

  lemma StaysRefused(doc: string, more: string, tail: string)
    requires more != "" && Refused(doc, more[0])
    ensures !CanParse(doc + more, tail)
  {
    assert (doc + more) + tail == doc + (more + tail);
    ReadUpTo(doc, more + tail);
    assert (doc + (more + tail))[..|doc + (more + tail)|] == doc + (more + tail);
  }

  // ----- documents that end with a container -----

  predicate NumberChar(c: char) { IsDigit(c) || c == '+' || c == '-' || c == '.' || c == 'e' || c == 'E' }

  lemma StepIntoNumber(s: State, c: char)
    requires var t := Step(s, c); t.Live? && t.mode.InNumber?
    ensures NumberChar(c)
  {
  }

  lemma InNumberEnds(str: string)
    requires var q := Run(START, str); q.Live? && q.mode.InNumber?
    ensures str != "" && NumberChar(str[|str| - 1])
  {
    if str != "" {
      RunLast(START, str);
      StepIntoNumber(Run(START, str[..|str| - 1]), str[|str| - 1]);
    }
  }

  /** Behind the last bracket or brace of a document nothing but blanks can follow. */
  lemma ContainerEnds(doc: string, c: char)
    requires Accepts(doc) && (LastNonSpace(doc) == Some('}') || LastNonSpace(doc) == Some(']'))
    ensures Refused(doc, c) <==> !IsWhitespace(c)
  {
    if Run(START, doc).mode.InNumber? {
      InNumberEnds(doc);
    }
  }

  /** Text behind an object or array never hides it, unless it is a string, a literal or a longer number. */
  lemma ContainerInFront(doc: string, rest: string, marker: string)
    requires Accepts(doc) && (LastNonSpace(doc) == Some('}') || LastNonSpace(doc) == Some(']'))
    requires rest != "" && !IsWhitespace(rest[0]) && !StartsScalar(rest[0])
    ensures ParseOutcome(doc + rest, marker) == Parsed(doc, "", |doc|)
  {
    ContainerEnds(doc, rest[0]);
    DocumentInFront(doc, rest, marker);
  }

  /** Without a marker nothing is healed: the call never throws, and what it parses is what it was given. */
  lemma NoMarkerNeverHeals(input: string)
    ensures var o := ParseOutcome(input, "");
            && !o.Threw? && (o.NotParsed? ==> !Accepts(input))
            && (o.Parsed? ==> o.end <= |input| && o.text == input[..o.end] && Accepts(o.text) && o.dump == "")
  {
    assert input[..|input|] == input;
  }
}
