/** The healing theorem: on every truncated JSON text the ladder gives a text that parses, and exactly when it does not. */
module JsonHealingTheorem {
  import opened Basics
  import opened Json
  import opened JsonPartial
  import opened JsonHealing

  /** The repair exists and the repaired text parses, so neither throw of the ladder nor the final parse fails. */
  ghost predicate Heals(str: string, r: Repair) {
    r.Splice? && r.keep <= |str| && Accepts(Apply(str, r))
  }

  /**
    A repair that heals, whose json_dump_marker ends in the marker, and which drops nothing of
    the text except a number or literal at its end, finished or not, and blanks.
    A misread text whose cut lands is healed too, but loses its open string.
    */
  ghost predicate Good(str: string, r: Repair, marker: string) {
    && Heals(str, r)
    && (exists lead :: r.dump == lead + marker)
    && forall c :: c in str[r.keep..] ==> ScalarChar(c) || IsWhitespace(c)
  }

  /** Cutting back lands in front of a value at the same nesting. */
  ghost predicate CutLands(str: string, a: char, b: char, closing: string) {
    var r := LastIndexOf(str, a, b);
    && r.Some?
    && var t := Run(START, str[..r.value + 1]);
       t.Live? && (t.mode.ExpectValue? || t.mode.ArrayStart?) && Closing(t.stack) == closing
  }

  lemma LiveIsValid(str: string)
    requires Run(START, str).Live?
    ensures Valid(Run(START, str))
  {
    assert Valid(START);
    RunKeepsValid(START, str);
  }

  lemma PrefixLive(str: string, n: nat)
    requires Run(START, str).Live? && n <= |str|
    ensures Run(START, str[..n]).Live? && Valid(Run(START, str[..n]))
  {
    assert str == str[..n] + str[n..];
    RunAppend(START, str[..n], str[n..]);
    RunDead(str[n..]);
    LiveIsValid(str[..n]);
  }

  lemma SpliceHeals(str: string, lead: string, stack: seq<Frame>, isKey: bool, marker: string)
    requires KeysInObjects(stack) && (isKey ==> stack != [] && Top(stack) == Object)
    requires Run(Run(START, str), lead) == Live(stack, InString(isKey, Plain)) && PlainMarker(marker)
    ensures Good(str, Splice(|str|, lead + marker, StringTail(isKey, Closing(stack))), marker)
  {
    var tail := StringTail(isKey, Closing(stack));
    MarkerCloses(Run(START, str), lead, stack, isKey, marker);
    AcceptsAfter(str, (lead + marker) + tail);
    assert str[..|str|] == str;
  }

  // ----- cutting back -----

  lemma LiteralStepDies(s: State, c: char)
    requires s.Live? && Valid(s) && s.mode.InLiteral? && !('a' <= c <= 'z')
    ensures Step(s, c).Dead?
  {
    assert s.mode.rest[0] in s.mode.rest;
  }

  lemma SeparatorStep(s: State, c: char)
    requires s.Live? && Valid(s) && Step(s, c).Live? && (c == ':' || c == '[' || c == ',')
    ensures var m := Step(s, c).mode;
            m.ExpectValue? || m.ArrayStart? || m.ExpectKey? || (Quoting(s) && Step(s, c) == s == Within(s, Plain))
  {
    if s.mode.InNumber? {
      StepAfterIsNotScalar(CloseValue(s.stack), c);
    } else if s.mode.InLiteral? {
      LiteralStepDies(s, c);
    }
  }

  /** Once a string is closed too early, the quotes no longer pair up. */
  lemma StrayQuoteRejects(s: State, marker: string, closing: string)
    requires s.Live? && Valid(s) && !Quoting(s) && NoQuote(marker) && NoQuote(closing)
    ensures !Accepting(Run(s, marker + ("\"" + closing)))
  {
    RunKeepsValid(s, marker);
    RunAppend(s, marker, "\"" + closing);
    NoQuoteKeepsQuoting(s, marker);
    var t := Run(s, marker);
    RunCons(t, '"', closing);
    RunDead(closing);
    if t.Live? {
      QuoteOpensOrDies(t);
      if Step(t, '"').Live? {
        OpenStringRejects(Step(t, '"'), closing);
      }
    }
  }

  lemma QuoteOpensOrDies(t: State)
    requires t.Live? && Valid(t) && !Quoting(t)
    ensures Step(t, '"').Dead? || Quoting(Step(t, '"'))
  {
    if t.mode.InLiteral? {
      LiteralStepDies(t, '"');
    }
  }

  lemma ValuePlaceCloses(t: State, marker: string, closing: string)
    requires t.Live? && Valid(t) && (t.mode.ExpectValue? || t.mode.ArrayStart?)
    requires PlainMarker(marker) && OnlyClosers(closing)
    ensures Accepting(Run(t, "\"" + (marker + ("\"" + closing)))) <==> Closing(t.stack) == closing
  {
    var inside := Live(t.stack, InString(false, Plain));
    RunCons(t, '"', marker + ("\"" + closing));
    RunAppend(inside, marker, "\"" + closing);
    PlainRun(t.stack, false, marker);
    RunCons(inside, '"', closing);
    CloseValueFits(t.stack);
    ClosingIgnoresKey(t.stack);
    AfterValueCloses(t.stack);
    if Accepting(Run(Live(CloseValue(t.stack), AfterValue), closing)) {
      ClosersAreForced(CloseValue(t.stack), closing);
    }
  }

  lemma KeyPlaceRejects(t: State, marker: string, closing: string)
    requires t.Live? && t.mode.ExpectKey? && PlainMarker(marker) && OnlyClosers(closing)
    ensures !Accepting(Run(t, "\"" + (marker + ("\"" + closing))))
  {
    var inside := Live(t.stack, InString(true, Plain));
    RunCons(t, '"', marker + ("\"" + closing));
    RunAppend(inside, marker, "\"" + closing);
    PlainRun(t.stack, true, marker);
    RunCons(inside, '"', closing);
    if closing != "" {
      assert closing[0] in closing;
      FirstDead(Live(t.stack + [Key], ExpectColon), closing);
    }
  }

  lemma ClosersHaveNoQuote(closing: string)
    requires OnlyClosers(closing)
    ensures NoQuote(closing) && NoQuote("1" + closing) && NoQuote(": 1" + closing) && NoQuote(", 1" + closing)
  {
  }

  /** What the parser may be in behind a colon, a bracket or a comma. */
  predicate BehindSeparator(t: State) {
    t.Live? && (t.mode.ExpectValue? || t.mode.ArrayStart? || t.mode.ExpectKey? || (Quoting(t) && t.mode.part.Plain?))
  }

  /** The repaired end is read to the end exactly from in front of a value at the same nesting. */
  lemma CutCloses(t: State, marker: string, closing: string)
    requires Valid(t) && BehindSeparator(t) && PlainMarker(marker) && OnlyClosers(closing)
    ensures Accepting(Run(t, "\"" + (marker + ("\"" + closing)))) <==>
              (t.mode.ExpectValue? || t.mode.ArrayStart?) && Closing(t.stack) == closing
  {
    if t.mode.ExpectKey? {
      KeyPlaceRejects(t, marker, closing);
    } else if Quoting(t) {
      ClosersHaveNoQuote(closing);
      RunCons(t, '"', marker + ("\"" + closing));
      StepKeepsValid(t, '"');
      StrayQuoteRejects(Step(t, '"'), marker, closing);
    } else {
      ValuePlaceCloses(t, marker, closing);
    }
  }

  /** Cutting back heals exactly when it lands in front of a value at the same nesting. */
  lemma CutBackExact(str: string, a: char, b: char, closing: string, marker: string)
    requires Run(START, str).Live? && PlainMarker(marker) && OnlyClosers(closing)
    requires (a == ':' && b == ':') || (a == '[' && b == ',')
    ensures Heals(str, CutBack(str, a, b, closing, marker)) <==> CutLands(str, a, b, closing)
  {
    var r := LastIndexOf(str, a, b);
    if r.Some? {
      var cut := str[..r.value + 1];
      PrefixLive(str, r.value + 1);
      var before, s, c := LastStep(cut);
      SeparatorStep(s, c);
      assert ("\"" + marker) + ("\"" + closing) == "\"" + (marker + ("\"" + closing));
      AcceptsAfter(cut, "\"" + (marker + ("\"" + closing)));
      CutCloses(Run(START, cut), marker, closing);
    }
  }

  // ----- texts that stop inside a string -----

  lemma TailAfterQuote(isKey: bool, closing: string) returns (rest: string)
    requires OnlyClosers(closing)
    ensures StringTail(isKey, closing) == ['"'] + rest && NoQuote(rest)
  {
    ClosersHaveNoQuote(closing);
    if isKey {
      KeyTailSplits(closing);
      rest := ": 1" + closing;
    } else {
      rest := closing;
    }
  }

  /** A quote in the middle of an escape does not close the string. */
  lemma QuoteInEscapeRejects(q: State, rest: string)
    requires Quoting(q) && !q.mode.part.Plain? && NoQuote(rest)
    ensures !Accepting(Run(q, ['"'] + rest))
  {
    RunCons(q, '"', rest);
    RunDead(rest);
    if q.mode.part.Escape? {
      OpenStringRejects(Within(q, Plain), rest);
    }
  }

  /** The plain-quote branch is taken exactly between two characters. */
  lemma PlainQuoteBranch(str: string, isKey: bool)
    requires var q := Run(START, str); Quoting(q) && q.mode.isKey == isKey
    ensures var q := Run(START, str);
            CanParse(str, StringTail(isKey, Closing(q.stack))) <==> q.mode.part.Plain?
  {
    var q := Run(START, str);
    LiveIsValid(str);
    ClosingOnlyClosers(q.stack);
    AcceptsAfter(str, StringTail(isKey, Closing(q.stack)));
    if q.mode.part.Plain? {
      TailCloses(q.stack, isKey);
    } else {
      var rest := TailAfterQuote(isKey, Closing(q.stack));
      QuoteInEscapeRejects(q, rest);
    }
  }

  lemma BackslashRejects(q: State, rest: string)
    requires Quoting(q) && !q.mode.part.Plain? && !q.mode.part.Escape?
    ensures !Accepting(Run(q, ['\\'] + (['"'] + rest)))
  {
    RunCons(q, '\\', ['"'] + rest);
    RunDead(['"'] + rest);
    RunDead(rest);
    RunCons(Within(q, HighBackslash), '"', rest);
  }

  lemma BackslashBranch(str: string, isKey: bool)
    requires var q := Run(START, str); Quoting(q) && q.mode.isKey == isKey && !q.mode.part.Plain?
    ensures var q := Run(START, str);
            EndsInBackslash(str) && CanParse(str, "\\" + StringTail(isKey, Closing(q.stack))) <==> q.mode.part.Escape?
  {
    var q := Run(START, str);
    LiveIsValid(str);
    ClosingOnlyClosers(q.stack);
    var tail := StringTail(isKey, Closing(q.stack));
    AcceptsAfter(str, "\\" + tail);
    if q.mode.part.Escape? {
      RunCons(q, '\\', tail);
      TailCloses(q.stack, isKey);
      var before, s, c := LastStep(str);
      BackslashStep(s, c);
    } else {
      var rest := TailAfterQuote(isKey, Closing(q.stack));
      BackslashRejects(q, rest);
    }
  }

  /** The padding branch is taken in every other place of a string, unless the text is misread. */
  lemma PaddingBranch(str: string, isKey: bool)
    requires var q := Run(START, str); Quoting(q) && q.mode.isKey == isKey && !q.mode.part.Plain? && !q.mode.part.Escape?
    ensures var q := Run(START, str);
            CanParse(str, UnicodePadding(str) + StringTail(isKey, Closing(q.stack))) <==> !Misread(str)
  {
    var q := Run(START, str);
    LiveIsValid(str);
    var tail := StringTail(isKey, Closing(q.stack));
    AcceptsAfter(str, UnicodePadding(str) + tail);
    RunAppend(q, UnicodePadding(str), tail);
    PaddingWorks(str);
    TailCloses(q.stack, isKey);
    RunDead(tail);
  }

  /** The branch for each place inside a string. */
  function PartBranch(part: StringPart): Branch {
    match part
    case Plain => InText
    case Escape => AfterBackslash
    case _ => InUnicode
  }

  /** The repair of the three string branches, common to all ladders. */
  function StringRepair(str: string, isKey: bool, part: StringPart, closing: string, marker: string): Repair {
    Spliced(PartBranch(part), str, StringTail(isKey, closing), marker)
  }

  /** What each place inside a string has put in front of the marker. */
  function PartLead(part: StringPart, str: string): string {
    match part
    case Plain => ""
    case Escape => "\\"
    case _ => UnicodePadding(str)
  }

  lemma StringSplice(part: StringPart, str: string, tail: string, marker: string)
    ensures Spliced(PartBranch(part), str, tail, marker) == Splice(|str|, PartLead(part, str) + marker, tail)
  {
    assert "" + marker == marker;
  }

  lemma StringRepairHeals(str: string, isKey: bool, marker: string)
    requires var q := Run(START, str); Quoting(q) && q.mode.isKey == isKey
    requires !Misread(str) && PlainMarker(marker)
    ensures var q := Run(START, str); Good(str, StringRepair(str, isKey, q.mode.part, Closing(q.stack), marker), marker)
  {
    var q := Run(START, str);
    LiveIsValid(str);
    StringSplice(q.mode.part, str, StringTail(isKey, Closing(q.stack)), marker);
    match q.mode.part {
      case Plain => SpliceHeals(str, "", q.stack, isKey, marker);
      case Escape =>
        RunCons(q, '\\', "");
        assert ['\\'] + "" == "\\";
        SpliceHeals(str, "\\", q.stack, isKey, marker);
      case _ =>
        PaddingWorks(str);
        SpliceHeals(str, UnicodePadding(str), q.stack, isKey, marker);
    }
  }

  lemma InStringRejects(str: string, w: string)
    requires Quoting(Run(START, str)) && NoQuote(w)
    ensures !CanParse(str, w)
  {
    AcceptsAfter(str, w);
    OpenStringRejects(Run(START, str), w);
  }

  /** The three branches for strings, which every ladder tries in this order. */
  function StringBranch(text: bool, backslash: bool, unicode: bool): Branch {
    if text then InText else if backslash then AfterBackslash else if unicode then InUnicode else Cut
  }

  /** Which of them is taken inside a string. */
  lemma InStringBranch(str: string, isKey: bool, tail: string)
    requires var q := Run(START, str); Quoting(q) && q.mode.isKey == isKey && tail == StringTail(isKey, Closing(q.stack))
    ensures StringBranch(CanParse(str, tail), EndsInBackslash(str) && CanParse(str, "\\" + tail),
                         CanParse(str, UnicodePadding(str) + tail)) ==
              if Misread(str) then Cut else PartBranch(Run(START, str).mode.part)
  {
    var q := Run(START, str);
    PlainQuoteBranch(str, isKey);
    if !q.mode.part.Plain? {
      BackslashBranch(str, isKey);
      if !q.mode.part.Escape? {
        PaddingBranch(str, isKey);
      }
    }
  }

  lemma KeyStringBranch(str: string, closing: string, tail: string)
    requires !CanParse(str, "1" + closing) && !CanParse(str, ": 1" + closing) && !CanParse(str, closing)
    requires tail == "\"" + closing
    ensures KeyBranch(str, closing) ==
              StringBranch(CanParse(str, tail), EndsInBackslash(str) && CanParse(str, "\\" + tail),
                           CanParse(str, UnicodePadding(str) + tail))
  {
  }

  lemma ArrayStringBranch(str: string, closing: string, tail: string)
    requires !CanParse(str, "1" + closing) && !CanParse(str, ", 1" + closing) && tail == "\"" + closing
    ensures ArrayBranch(str, closing) ==
              StringBranch(CanParse(str, tail), EndsInBackslash(str) && CanParse(str, "\\" + tail),
                           CanParse(str, UnicodePadding(str) + tail))
  {
  }

  lemma ObjectStringBranch(str: string, closing: string, tail: string)
    requires !CanParse(str, closing) && tail == "\": 1" + closing
    requires !(LastIs(str, ',') && CanParse(str, "\"" + tail)) && !CanParse(str, ",\"" + tail)
    ensures ObjectBranch(str, closing) ==
              StringBranch(CanParse(str, tail), EndsInBackslash(str) && CanParse(str, "\\" + tail),
                           CanParse(str, UnicodePadding(str) + tail))
  {
  }

  lemma KeyBranchInString(str: string)
    requires var q := Run(START, str); Quoting(q) && !q.mode.isKey
    ensures var q := Run(START, str);
            KeyBranch(str, Closing(q.stack)) == if Misread(str) then Cut else PartBranch(q.mode.part)
  {
    var closing := Closing(Run(START, str).stack);
    ClosingOnlyClosers(Run(START, str).stack);
    ClosersHaveNoQuote(closing);
    InStringRejects(str, "1" + closing);
    InStringRejects(str, ": 1" + closing);
    InStringRejects(str, closing);
    KeyStringBranch(str, closing, StringTail(false, closing));
    InStringBranch(str, false, StringTail(false, closing));
  }

  lemma KeyLadderInString(str: string, marker: string)
    requires var q := Run(START, str); Quoting(q) && !q.mode.isKey
    ensures var q := Run(START, str);
            var closing := Closing(q.stack);
            KeyLadder(str, closing, marker) ==
              if Misread(str) then CutBack(str, ':', ':', closing, marker)
              else StringRepair(str, false, q.mode.part, closing, marker)
  {
    var q := Run(START, str);
    KeyBranchInString(str);
  }

  lemma ArrayBranchInString(str: string)
    requires var q := Run(START, str); Quoting(q) && !q.mode.isKey
    ensures var q := Run(START, str);
            ArrayBranch(str, Closing(q.stack)) == if Misread(str) then Cut else PartBranch(q.mode.part)
  {
    var closing := Closing(Run(START, str).stack);
    ClosingOnlyClosers(Run(START, str).stack);
    ClosersHaveNoQuote(closing);
    InStringRejects(str, "1" + closing);
    InStringRejects(str, ", 1" + closing);
    ArrayStringBranch(str, closing, StringTail(false, closing));
    InStringBranch(str, false, StringTail(false, closing));
  }

  lemma ArrayLadderInString(str: string, marker: string)
    requires var q := Run(START, str); Quoting(q) && !q.mode.isKey
    ensures var q := Run(START, str);
            var closing := Closing(q.stack);
            ArrayLadder(str, closing, marker) ==
              if Misread(str) then CutBack(str, '[', ',', closing, marker)
              else StringRepair(str, false, q.mode.part, closing, marker)
  {
    var q := Run(START, str);
    ArrayBranchInString(str);
  }

  /** A key string cannot be followed by another quote, except where the first one is escaped. */
  lemma KeyStringRejectsNewKey(str: string)
    requires var q := Run(START, str); Quoting(q) && q.mode.isKey
    ensures var tail := StringTail(true, Closing(Run(START, str).stack));
            !(LastIs(str, ',') && CanParse(str, "\"" + tail)) && !CanParse(str, ",\"" + tail)
  {
    var q := Run(START, str);
    ClosingOnlyClosers(q.stack);
    var rest := TailAfterQuote(true, Closing(q.stack));
    var tail := StringTail(true, Closing(q.stack));
    AcceptsAfter(str, "\"" + tail);
    AcceptsAfter(str, ",\"" + tail);
    assert ",\"" + tail == [','] + (['"'] + tail);
    CommaQuoteRejects(q, tail);
    if !q.mode.part.Escape? {
      TwoQuotesReject(q, tail);
    } else {
      var before, s, c := LastStep(str);
      BackslashStep(s, c);
    }
  }

  /** Behind a key that has just been closed no quote can follow. */
  lemma QuoteAfterKeyRejects(q: State, tail: string)
    requires Quoting(q) && q.mode.isKey && q.mode.part.Plain? && tail != "" && tail[0] == '"'
    ensures !Accepting(Run(q, ['"'] + tail))
  {
    RunCons(q, '"', tail);
    FirstDead(Live(q.stack + [Key], ExpectColon), tail);
  }

  lemma TwoQuotesReject(q: State, tail: string)
    requires Quoting(q) && q.mode.isKey && !q.mode.part.Escape? && tail != "" && tail[0] == '"'
    ensures !Accepting(Run(q, ['"'] + tail))
  {
    if q.mode.part.Plain? {
      QuoteAfterKeyRejects(q, tail);
    } else {
      RunCons(q, '"', tail);
      RunDead(tail);
    }
  }

  lemma CommaQuoteRejects(q: State, tail: string)
    requires Quoting(q) && q.mode.isKey && tail != "" && tail[0] == '"'
    ensures !Accepting(Run(q, [','] + (['"'] + tail)))
  {
    RunCons(q, ',', ['"'] + tail);
    if q.mode.part.Plain? {
      QuoteAfterKeyRejects(q, tail);
    } else {
      RunDead(['"'] + tail);
    }
  }

  lemma ObjectBranchInString(str: string)
    requires var q := Run(START, str); Quoting(q) && q.mode.isKey
    ensures var q := Run(START, str);
            ObjectBranch(str, Closing(q.stack)) == if Misread(str) then Cut else PartBranch(q.mode.part)
  {
    var closing := Closing(Run(START, str).stack);
    ClosingOnlyClosers(Run(START, str).stack);
    ClosersHaveNoQuote(closing);
    InStringRejects(str, closing);
    KeyStringRejectsNewKey(str);
    ObjectStringBranch(str, closing, StringTail(true, closing));
    InStringBranch(str, true, StringTail(true, closing));
  }

  lemma ObjectLadderInString(str: string, marker: string)
    requires var q := Run(START, str); Quoting(q) && q.mode.isKey
    ensures var q := Run(START, str);
            var closing := Closing(q.stack);
            ObjectLadder(str, closing, marker) ==
              if Misread(str) then CutBack(str, ':', ':', closing, marker)
              else StringRepair(str, true, q.mode.part, closing, marker)
  {
    var q := Run(START, str);
    ObjectBranchInString(str);
  }

  // ----- texts that stop outside strings -----

  predicate PaddingChar(c: char) { c == 'u' || c == 'd' || c == 'c' || c == '0' || c == '\\' }

  lemma PaddingChars(str: string)
    ensures forall c :: c in UnicodePadding(str) ==> PaddingChar(c)
  {
    PaddingLiterals();
    ZerosArePadding(6 - EscapeLength(str));
    assert OnlyPadding(UnicodePadding(str));
  }

  ghost predicate OnlyPadding(w: string) { forall c :: c in w ==> PaddingChar(c) }

  lemma PaddingLiterals()
    ensures OnlyPadding("udc00") && OnlyPadding("dc00") && OnlyPadding("c00") && OnlyPadding("\\udc00")
  {
  }

  lemma ZerosArePadding(n: nat)
    ensures OnlyPadding(Zeros(n)) && OnlyPadding(Zeros(n) + "\\udc00")
  {
    PaddingLiterals();
  }

  predicate Settled(s: State) { InScalar(s) || (s.Live? && s.mode.AfterValue?) }

  lemma PaddingStep(s: State, c: char)
    requires Settled(s) && Valid(s) && PaddingChar(c)
    ensures Step(s, c).Dead? || InScalar(Step(s, c))
  {
  }

  lemma SettledQuoteDies(s: State)
    requires Settled(s) && Valid(s)
    ensures Step(s, '"').Dead? && Step(s, '\\').Dead?
  {
    if s.mode.InLiteral? {
      LiteralStepDies(s, '"');
      LiteralStepDies(s, '\\');
    }
  }

  /** After a value or inside a number or literal, no padding leads into a string. */
  lemma {:induction false} PaddingRejects(s: State, pad: string, tail: string)
    requires Settled(s) && Valid(s) && (forall c :: c in pad ==> PaddingChar(c))
    requires tail != "" && tail[0] == '"'
    ensures !Accepting(Run(s, pad + tail))
    decreases pad
  {
    SettledQuoteDies(s);
    if pad == "" {
      assert pad + tail == tail;
      FirstDead(s, tail);
    } else {
      var rest := pad[1..];
      assert pad + tail == [pad[0]] + (rest + tail);
      assert pad[0] in pad && forall c :: c in rest ==> c in pad;
      RunCons(s, pad[0], rest + tail);
      PaddingStep(s, pad[0]);
      StepKeepsValid(s, pad[0]);
      if Step(s, pad[0]).Dead? {
        RunDead(rest + tail);
      } else {
        PaddingRejects(Step(s, pad[0]), rest, tail);
      }
    }
  }

  /** The three string branches are closed outside strings. */
  lemma StringBranchesFail(str: string, tail: string)
    requires Settled(Run(START, str)) && tail != "" && tail[0] == '"'
    ensures !CanParse(str, tail) && !CanParse(str, "\\" + tail) && !CanParse(str, UnicodePadding(str) + tail)
    ensures !CanParse(str, "\"" + tail)
  {
    var q := Run(START, str);
    LiveIsValid(str);
    SettledQuoteDies(q);
    PaddingChars(str);
    AcceptsAfter(str, tail);
    AcceptsAfter(str, "\\" + tail);
    AcceptsAfter(str, "\"" + tail);
    AcceptsAfter(str, UnicodePadding(str) + tail);
    FirstDead(q, tail);
    FirstDead(q, "\\" + tail);
    FirstDead(q, "\"" + tail);
    PaddingRejects(q, UnicodePadding(str), tail);
  }

  lemma CutIsGood(str: string, a: char, b: char, stack: seq<Frame>, marker: string)
    requires Run(START, str).Live? && CutsTo(str, a, b, stack) && PlainMarker(marker)
    requires (a == ':' && b == ':') || (a == '[' && b == ',')
    ensures Good(str, CutBack(str, a, b, Closing(stack), marker), marker)
    ensures CutLands(str, a, b, Closing(stack))
  {
    ClosingOnlyClosers(stack);
    CutBackExact(str, a, b, Closing(stack), marker);
  }

  /** A first character that the current mode does not allow closes a branch. */
  lemma BranchFails(str: string, w: string)
    requires w != "" && Step(Run(START, str), w[0]).Dead?
    ensures !CanParse(str, w)
  {
    AcceptsAfter(str, w);
    FirstDead(Run(START, str), w);
  }

  /** Nothing that a string would need can follow. */
  ghost predicate NoString(str: string, tail: string) {
    !CanParse(str, tail) && !CanParse(str, "\\" + tail) && !CanParse(str, UnicodePadding(str) + tail)
  }

  lemma KeyCuts(str: string, closing: string)
    requires !LastIs(str, ':') && !LastIs(str, '{') && !CanParse(str, ": 1" + closing) && NoString(str, "\"" + closing)
    ensures KeyBranch(str, closing) == Cut
  {
  }

  lemma ArrayWithoutString(str: string, closing: string)
    requires (!LastIs(str, ',') && !LastIs(str, '[')) || !CanParse(str, "1" + closing)
    requires NoString(str, "\"" + closing)
    ensures ArrayBranch(str, closing) == if !MaybeNumber(str) && CanParse(str, ", 1" + closing) then AfterItem else Cut
  {
  }

  lemma ObjectWithoutString(str: string, closing: string, tail: string)
    requires !LastIs(str, '{') && !CanParse(str, "\"" + tail) && tail == "\": 1" + closing && NoString(str, tail)
    ensures ObjectBranch(str, closing) == if !MaybeNumber(str) && CanParse(str, ",\"" + tail) then AfterItem else Cut
  {
  }

  lemma KeyScalar(str: string, marker: string)
    requires var q := Run(START, str);
             InScalar(q) && q.stack != [] && Top(q.stack) == Key && AtEnd(q) == q
    requires PlainMarker(marker)
    ensures Good(str, KeyLadder(str, Closing(Run(START, str).stack), marker), marker)
  {
    var q := Run(START, str);
    var closing := Closing(q.stack);
    LiveIsValid(str);
    ScalarEnding(str);
    if q.mode.InLiteral? {
      LiteralStepDies(q, ':');
    }
    BranchFails(str, ": 1" + closing);
    StringBranchesFail(str, "\"" + closing);
    KeyCuts(str, closing);
    CutKey(str);
    CutIsGood(str, ':', ':', q.stack, marker);
  }

  lemma ArrayScalar(str: string, marker: string)
    requires var q := Run(START, str); InScalar(q) && q.stack != [] && Top(q.stack) == Array
    requires PlainMarker(marker)
    ensures Good(str, ArrayLadder(str, Closing(Run(START, str).stack), marker), marker)
  {
    var q := Run(START, str);
    var closing := Closing(q.stack);
    LiveIsValid(str);
    ScalarEnding(str);
    StringBranchesFail(str, "\"" + closing);
    if q.mode.InLiteral? {
      LiteralStepDies(q, ',');
    }
    if !MaybeNumber(str) {
      BranchFails(str, ", 1" + closing);
    }
    ArrayWithoutString(str, closing);
    CutArray(str);
    CutIsGood(str, '[', ',', q.stack, marker);
  }

  lemma ObjectNumber(str: string, marker: string)
    requires var q := Run(START, str);
             InScalar(q) && q.stack != [] && Top(q.stack) == Key && AtEnd(q) != q
    requires PlainMarker(marker)
    ensures Good(str, ObjectLadder(str, Closing(Run(START, str).stack), marker), marker)
  {
    var q := Run(START, str);
    var closing := Closing(q.stack);
    ScalarEnding(str);
    StringBranchesFail(str, "\": 1" + closing);
    ObjectWithoutString(str, closing, "\": 1" + closing);
    CutKey(str);
    CutIsGood(str, ':', ':', q.stack, marker);
  }

  // ----- texts that stop between tokens -----

  lemma KeyColon(str: string, marker: string)
    requires var q := Run(START, str); q.Live? && q.mode.ExpectColon?
    requires PlainMarker(marker)
    ensures Good(str, KeyLadder(str, Closing(Run(START, str).stack), marker), marker)
  {
    var q := Run(START, str);
    var closing := Closing(q.stack);
    LiveIsValid(str);
    BranchFails(str, "1" + closing);
    AcceptsAfter(str, ": 1" + closing);
    ColonOneCloses(q.stack);
    RunCons(q, ':', ['"']);
    RunCons(Live(q.stack, ExpectValue), '"', "");
    assert ['"'] + "" == ['"'] && [':'] + ['"'] == ":\"";
    SpliceHeals(str, ":\"", q.stack, false, marker);
  }

  lemma KeyValue(str: string, marker: string)
    requires var q := Run(START, str); q.Live? && q.mode.ExpectValue? && q.stack != [] && Top(q.stack) == Key
    requires PlainMarker(marker)
    ensures Good(str, KeyLadder(str, Closing(Run(START, str).stack), marker), marker)
  {
    var q := Run(START, str);
    LiveIsValid(str);
    LastNonSpaceIsOpener(str);
    AcceptsAfter(str, "1" + Closing(q.stack));
    OneCloses(q.stack);
    RunCons(q, '"', "");
    assert ['"'] + "" == "\"";
    SpliceHeals(str, "\"", q.stack, false, marker);
  }

  lemma ArrayValue(str: string, marker: string)
    requires var q := Run(START, str);
             q.Live? && (q.mode.ExpectValue? || q.mode.ArrayStart?) && q.stack != [] && Top(q.stack) == Array
    requires PlainMarker(marker)
    ensures Good(str, ArrayLadder(str, Closing(Run(START, str).stack), marker), marker)
  {
    var q := Run(START, str);
    LiveIsValid(str);
    LastNonSpaceIsOpener(str);
    AcceptsAfter(str, "1" + Closing(q.stack));
    OneCloses(q.stack);
    RunCons(q, '"', "");
    assert ['"'] + "" == "\"";
    SpliceHeals(str, "\"", q.stack, false, marker);
  }

  lemma ObjectOpen(str: string, marker: string)
    requires var q := Run(START, str); q.Live? && (q.mode.ObjectStart? || q.mode.ExpectKey?)
    requires PlainMarker(marker)
    ensures Good(str, ObjectLadder(str, Closing(Run(START, str).stack), marker), marker)
  {
    var q := Run(START, str);
    var closing := Closing(q.stack);
    LiveIsValid(str);
    LastNonSpaceIsOpener(str);
    if q.mode.ObjectStart? {
      AcceptsAfter(str, closing);
      EmptyObjectCloses(q.stack);
    } else {
      var tail := "\": 1" + closing;
      AcceptsAfter(str, "\"" + tail);
      RunCons(q, '"', tail);
      KeyQuoteCloses(q.stack);
    }
    RunCons(q, '"', "");
    assert ['"'] + "" == "\"";
    SpliceHeals(str, "\"", q.stack, true, marker);
  }

  lemma EmptyObjectCloses(stack: seq<Frame>)
    requires KeysInObjects(stack) && stack != [] && Top(stack) == Object
    ensures Accepting(Run(Live(stack, ObjectStart), Closing(stack)))
  {
    ClosingAccepts(stack);
    EmptyObjectEnds(stack);
    ObjectCloser(stack);
    SameFirstStep(Live(stack, ObjectStart), Live(stack, AfterValue), '}', Closing(stack[..|stack| - 1]));
  }

  lemma EmptyObjectEnds(stack: seq<Frame>)
    requires stack != [] && Top(stack) == Object
    ensures Step(Live(stack, ObjectStart), '}') == Step(Live(stack, AfterValue), '}')
  {
  }

  lemma ObjectCloser(stack: seq<Frame>)
    requires stack != [] && Top(stack) == Object
    ensures Closing(stack) == ['}'] + Closing(stack[..|stack| - 1])
  {
    assert Closer(Object) == ['}'];
  }

  lemma SameFirstStep(s: State, t: State, c: char, rest: string)
    requires Step(s, c) == Step(t, c)
    ensures Run(s, [c] + rest) == Run(t, [c] + rest)
  {
    RunCons(s, c, rest);
    RunCons(t, c, rest);
  }

  // ----- texts that stop after a value -----

  lemma {:induction false} AfterValueLast(str: string)
    requires var q := Run(START, str); q.Live? && q.mode.AfterValue?
    ensures !LastIs(str, '{')
  {
    var before, s, c := LastStep(str);
    if IsWhitespace(c) {
      if InScalar(s) {
        ScalarEnding(before);
      } else {
        AfterValueLast(before);
      }
    }
  }

  lemma FinishStep(s: State, c: char)
    requires s.Live? && Valid(s) && Step(s, c).Live? && Step(s, c).mode.AfterValue?
    requires IsDigit(c) || c == '.' || c == 'e' || c == 'E' || c == '-'
    ensures s.mode.InLiteral? && Step(s, c).stack == CloseValue(s.stack) && ScalarChar(c)
  {
  }

  /** A finished value that stops like a number is `true` or `false`, and cutting back replaces it. */
  lemma LiteralCut(str: string) returns (stack: seq<Frame>)
    requires var q := Run(START, str); q.Live? && q.mode.AfterValue? && q.stack != []
    requires MaybeNumber(str)
    ensures var q := Run(START, str);
            Closing(stack) == Closing(q.stack) &&
            if Top(q.stack) == Array then CutsTo(str, '[', ',', stack) else CutsTo(str, ':', ':', stack)
  {
    var q := Run(START, str);
    LiveIsValid(str);
    var before, s, c := LastStep(str);
    FinishStep(s, c);
    stack := s.stack;
    ClosingIgnoresKey(stack);
    if Top(q.stack) == Array {
      CutArray(before);
      CutExtends(before, c, '[', ',', stack);
    } else {
      CutKey(before);
      CutExtends(before, c, ':', ':', stack);
    }
  }

  lemma CommaOneSplits(closing: string)
    ensures ", 1" + closing == [','] + ([' '] + ("1" + closing))
  {
  }

  lemma CommaOneCloses(stack: seq<Frame>)
    requires KeysInObjects(stack) && stack != [] && Top(stack) == Array
    ensures Accepting(Run(Live(stack, AfterValue), ", 1" + Closing(stack)))
  {
    var w := "1" + Closing(stack);
    CommaOneSplits(Closing(stack));
    OneCloses(stack);
    RunCons(Live(stack, ExpectValue), ' ', w);
    RunCons(Live(stack, AfterValue), ',', [' '] + w);
  }

  lemma ArrayAfter(str: string, marker: string)
    requires var q := Run(START, str); q.Live? && q.mode.AfterValue? && q.stack != [] && Top(q.stack) == Array
    requires PlainMarker(marker)
    ensures Good(str, ArrayLadder(str, Closing(Run(START, str).stack), marker), marker)
  {
    var q := Run(START, str);
    var closing := Closing(q.stack);
    LiveIsValid(str);
    BranchFails(str, "1" + closing);
    StringBranchesFail(str, "\"" + closing);
    ArrayWithoutString(str, closing);
    if MaybeNumber(str) {
      var stack := LiteralCut(str);
      CutIsGood(str, '[', ',', stack, marker);
    } else {
      AcceptsAfter(str, ", 1" + closing);
      CommaOneCloses(q.stack);
      ItemIsGood(str, false, marker);
    }
  }

  /** A comma and a new string after a value, in an array or as a key. */
  lemma ItemIsGood(str: string, isKey: bool, marker: string)
    requires var q := Run(START, str);
             && q.Live? && Valid(q) && q.mode.AfterValue? && q.stack != []
             && Top(q.stack) == (if isKey then Object else Array)
    requires PlainMarker(marker)
    ensures Good(str, Spliced(AfterItem, str, StringTail(isKey, Closing(Run(START, str).stack)), marker), marker)
  {
    var stack := Run(START, str).stack;
    CommaQuoteOpens(Run(START, str));
    SpliceHeals(str, ",\"", stack, isKey, marker);
    ItemSplice(str, StringTail(isKey, Closing(stack)), marker);
  }

  lemma ItemSplice(str: string, tail: string, marker: string)
    ensures Spliced(AfterItem, str, tail, marker) == Splice(|str|, ",\"" + marker, tail)
  {
  }

  lemma CommaQuoteOpens(q: State)
    requires q.Live? && q.mode.AfterValue? && q.stack != [] && Top(q.stack) != Key
    ensures Run(q, ",\"") == Live(q.stack, InString(Top(q.stack) == Object, Plain))
  {
    var next := Step(q, ',');
    RunCons(next, '"', "");
    RunCons(q, ',', ['"']);
    assert ['"'] + "" == ['"'] && [','] + ['"'] == ",\"";
  }

  lemma ObjectAfter(str: string, marker: string)
    requires var q := Run(START, str); q.Live? && q.mode.AfterValue? && q.stack != [] && Top(q.stack) == Object
    requires PlainMarker(marker)
    ensures Good(str, ObjectLadder(str, Closing(Run(START, str).stack), marker), marker)
  {
    var q := Run(START, str);
    var closing := Closing(q.stack);
    var tail := "\": 1" + closing;
    LiveIsValid(str);
    AfterValueLast(str);
    StringBranchesFail(str, tail);
    ObjectWithoutString(str, closing, tail);
    if MaybeNumber(str) {
      var stack := LiteralCut(str);
      CutIsGood(str, ':', ':', stack, marker);
    } else {
      CommaQuoteOpens(q);
      AcceptsAfter(str, ",\"" + tail);
      RunAppend(q, ",\"", tail);
      KeyQuoteCloses(q.stack);
      ItemIsGood(str, true, marker);
    }
  }

  function CutChars(f: Frame): (char, char) {
    if f == Array then ('[', ',') else (':', ':')
  }

  ghost predicate Landing(str: string, stack: seq<Frame>)
    requires stack != []
  {
    CutLands(str, CutChars(Top(stack)).0, CutChars(Top(stack)).1, Closing(stack))
  }

  /** Inside a string that is not misread every ladder makes the repair of the string. */
  lemma InStringRepair(str: string, marker: string, q: State)
    requires q == Run(START, str) && Quoting(q) && q.stack != [] && !Misread(str)
    ensures Ladder(str, q.stack, marker) == StringRepair(str, q.mode.isKey, q.mode.part, Closing(q.stack), marker)
  {
    LiveIsValid(str);
    if q.mode.isKey {
      ObjectLadderInString(str, marker);
    } else if Top(q.stack) == Key {
      KeyLadderInString(str, marker);
    } else {
      ArrayLadderInString(str, marker);
    }
  }

  lemma InStringGood(str: string, marker: string)
    requires var q := Run(START, str); Quoting(q) && q.stack != []
    requires PlainMarker(marker) && !Misread(str)
    ensures Good(str, Ladder(str, Run(START, str).stack, marker), marker)
  {
    var q := Run(START, str);
    StringRepairHeals(str, q.mode.isKey, marker);
    InStringRepair(str, marker, q);
  }

  lemma InStringMisread(str: string, marker: string)
    requires var q := Run(START, str); Quoting(q) && q.stack != []
    requires PlainMarker(marker) && Misread(str)
    ensures var stack := Run(START, str).stack; Heals(str, Ladder(str, stack, marker)) <==> Landing(str, stack)
  {
    var q := Run(START, str);
    LiveIsValid(str);
    ClosingOnlyClosers(q.stack);
    CutBackExact(str, CutChars(Top(q.stack)).0, CutChars(Top(q.stack)).1, Closing(q.stack), marker);
    if q.mode.isKey {
      ObjectLadderInString(str, marker);
    } else if Top(q.stack) == Key {
      KeyLadderInString(str, marker);
    } else {
      ArrayLadderInString(str, marker);
    }
  }

  lemma InStringLadder(str: string, marker: string)
    requires var q := Run(START, str); Quoting(q) && q.stack != []
    requires PlainMarker(marker)
    ensures var q := Run(START, str);
            var r := Ladder(str, q.stack, marker);
            && (!Misread(str) ==> Good(str, r, marker))
            && (Misread(str) ==> (Heals(str, r) <==> Landing(str, q.stack)))
  {
    if Misread(str) {
      InStringMisread(str, marker);
    } else {
      InStringGood(str, marker);
    }
  }

  lemma OutsideLadder(str: string, marker: string)
    requires var q := Run(START, str); q.Live? && !Quoting(q) && AtEnd(q).stack != []
    requires PlainMarker(marker)
    ensures Good(str, Ladder(str, AtEnd(Run(START, str)).stack, marker), marker)
  {
    var q := Run(START, str);
    LiveIsValid(str);
    CloseValueFits(q.stack);
    ClosingIgnoresKey(q.stack);
    match q.mode {
      case ExpectColon => KeyColon(str, marker);
      case ExpectValue => if Top(q.stack) == Key { KeyValue(str, marker); } else { ArrayValue(str, marker); }
      case ArrayStart => ArrayValue(str, marker);
      case ObjectStart => ObjectOpen(str, marker);
      case ExpectKey => ObjectOpen(str, marker);
      case AfterValue => if Top(q.stack) == Array { ArrayAfter(str, marker); } else { ObjectAfter(str, marker); }
      case InLiteral(_) => if Top(q.stack) == Key { KeyScalar(str, marker); } else { ArrayScalar(str, marker); }
      case InNumber(_) =>
        if Top(q.stack) == Array { ArrayScalar(str, marker); }
        else if AtEnd(q) == q { KeyScalar(str, marker); }
        else { ObjectNumber(str, marker); }
    }
  }

  /**
    Healing of a truncated text with an open container succeeds exactly when the text is not misread
    or the cut-back happens to land; when it is not misread, nothing but an unfinished scalar is lost.
    */
  lemma HealingExact(str: string, marker: string)
    requires var q := Run(START, str); q.Live? && AtEnd(q).stack != []
    requires PlainMarker(marker)
    ensures var stack := AtEnd(Run(START, str)).stack;
            var r := Ladder(str, stack, marker);
            && (Heals(str, r) <==> !Misread(str) || Landing(str, stack))
            && (!Misread(str) ==> Good(str, r, marker))
  {
    if Quoting(Run(START, str)) {
      InStringLadder(str, marker);
    } else {
      OutsideLadder(str, marker);
    }
  }

  /** A live text is read to its end. */
  lemma LiveIsReadable(str: string)
    requires Run(START, str).Live?
    ensures ErrorPosition(str) == |str| && LocatorStack(str) == AtEnd(Run(START, str)).stack
    ensures str[..|str|] == str
  {
    assert str[..|str|] == str;
    ReadableIs(START, str, |str|);
  }

  lemma {:induction false} SomethingIsThere(str: string)
    requires Run(START, str).Live? && AtEnd(Run(START, str)).stack != []
    ensures LastNonSpace(str).Some?
  {
    var before, s, c := LastStep(str);
    if IsWhitespace(c) {
      SomethingIsThere(before);
    }
  }

  /** Cutting the parsed text in front of the dump marker leaves a prefix of the input. */
  ghost predicate CutsToPrefix(o: Outcome, str: string)
    requires o.Parsed?
  {
    exists keep: nat :: keep <= |str| && str[..keep] + o.dump <= o.text
  }

  predicate EndsIn(dump: string, marker: string) {
    |marker| <= |dump| && dump[|dump| - |marker|..] == marker
  }

  lemma LeadEndsIn(lead: string, marker: string)
    ensures EndsIn(lead + marker, marker) && EndsIn(marker, marker)
  {
  }

  lemma DumpEndsIn(b: Branch, padding: string, marker: string)
    ensures EndsIn(DumpOf(b, padding, marker), marker)
  {
    LeadEndsIn("\"", marker);
    LeadEndsIn(":\"", marker);
    LeadEndsIn(",\"", marker);
    LeadEndsIn("\\", marker);
    LeadEndsIn(padding, marker);
  }

  lemma CutBackEndsIn(str: string, a: char, b: char, closing: string, marker: string)
    ensures var r := CutBack(str, a, b, closing, marker); r.Splice? ==> EndsIn(r.dump, marker)
  {
    LeadEndsIn("\"", marker);
  }

  lemma LaddersEndIn(str: string, closing: string, marker: string)
    ensures var r := KeyLadder(str, closing, marker); r.Splice? ==> EndsIn(r.dump, marker)
    ensures var r := ArrayLadder(str, closing, marker); r.Splice? ==> EndsIn(r.dump, marker)
    ensures var r := ObjectLadder(str, closing, marker); r.Splice? ==> EndsIn(r.dump, marker)
  {
    DumpEndsIn(KeyBranch(str, closing), UnicodePadding(str), marker);
    DumpEndsIn(ArrayBranch(str, closing), UnicodePadding(str), marker);
    DumpEndsIn(ObjectBranch(str, closing), UnicodePadding(str), marker);
    CutBackEndsIn(str, ':', ':', closing, marker);
    CutBackEndsIn(str, '[', ',', closing, marker);
  }

  /** Every repair puts the marker last in its dump. */
  lemma LadderEndsIn(str: string, stack: seq<Frame>, marker: string)
    requires stack != []
    ensures var r := Ladder(str, stack, marker); r.Splice? ==> EndsIn(r.dump, marker)
  {
    LaddersEndIn(str, Closing(stack), marker);
  }

  lemma TopLevelEndsIn(str: string, marker: string)
    ensures var r := TopLevelRepair(str, marker); r.Splice? ==> EndsIn(r.dump, marker)
  {
    LeadEndsIn("", marker);
    LeadEndsIn("\\", marker);
  }

  lemma RepairIsFaithful(str: string, r: Repair, marker: string)
    requires (r.Splice? ==> r.keep <= |str| && EndsIn(r.dump, marker)) && Finish(str, r).Parsed?
    ensures var o := Finish(str, r);
            && Accepts(o.text) && o.end == |str| && CutsToPrefix(o, str) && EndsIn(o.dump, marker)
  {
    assert Apply(str, r) == (str[..r.keep] + r.dump) + r.tail;
  }

  /**
    Whatever the input, a call that succeeds has parsed a valid text: the input up to the reported end
    when nothing was healed, and otherwise a text that, cut in front of a dump that ends in the marker,
    is a prefix of the input.
    */
  lemma ParsedIsFaithful(input: string, marker: string)
    ensures var o := ParseOutcome(input, marker);
            o.Parsed? ==>
              && Accepts(o.text) && o.end <= |input|
              && (o.text == input[..o.end] || (marker != "" && EndsIn(o.dump, marker) && CutsToPrefix(o, input[..o.end])))
  {
    var str, stack := input[..ErrorPosition(input)], LocatorStack(input);
    if ParseOutcome(input, marker).Parsed? && !Accepts(input) && !Accepts(str) {
      if stack != [] {
        LadderEndsIn(str, stack, marker);
        RepairIsFaithful(str, Ladder(str, stack, marker), marker);
      } else {
        TopLevelEndsIn(str, marker);
        RepairIsFaithful(str, TopLevelRepair(str, marker), marker);
      }
    }
    assert input[..|input|] == input;
  }

  /** `TruncatedTextHeals` in terms of the recogniser. */
  lemma LiveTextHeals(str: string, marker: string)
    requires Run(START, str).Live? && AtEnd(Run(START, str)).stack != [] && PlainMarker(marker)
    ensures var o := ParseOutcome(str, marker);
            && (o.Parsed? <==> !Misread(str) || Landing(str, AtEnd(Run(START, str)).stack))
            && (!o.Parsed? ==> o.Threw?)
            && (o.Parsed? ==> Accepts(o.text) && CutsToPrefix(o, str) && o.end == |str|)
  {
    LiveIsReadable(str);
    SomethingIsThere(str);
    HealingExact(str, marker);
    var stack := AtEnd(Run(START, str)).stack;
    OpenIsNotAccepted(str);
    HealedOutcome(str, Ladder(str, stack, marker));
  }

  lemma OpenIsNotAccepted(str: string)
    requires Run(START, str).Live? && AtEnd(Run(START, str)).stack != []
    ensures !Accepts(str)
  {
  }

  /** A repair that heals gives a parsed text, and any other makes the call throw. */
  lemma HealedOutcome(str: string, r: Repair)
    requires r.Splice? ==> r.keep <= |str|
    ensures var o := Finish(str, r);
            && (o.Parsed? <==> Heals(str, r))
            && (!o.Parsed? ==> o.Threw?)
            && (o.Parsed? ==> Accepts(o.text) && CutsToPrefix(o, str) && o.end == |str|)
  {
    if r.Splice? {
      assert Apply(str, r) == (str[..r.keep] + r.dump) + r.tail;
    }
  }

  /**
    The law of partial parsing: every prefix of a valid text that leaves a container open is healed
    to a text that parses and that, cut at the dump marker, gives back a prefix of the input;
    it fails exactly for misread texts whose cut-back does not land.
    */
  lemma TruncatedTextHeals(doc: string, n: nat, marker: string)
    requires Accepts(doc) && n <= |doc| && PlainMarker(marker)
    requires AtEnd(Run(START, doc[..n])).Live? && AtEnd(Run(START, doc[..n])).stack != []
    ensures var str := doc[..n];
            var o := ParseOutcome(str, marker);
            && (o.Parsed? <==> !Misread(str) || Landing(str, AtEnd(Run(START, str)).stack))
            && (!o.Parsed? ==> o.Threw?)
            && (o.Parsed? ==> Accepts(o.text) && CutsToPrefix(o, str) && o.end == n)
  {
    PrefixIsLive(doc, n);
    LiveTextHeals(doc[..n], marker);
  }

  /** The text that reads like a high surrogate, and what is in front of it. */
  lemma FakeParts(prelude: string) returns (b: string, fake: string)
    requires EndsLookingHigh(prelude)
    ensures prelude == b + fake && LooksHigh(fake) && 4 <= |fake| <= 6
    ensures AllHex(fake[2..]) && NoQuote(fake)
  {
    var m := EscapeLength(prelude);
    b, fake := prelude[..|prelude| - m], prelude[|prelude| - m..];
    EscapeDigits(prelude, m);
    EscapeHasNoQuote(fake);
  }

  lemma EscapeDigits(str: string, m: nat)
    requires m == EscapeLength(str) && 4 <= m <= |str|
    ensures m <= 6 && AllHex(str[|str| - m..][2..])
  {
    assert str[|str| - m..][2..] == str[|str| - (m - 2)..];
  }

  lemma EscapeHasNoQuote(fake: string)
    requires LooksHigh(fake) && AllHex(fake[2..])
    ensures NoQuote(fake)
  {
    assert fake == [fake[0], fake[1]] + fake[2..];
  }

  /** An escaped backslash at `i` in the string that is still open at the end of the text. */
  ghost predicate OpenPair(str: string, i: nat) {
    && i + 1 < |str| && str[i] == '\\' && str[i + 1] == '\\'
    && Quoting(Run(START, str[..i])) && Run(START, str[..i]).mode.part.Plain?
    && NoQuote(str[i..])
  }

  lemma FakeStartsAfterBackslash(b: string, fake: string)
    requires LooksHigh(fake) && 4 <= |fake| <= 6 && AllHex(fake[2..]) && NoQuote(fake)
    requires Quoting(Run(START, b + fake)) && Run(START, b + fake).mode.part.Plain?
    ensures EndsInBackslash(b)
    ensures var s := Run(START, b[..|b| - 1]); Quoting(s) && s.mode.part.Plain?
  {
    RunAppend(START, b, fake);
    RunDead(fake);
    LiveIsValid(b);
    NoQuoteKeepsQuoting(Run(START, b), fake);
    FakeStartsInEscape(Run(START, b), fake);
    var b', s', c := LastStep(b);
    BackslashStep(s', c);
  }

  lemma OpenPairSplits(b: string, fake: string)
    requires EndsInBackslash(b) && LooksHigh(fake) && NoQuote(fake)
    requires var s := Run(START, b[..|b| - 1]); Quoting(s) && s.mode.part.Plain?
    ensures OpenPair(b + fake, |b| - 1)
  {
    var i := |b| - 1;
    assert (b + fake)[..i] == b[..i];
    assert (b + fake)[i..] == ['\\'] + fake;
  }

  /** The text that only reads like a high surrogate starts with an escaped backslash. */
  lemma FakeFollowsBackslash(prelude: string) returns (i: nat)
    requires EndsLookingHigh(prelude) && Quoting(Run(START, prelude)) && Run(START, prelude).mode.part.Plain?
    ensures OpenPair(prelude, i)
  {
    var b, fake := FakeParts(prelude);
    FakeStartsAfterBackslash(b, fake);
    OpenPairSplits(b, fake);
    i := |b| - 1;
  }

  lemma OpenPairExtends(prelude: string, more: string, i: nat)
    requires OpenPair(prelude, i) && NoQuote(more)
    ensures OpenPair(prelude + more, i)
  {
    assert (prelude + more)[..i] == prelude[..i];
    assert (prelude + more)[i..] == prelude[i..] + more;
  }

  lemma HexHasNoQuote(d: string)
    requires AllHex(d)
    ensures NoQuote("\\u" + d)
  {
  }

  /** A high surrogate in disguise needs an escaped backslash inside the open string. */
  lemma MisreadNeedsBackslashPair(str: string) returns (i: nat)
    requires Misread(str)
    ensures OpenPair(str, i)
  {
    var d, prelude := UnicodeTail(str);
    assert prelude == str[..|str| - |d| - 2];
    i := FakeFollowsBackslash(prelude);
    HexHasNoQuote(d);
    OpenPairExtends(prelude, "\\u" + d, i);
  }

  lemma FakeRun(s: State, d: string)
    requires Quoting(s)
    ensures Run(s, ['\\'] + (['u'] + d)) == Run(Step(Step(s, '\\'), 'u'), d)
  {
    RunCons(s, '\\', ['u'] + d);
    RunCons(Step(s, '\\'), 'u', d);
  }

  lemma HighDigitsAreNoLow(s: State, d: string)
    requires Quoting(s) && IsHighSurrogate(d)
    ensures Run(Within(s, Low("")), d).Dead?
  {
    assert d == [d[0]] + ([d[1]] + d[2..]);
    RunCons(Within(s, Low("")), d[0], [d[1]] + d[2..]);
    RunCons(Step(Within(s, Low("")), d[0]), d[1], d[2..]);
    RunDead(d[2..]);
    RunDead([d[1]] + d[2..]);
  }

  /** Digits that look like a high surrogate and leave the string plain were not read as an escape. */
  lemma FakeStartsInEscape(s: State, fake: string)
    requires Quoting(s) && LooksHigh(fake) && 4 <= |fake| <= 6 && AllHex(fake[2..])
    requires Quoting(Run(s, fake)) && Run(s, fake).mode.part.Plain?
    ensures s.mode.part.Escape?
  {
    var d := fake[2..];
    assert fake == ['\\'] + (['u'] + d);
    FakeRun(s, d);
    if s.mode.part.Plain? {
      HighDigitsRun(s, "", d);
      assert "" + d == d;
    } else if s.mode.part.HighEnd? {
      HighDigitsAreNoLow(s, d);
    } else if !s.mode.part.Escape? {
      EscapeDiesElsewhere(s);
      RunDead(d);
    }
  }

  lemma EscapeDiesElsewhere(s: State)
    requires Quoting(s) && !s.mode.part.Plain? && !s.mode.part.Escape? && !s.mode.part.HighEnd?
    ensures Step(Step(s, '\\'), 'u').Dead?
  {
  }

  /** Reading the digits of a high surrogate. */
  lemma {:induction false} HighDigitsRun(s: State, d: string, e: string)
    requires Quoting(s) && |d| < 4 && |d + e| <= 4 && IsHighSurrogate(d + e) && AllHex(e)
    ensures Run(Within(s, Unicode(d)), e) == Within(s, if |d + e| == 4 then HighEnd else Unicode(d + e))
    decreases e
  {
    if e == "" {
      assert d + e == d;
    } else {
      assert e[0] in e && forall c :: c in e[1..] ==> c in e;
      assert e == [e[0]] + e[1..] && (d + [e[0]]) + e[1..] == d + e;
      RunCons(Within(s, Unicode(d)), e[0], e[1..]);
      if |d| == 3 {
        assert e[1..] == "";
      } else {
        HighDigitsRun(s, d + [e[0]], e[1..]);
      }
    }
  }

  /** Without an escaped backslash in the open string, healing never fails. */
  lemma HealingWithoutBackslashPairs(doc: string, n: nat, marker: string)
    requires Accepts(doc) && n <= |doc| && PlainMarker(marker)
    requires AtEnd(Run(START, doc[..n])).Live? && AtEnd(Run(START, doc[..n])).stack != []
    requires forall i :: !OpenPair(doc[..n], i)
    ensures var o := ParseOutcome(doc[..n], marker);
            o.Parsed? && Accepts(o.text) && CutsToPrefix(o, doc[..n]) && o.end == n
  {
    TruncatedTextHeals(doc, n, marker);
    if Misread(doc[..n]) {
      var i := MisreadNeedsBackslashPair(doc[..n]);
    }
  }

  /** A truncated top-level scalar is healed exactly when it stops between two characters of a string or after a backslash. */
  lemma TopLevelHealing(str: string, marker: string)
    requires Run(START, str).Live? && AtEnd(Run(START, str)).stack == [] && !Accepts(str) && PlainMarker(marker)
    ensures var q := Run(START, str);
            var o := ParseOutcome(str, marker);
            && (o.Parsed? <==> Quoting(q) && (q.mode.part.Plain? || q.mode.part.Escape?))
            && (!o.Parsed? ==> o.NotParsed?)
            && (o.Parsed? ==> Accepts(o.text) && CutsToPrefix(o, str))
  {
    var q := Run(START, str);
    LiveIsReadable(str);
    LiveIsValid(str);
    if Quoting(q) {
      TopLevelInString(str, marker);
      if q.mode.part.Plain? || q.mode.part.Escape? {
        StringRepairHeals(str, false, marker);
      }
    } else {
      TopLevelOutside(str, marker);
    }
    HealedOutcome(str, TopLevelRepair(str, marker));
  }

  lemma TopLevelInString(str: string, marker: string)
    requires var q := Run(START, str); Quoting(q) && q.stack == [] && !q.mode.isKey
    ensures var q := Run(START, str);
            && str != "" && Closing(q.stack) == ""
            && TopLevelRepair(str, marker) ==
                 if q.mode.part.Plain? || q.mode.part.Escape? then StringRepair(str, false, q.mode.part, "", marker) else Unknown
  {
    var q := Run(START, str);
    assert StringTail(false, Closing(q.stack)) == "\"";
    assert "\\\"" == "\\" + "\"";
    PlainQuoteBranch(str, false);
    if !q.mode.part.Plain? {
      BackslashBranch(str, false);
    }
    StringSplice(q.mode.part, str, "\"", marker);
  }

  lemma TopLevelOutside(str: string, marker: string)
    requires var q := Run(START, str); q.Live? && !Quoting(q) && AtEnd(q).stack == []
    ensures TopLevelRepair(str, marker) == Unknown
  {
    var q := Run(START, str);
    LiveIsValid(str);
    AcceptsAfter(str, "\"");
    AcceptsAfter(str, "\\\"");
    assert "\\\"" == "\\" + "\"";
    QuoteOpensOrDies(q);
    RunCons(q, '"', "");
    assert ['"'] + "" == "\"";
    RunCons(q, '\\', "\"");
    BackslashDies(q);
    RunDead("\"");
  }

  lemma BackslashDies(q: State)
    requires q.Live? && Valid(q) && !Quoting(q)
    ensures Step(q, '\\').Dead?
  {
    if q.mode.InLiteral? {
      LiteralStepDies(q, '\\');
    }
  }

  // ----- the failing family is not empty -----

  /** `b`, an escaped backslash, text that looks like a high surrogate, and an open escape. */
  function Fake(): string { ['\\'] + (['u'] + "d800") }

  function Disguised(b: string): string { b + (['\\'] + Fake()) }

  function MisreadText(b: string): string { Disguised(b) + (['\\'] + (['u'] + "")) }

  lemma DisguisedLooksHigh(b: string)
    ensures EndsLookingHigh(Disguised(b)) && EscapeTail(Disguised(b), "d800", b + ['\\'])
    ensures AllHex("d800") && IsHighSurrogate("d800")
  {
    assert Disguised(b) == (b + ['\\']) + ("\\u" + "d800");
    EscapeTailLength(Disguised(b), "d800", b + ['\\']);
  }

  /** Behind a backslash the disguise is plain text. */
  lemma DisguiseRun(q: State)
    requires Quoting(q) && q.mode.part.Plain?
    ensures Run(Within(q, Escape), Fake()) == q
  {
    RunCons(Within(q, Escape), '\\', ['u'] + "d800");
    RunCons(q, 'u', "d800");
    PlainRun(q.stack, q.mode.isKey, "d800");
  }

  lemma MisreadRun(b: string)
    requires Quoting(Run(START, b)) && Run(START, b).mode.part.Plain?
    ensures Run(START, Disguised(b)) == Run(START, b)
    ensures Run(START, MisreadText(b)) == Within(Run(START, b), Unicode(""))
  {
    var q := Run(START, b);
    RunAppend(START, b, ['\\'] + Fake());
    RunCons(q, '\\', Fake());
    DisguiseRun(q);
    RunAppend(START, Disguised(b), ['\\'] + (['u'] + ""));
    FakeRun(q, "");
  }

  lemma MisreadTextIsMisread(b: string)
    requires Quoting(Run(START, b)) && Run(START, b).mode.part.Plain?
    ensures Misread(MisreadText(b))
  {
    MisreadRun(b);
    DisguisedLooksHigh(b);
    var str := MisreadText(b);
    assert str[..|str| - 2] == Disguised(b);
  }

  /** Healing throws on every such text in an object whose open string has a colon right before it. */
  lemma MisreadTextThrows(b: string, marker: string)
    requires var q := Run(START, b); Quoting(q) && q.mode.part.Plain? && q.stack != [] && Top(q.stack) != Array
    requires b != "" && b[|b| - 1] == ':' && PlainMarker(marker)
    ensures Misread(MisreadText(b)) && ParseOutcome(MisreadText(b), marker) == Threw
  {
    var str := MisreadText(b);
    MisreadRun(b);
    MisreadTextIsMisread(b);
    LiveTextHeals(str, marker);
    var suffix := MisreadTextSplits(b);
    CutInsideString(b, suffix, Closing(Run(START, b).stack));
    assert !Landing(str, Run(START, b).stack);
  }

  lemma MisreadTextSplits(b: string) returns (suffix: string)
    ensures MisreadText(b) == b + suffix && ':' !in suffix
  {
    suffix := (['\\'] + Fake()) + (['\\'] + (['u'] + ""));
  }

  /** A cut-back that finds its separator inside the string does not land. */
  lemma CutInsideString(b: string, suffix: string, closing: string)
    requires Quoting(Run(START, b)) && b != "" && b[|b| - 1] == ':' && ':' !in suffix
    ensures !CutLands(b + suffix, ':', ':', closing)
  {
    var str := b + suffix;
    var r := LastIndexOf(str, ':', ':');
    assert str[|b| - 1] == ':';
    assert forall i :: |b| <= i < |str| ==> str[i] == suffix[i - |b|];
    assert str[..|b|] == b;
  }

  /** Such a text exists: an object whose first key starts with a colon. */
  lemma MisreadTextExists()
    ensures Run(START, "{\":") == Live([Object], InString(true, Plain))
    ensures forall marker :: PlainMarker(marker) ==> ParseOutcome(MisreadText("{\":"), marker) == Threw
  {
    RunThree(START, '{', '"', ':');
    forall marker | PlainMarker(marker) ensures ParseOutcome(MisreadText("{\":"), marker) == Threw {
      MisreadTextThrows("{\":", marker);
    }
  }

  // ----- truncated texts are exactly the live ones -----

  /** A continuation that finishes the string `part` and leaves it plain. */
  function CompletePart(part: StringPart): string {
    match part
    case Plain => ""
    case Escape => "\\"
    case Unicode(d) =>
      if |d| < 4 then Zeros(4 - |d|) + (if IsHighSurrogate(d) then "\\udc00" else "") else ""
    case HighEnd => "\\udc00"
    case HighBackslash => "udc00"
    case Low(d) => if d == "" then "dc00" else if |d| == 1 then "c00" else if |d| < 4 then Zeros(4 - |d|) else ""
  }

  lemma CompleteUnicode(q: State, d: string)
    requires Quoting(q) && q == Within(q, Unicode(d)) && StringPartOk(Unicode(d))
    ensures Run(q, CompletePart(Unicode(d))) == Within(q, Plain)
  {
    LowPairRun(q);
    ZerosRun(q, d);
    RunAppend(q, Zeros(4 - |d|), if IsHighSurrogate(d) then "\\udc00" else "");
  }

  lemma CompletePartRuns(q: State)
    requires Quoting(q) && StringPartOk(q.mode.part)
    ensures Run(q, CompletePart(q.mode.part)) == Within(q, Plain)
  {
    if q.mode.part.HighEnd? || q.mode.part.HighBackslash? {
      LowPairRun(q);
    }
    match q.mode.part {
      case Plain =>
      case Escape =>
        RunCons(q, '\\', "");
        assert ['\\'] + "" == "\\";
      case Unicode(d) => CompleteUnicode(q, d);
      case HighEnd =>
      case HighBackslash =>
      case Low(d) =>
        if d == "" { LowRun(q); } else if |d| == 1 { LowAfterD(q, d); } else { LowZerosRun(q, d); }
    }
  }

  lemma {:induction false} LiteralRuns(stack: seq<Frame>, rest: string)
    requires rest != ""
    ensures Run(Live(stack, InLiteral(rest)), rest) == Live(CloseValue(stack), AfterValue)
  {
    if |rest| > 1 {
      LiteralRuns(stack, rest[1..]);
    } else {
      assert rest[1..] == "";
    }
  }

  lemma DigitSettlesNumber(stack: seq<Frame>, n: NumberPart)
    requires KeysInObjects(stack)
    ensures Accepting(Run(Live(stack, InNumber(n)), (if IsCompleteNumber(n) then "" else "0") + Closing(stack)))
  {
    var s := Live(stack, InNumber(n));
    var settled := if IsCompleteNumber(n) then s else Step(s, '0');
    assert settled.mode.InNumber? && IsCompleteNumber(settled.mode.number);
    SettledNumberCloses(stack, settled.mode.number);
    if IsCompleteNumber(n) {
      assert "" + Closing(stack) == Closing(stack);
    } else {
      RunCons(s, '0', Closing(stack));
    }
  }

  lemma SettledNumberCloses(stack: seq<Frame>, n: NumberPart)
    requires KeysInObjects(stack) && IsCompleteNumber(n)
    ensures Accepting(Run(Live(stack, InNumber(n)), Closing(stack)))
  {
    AfterValueCloses(stack);
    ClosingOnlyClosers(stack);
    var w := Closing(stack);
    if w != "" {
      assert w[0] in w;
      assert Step(Live(stack, InNumber(n)), w[0]) == Step(Live(CloseValue(stack), AfterValue), w[0]);
    }
  }

  lemma LiveIsCompletable(q: State) returns (w: string)
    requires q.Live? && Valid(q)
    ensures Accepting(Run(q, w))
  {
    var closing := Closing(q.stack);
    match q.mode {
      case ExpectValue => w := "1" + closing; OneCloses(q.stack);
      case ArrayStart => w := "1" + closing; OneCloses(q.stack);
      case ObjectStart => w := closing; EmptyObjectCloses(q.stack);
      case ExpectKey =>
        w := "\"" + ("\": 1" + closing);
        RunCons(q, '"', "\": 1" + closing);
        KeyQuoteCloses(q.stack);
      case ExpectColon => w := ": 1" + closing; ColonOneCloses(q.stack);
      case AfterValue => w := closing; ClosingAccepts(q.stack);
      case InString(isKey, part) =>
        w := CompletePart(part) + StringTail(isKey, closing);
        CompletePartRuns(q);
        RunAppend(q, CompletePart(part), StringTail(isKey, closing));
        TailCloses(q.stack, isKey);
      case InLiteral(rest) =>
        w := rest + closing;
        LiteralRuns(q.stack, rest);
        RunAppend(q, rest, closing);
        AfterValueCloses(q.stack);
      case InNumber(n) =>
        w := (if IsCompleteNumber(n) then "" else "0") + closing;
        DigitSettlesNumber(q.stack, n);
    }
  }

  /** The recogniser is alive after a text exactly when the text can be completed to a valid one. */
  lemma LiveIffTruncated(str: string)
    ensures Run(START, str).Live? <==> exists doc :: Accepts(doc) && str <= doc
  {
    if Run(START, str).Live? {
      LiveIsValid(str);
      var w := LiveIsCompletable(Run(START, str));
      RunAppend(START, str, w);
      assert Accepts(str + w) && str <= str + w;
    } else {
      forall doc | str <= doc ensures !Accepts(doc) {
        assert doc == str + doc[|str|..];
        RunAppend(START, str, doc[|str|..]);
        RunDead(doc[|str|..]);
      }
    }
  }
}
