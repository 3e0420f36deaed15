/**
  The grammar of JSON texts, sections 2 to 7 of RFC 8259, by derivation trees: the texts that module Json accepts are
  those that have one.  That surrogates come in pairs is a demand of the JSON library, not of the grammar.
  */
module JsonGrammar {
  import opened Basics
  import opened Json

  // ----- numbers (section 6) -----

  predicate AllDigits(s: string) { forall i :: 0 <= i < |s| ==> IsDigit(s[i]) }

  predicate IsInt(s: string) { s == "0" || (s != "" && AllDigits(s) && s[0] != '0') }

  predicate IsSigned(s: string) { IsInt(s) || (s != "" && s[0] == '-' && IsInt(s[1..])) }

  predicate IsE(c: char) { c == 'e' || c == 'E' }

  /** A number with neither fraction nor exponent, or with one or both of them. */
  datatype Number =
    | Whole(whole: string)
    | Fractional(whole: string, fraction: string)

  datatype Exp = NoExp | Exp(e: char, sign: string, digits: string)

  function MantissaText(m: Number): string {
    match m
    case Whole(whole) => whole
    case Fractional(whole, fraction) => whole + "." + fraction
  }

  predicate GoodMantissa(m: Number) {
    IsSigned(m.whole) && (m.Fractional? ==> m.fraction != "" && AllDigits(m.fraction))
  }

  function ExpText(x: Exp): string { if x.NoExp? then "" else [x.e] + x.sign + x.digits }

  predicate IsSign(s: string) { s == "" || s == "+" || s == "-" }

  predicate GoodExp(x: Exp) { x.Exp? ==> IsE(x.e) && IsSign(x.sign) && x.digits != "" && AllDigits(x.digits) }

  // ----- strings (section 7) -----

  predicate IsUnicodeEscape(u: string) { |u| == 6 && u[0] == '\\' && u[1] == 'u' && AllHex(u[2..]) }

  predicate IsHigh(u: string) { IsUnicodeEscape(u) && IsD(u[2]) && IsHighDigit(u[3]) }

  predicate IsLow(u: string) { IsUnicodeEscape(u) && IsD(u[2]) && IsLowDigit(u[3]) }

  /** One character of a string, as it is written. */
  datatype Unit = Unescaped(c: char) | Short(c: char) | Code(u: string) | Pair(high: string, low: string)

  predicate IsShort(c: char) {
    c == '"' || c == '\\' || c == '/' || c == 'b' || c == 'f' || c == 'n' || c == 'r' || c == 't'
  }

  predicate GoodUnit(u: Unit) {
    match u
    case Unescaped(c) => c >= ' ' && c != '"' && c != '\\'
    case Short(c) => IsShort(c)
    case Code(u) => IsUnicodeEscape(u) && !IsHigh(u) && !IsLow(u)
    case Pair(high, low) => IsHigh(high) && IsLow(low)
  }

  function UnitText(u: Unit): string {
    match u
    case Unescaped(c) => [c]
    case Short(c) => ['\\', c]
    case Code(u) => u
    case Pair(high, low) => high + low
  }

  datatype Body = Empty | Snoc(init: Body, last: Unit)

  function BodyText(b: Body): string { if b.Empty? then "" else BodyText(b.init) + UnitText(b.last) }

  predicate GoodBody(b: Body) { b.Snoc? ==> GoodBody(b.init) && GoodUnit(b.last) }

  // ----- values (sections 2 to 5) -----

  datatype Value =
    | Literal(word: string)
    | Num(mantissa: Number, exp: Exp)
    | Str(body: Body)
    | EmptyArray(blank: string)
    | ArrayOf(items: Items)
    | EmptyObject(blank: string)
    | ObjectOf(members: Members)

  /** A value with the blanks around it. */
  datatype Padded = Padded(before: string, value: Value, after: string)

  datatype Items = OneItem(first: Padded) | MoreItems(init: Items, last: Padded)

  datatype Name = Name(before: string, body: Body, after: string)

  datatype Member = Member(name: Name, value: Padded)

  datatype Members = OneMember(first: Member) | MoreMembers(init: Members, last: Member)

  function ValueText(v: Value): string {
    match v
    case Literal(word) => word
    case Num(m, x) => MantissaText(m) + ExpText(x)
    case Str(body) => "\"" + BodyText(body) + "\""
    case EmptyArray(blank) => "[" + blank + "]"
    case ArrayOf(items) => "[" + ItemsText(items) + "]"
    case EmptyObject(blank) => "{" + blank + "}"
    case ObjectOf(members) => "{" + MembersText(members) + "}"
  }

  function PaddedText(p: Padded): string { p.before + ValueText(p.value) + p.after }

  function ItemsText(items: Items): string {
    match items
    case OneItem(first) => PaddedText(first)
    case MoreItems(init, last) => ItemsText(init) + "," + PaddedText(last)
  }

  function NameText(n: Name): string { n.before + ("\"" + BodyText(n.body) + "\"") + n.after }

  function MemberText(m: Member): string { NameText(m.name) + ":" + PaddedText(m.value) }

  function MembersText(members: Members): string {
    match members
    case OneMember(first) => MemberText(first)
    case MoreMembers(init, last) => MembersText(init) + "," + MemberText(last)
  }

  predicate GoodValue(v: Value) {
    match v
    case Literal(word) => IsLiteral(word)
    case Num(m, x) => GoodMantissa(m) && GoodExp(x)
    case Str(body) => GoodBody(body)
    case EmptyArray(blank) => Blank(blank)
    case ArrayOf(items) => GoodItems(items)
    case EmptyObject(blank) => Blank(blank)
    case ObjectOf(members) => GoodMembers(members)
  }

  predicate GoodPadded(p: Padded) { Blank(p.before) && GoodValue(p.value) && Blank(p.after) }

  predicate GoodItems(items: Items) {
    match items
    case OneItem(first) => GoodPadded(first)
    case MoreItems(init, last) => GoodItems(init) && GoodPadded(last)
  }

  predicate GoodName(n: Name) { Blank(n.before) && GoodBody(n.body) && Blank(n.after) }

  predicate GoodMember(m: Member) { GoodName(m.name) && GoodPadded(m.value) }

  predicate GoodMembers(members: Members) {
    match members
    case OneMember(first) => GoodMember(first)
    case MoreMembers(init, last) => GoodMembers(init) && GoodMember(last)
  }

  /** A JSON text is a value with blanks around it. */
  ghost predicate IsJsonText(text: string) { exists p :: GoodPadded(p) && PaddedText(p) == text }

  // ----- every derived text is accepted -----

  /** A value has been read, where a number may still go on. */
  predicate Done(s: State, stack: seq<Frame>) {
    || s == Live(CloseValue(stack), AfterValue)
    || (s.Live? && s.stack == stack && s.mode.InNumber? && IsCompleteNumber(s.mode.number))
  }

  /** What can follow a value. */
  predicate Follows(c: char) { IsWhitespace(c) || c == ',' || c == ']' || c == '}' }

  lemma DoneStep(s: State, stack: seq<Frame>, c: char)
    requires Done(s, stack) && Follows(c)
    ensures Step(s, c) == StepAfter(CloseValue(stack), c)
  {
  }

  lemma {:induction false} BlanksStay(s: State, b: string)
    requires Blank(b) && s.Live? && (s.mode.ExpectValue? || s.mode.ArrayStart? || s.mode.ObjectStart? || s.mode.ExpectKey? ||
                                     s.mode.ExpectColon? || s.mode.AfterValue?)
    ensures Run(s, b) == s
    decreases b
  {
    if b != "" {
      assert forall i :: 0 <= i < |b| - 1 ==> b[1..][i] == b[i + 1];
      BlanksStay(s, b[1..]);
    }
  }

  lemma BlanksAfterDone(s: State, stack: seq<Frame>, b: string)
    requires Done(s, stack) && Blank(b)
    ensures Done(Run(s, b), stack)
  {
    if b != "" {
      DoneStep(s, stack, b[0]);
      assert forall i :: 0 <= i < |b| - 1 ==> b[1..][i] == b[i + 1];
      BlanksStay(Live(CloseValue(stack), AfterValue), b[1..]);
    }
  }

  lemma {:induction false} DigitsRun(stack: seq<Frame>, n: NumberPart, ds: string)
    requires AllDigits(ds) && (n == Digits || n == Fraction || n == ExponentDigits)
    ensures Run(Live(stack, InNumber(n)), ds) == Live(stack, InNumber(n))
    decreases ds
  {
    if ds != "" {
      assert forall i :: 0 <= i < |ds| - 1 ==> ds[1..][i] == ds[i + 1];
      DigitsRun(stack, n, ds[1..]);
    }
  }

  /** One character and then digits. */
  lemma DigitsAfter(s: State, c: char, ds: string, stack: seq<Frame>, n: NumberPart)
    requires Step(s, c) == Live(stack, InNumber(n)) && AllDigits(ds) && (n == Digits || n == Fraction || n == ExponentDigits)
    ensures Run(s, [c] + ds) == Live(stack, InNumber(n))
  {
    RunCons(s, c, ds);
    DigitsRun(stack, n, ds);
  }

  lemma FirstDigit(ds: string)
    requires ds != "" && AllDigits(ds)
    ensures ds == [ds[0]] + ds[1..] && IsDigit(ds[0]) && AllDigits(ds[1..])
  {
  }

  lemma IntRuns(s: State, stack: seq<Frame>, i: string)
    requires IsInt(i) && (s == Live(stack, ExpectValue) || s == Live(stack, InNumber(Minus)))
    ensures var t := Run(s, i); t == Live(stack, InNumber(Zero)) || t == Live(stack, InNumber(Digits))
  {
    if i == "0" {
      assert "0" == ['0'] + "";
      RunCons(s, '0', "");
    } else {
      FirstDigit(i);
      DigitsAfter(s, i[0], i[1..], stack, Digits);
    }
  }

  lemma SignedRuns(stack: seq<Frame>, i: string)
    requires IsSigned(i)
    ensures var t := Run(Live(stack, ExpectValue), i); t == Live(stack, InNumber(Zero)) || t == Live(stack, InNumber(Digits))
  {
    if IsInt(i) {
      IntRuns(Live(stack, ExpectValue), stack, i);
    } else {
      assert i == ['-'] + i[1..];
      RunCons(Live(stack, ExpectValue), '-', i[1..]);
      IntRuns(Live(stack, InNumber(Minus)), stack, i[1..]);
    }
  }

  lemma MantissaRuns(stack: seq<Frame>, m: Number)
    requires GoodMantissa(m)
    ensures var t := Run(Live(stack, ExpectValue), MantissaText(m));
            t == Live(stack, InNumber(Zero)) || t == Live(stack, InNumber(Digits)) || t == Live(stack, InNumber(Fraction))
  {
    var s := Live(stack, ExpectValue);
    SignedRuns(stack, m.whole);
    if m.Fractional? {
      var ds := m.fraction;
      assert MantissaText(m) == m.whole + (['.'] + ds);
      RunAppend(s, m.whole, ['.'] + ds);
      RunCons(Run(s, m.whole), '.', ds);
      FirstDigit(ds);
      DigitsAfter(Live(stack, InNumber(Point)), ds[0], ds[1..], stack, Fraction);
    }
  }

  lemma ExpDigits(stack: seq<Frame>, sign: string, ds: string)
    requires IsSign(sign) && ds != "" && AllDigits(ds)
    ensures Run(Live(stack, InNumber(Exponent)), sign + ds) == Live(stack, InNumber(ExponentDigits))
  {
    var e := Live(stack, InNumber(Exponent));
    FirstDigit(ds);
    if sign == "" {
      assert sign + ds == ds;
      DigitsAfter(e, ds[0], ds[1..], stack, ExponentDigits);
    } else {
      assert sign == [sign[0]];
      RunCons(e, sign[0], ds);
      DigitsAfter(Live(stack, InNumber(ExponentSign)), ds[0], ds[1..], stack, ExponentDigits);
    }
  }

  lemma ExpRuns(s: State, stack: seq<Frame>, x: Exp)
    requires GoodExp(x)
    requires s == Live(stack, InNumber(Zero)) || s == Live(stack, InNumber(Digits)) || s == Live(stack, InNumber(Fraction))
    ensures Done(Run(s, ExpText(x)), stack)
  {
    if x.Exp? {
      assert ExpText(x) == [x.e] + (x.sign + x.digits);
      RunCons(s, x.e, x.sign + x.digits);
      ExpDigits(stack, x.sign, x.digits);
    }
  }

  lemma NumberRuns(stack: seq<Frame>, m: Number, x: Exp)
    requires GoodMantissa(m) && GoodExp(x)
    ensures Done(Run(Live(stack, ExpectValue), MantissaText(m) + ExpText(x)), stack)
  {
    MantissaRuns(stack, m);
    RunAppend(Live(stack, ExpectValue), MantissaText(m), ExpText(x));
    ExpRuns(Run(Live(stack, ExpectValue), MantissaText(m)), stack, x);
  }

  lemma {:induction false} LiteralRuns(stack: seq<Frame>, rest: string)
    requires rest != ""
    ensures Run(Live(stack, InLiteral(rest)), rest) == Live(CloseValue(stack), AfterValue)
    decreases rest
  {
    if |rest| == 1 {
      assert Run(Live(CloseValue(stack), AfterValue), rest[1..]) == Live(CloseValue(stack), AfterValue);
    } else {
      LiteralRuns(stack, rest[1..]);
    }
  }

  lemma WordRuns(stack: seq<Frame>, word: string)
    requires IsLiteral(word)
    ensures Run(Live(stack, ExpectValue), word) == Live(CloseValue(stack), AfterValue)
  {
    assert "true"[1..] == "rue" && "false"[1..] == "alse" && "null"[1..] == "ull";
    LiteralRuns(stack, word[1..]);
  }

  lemma OneRuns(s: State, c: char)
    ensures Run(s, [c]) == Step(s, c)
  {
    assert [c] == [c] + "";
    RunCons(s, c, "");
  }

  /** A four-digit escape, read from a state behind its backslash and `u`. */
  lemma CodeRuns(stack: seq<Frame>, isKey: bool, u: string)
    requires IsUnicodeEscape(u) && !IsLow(u)
    ensures Run(Live(stack, InString(isKey, Plain)), u) == Live(stack, InString(isKey, if IsHigh(u) then HighEnd else Plain))
  {
    var s0 := Live(stack, InString(isKey, Plain));
    assert u == [u[0]] + ([u[1]] + ([u[2]] + ([u[3]] + ([u[4]] + [u[5]])))) && u[2..] == [u[2], u[3], u[4], u[5]];
    assert IsHex(u[2..][0]) && IsHex(u[2..][1]) && IsHex(u[2..][2]) && IsHex(u[2..][3]);
    RunCons(s0, u[0], [u[1]] + ([u[2]] + ([u[3]] + ([u[4]] + [u[5]]))));
    RunCons(Live(stack, InString(isKey, Escape)), u[1], [u[2]] + ([u[3]] + ([u[4]] + [u[5]])));
    FourRun(stack, isKey, u[2], u[3], u[4], u[5]);
  }

  lemma FourRun(stack: seq<Frame>, isKey: bool, a: char, b: char, c: char, d: char)
    requires IsHex(a) && IsHex(b) && IsHex(c) && IsHex(d) && !(IsD(a) && IsLowDigit(b))
    ensures Run(Live(stack, InString(isKey, Unicode(""))), [a] + ([b] + ([c] + [d]))) ==
              Live(stack, InString(isKey, if IsD(a) && IsHighDigit(b) then HighEnd else Plain))
  {
    var s := digits => Live(stack, InString(isKey, Unicode(digits)));
    assert "" + [a] == [a] && [a] + [b] == [a, b] && [a, b] + [c] == [a, b, c];
    RunCons(s(""), a, [b] + ([c] + [d]));
    RunCons(s([a]), b, [c] + [d]);
    RunCons(s([a, b]), c, [d]);
    OneRuns(s([a, b, c]), d);
  }

  lemma LowRuns(stack: seq<Frame>, isKey: bool, u: string)
    requires IsLow(u)
    ensures Run(Live(stack, InString(isKey, HighEnd)), u) == Live(stack, InString(isKey, Plain))
  {
    var s := digits => Live(stack, InString(isKey, Low(digits)));
    assert u == [u[0]] + ([u[1]] + ([u[2]] + ([u[3]] + ([u[4]] + [u[5]])))) && u[2..] == [u[2], u[3], u[4], u[5]];
    assert IsHex(u[2..][0]) && IsHex(u[2..][1]) && IsHex(u[2..][2]) && IsHex(u[2..][3]);
    RunCons(Live(stack, InString(isKey, HighEnd)), u[0], [u[1]] + ([u[2]] + ([u[3]] + ([u[4]] + [u[5]]))));
    RunCons(Live(stack, InString(isKey, HighBackslash)), u[1], [u[2]] + ([u[3]] + ([u[4]] + [u[5]])));
    LowFour(stack, isKey, u[2], u[3], u[4], u[5]);
  }

  lemma LowFour(stack: seq<Frame>, isKey: bool, a: char, b: char, c: char, d: char)
    requires IsD(a) && IsLowDigit(b) && IsHex(c) && IsHex(d)
    ensures Run(Live(stack, InString(isKey, Low(""))), [a] + ([b] + ([c] + [d]))) == Live(stack, InString(isKey, Plain))
  {
    var s := digits => Live(stack, InString(isKey, Low(digits)));
    assert "" + [a] == [a] && [a] + [b] == [a, b] && [a, b] + [c] == [a, b, c];
    RunCons(s(""), a, [b] + ([c] + [d]));
    RunCons(s([a]), b, [c] + [d]);
    RunCons(s([a, b]), c, [d]);
    OneRuns(s([a, b, c]), d);
  }

  lemma UnitRuns(stack: seq<Frame>, isKey: bool, u: Unit)
    requires GoodUnit(u)
    ensures Run(Live(stack, InString(isKey, Plain)), UnitText(u)) == Live(stack, InString(isKey, Plain))
  {
    var s := Live(stack, InString(isKey, Plain));
    match u {
      case Unescaped(c) => OneRuns(s, c);
      case Short(c) =>
        assert UnitText(u) == ['\\'] + [c];
        RunCons(s, '\\', [c]);
        OneRuns(Live(stack, InString(isKey, Escape)), c);
      case Code(code) => CodeRuns(stack, isKey, code);
      case Pair(high, low) =>
        RunAppend(s, high, low);
        CodeRuns(stack, isKey, high);
        LowRuns(stack, isKey, low);
    }
  }

  lemma {:induction false} BodyRuns(stack: seq<Frame>, isKey: bool, b: Body)
    requires GoodBody(b)
    ensures Run(Live(stack, InString(isKey, Plain)), BodyText(b)) == Live(stack, InString(isKey, Plain))
  {
    if b.Snoc? {
      BodyRuns(stack, isKey, b.init);
      RunAppend(Live(stack, InString(isKey, Plain)), BodyText(b.init), UnitText(b.last));
      UnitRuns(stack, isKey, b.last);
    }
  }

  lemma StringRuns(s: State, stack: seq<Frame>, isKey: bool, b: Body)
    requires GoodBody(b) && Step(s, '"') == Live(stack, InString(isKey, Plain))
    ensures Run(s, "\"" + BodyText(b) + "\"") == EndString(stack, isKey)
  {
    assert "\"" + BodyText(b) + "\"" == ['"'] + (BodyText(b) + ['"']);
    RunCons(s, '"', BodyText(b) + ['"']);
    RunAppend(Live(stack, InString(isKey, Plain)), BodyText(b), ['"']);
    BodyRuns(stack, isKey, b);
    OneRuns(Live(stack, InString(isKey, Plain)), '"');
  }

  /** A container: its first character, what is inside, and its last character. */
  lemma BracketRuns(s: State, t: State, open: char, inside: string, close: char, u: State)
    requires Step(s, open) == t && Run(t, inside) == u
    ensures Run(s, [open] + inside + [close]) == Step(u, close)
  {
    assert [open] + inside + [close] == [open] + (inside + [close]);
    RunCons(s, open, inside + [close]);
    RunAppend(t, inside, [close]);
    OneRuns(u, close);
  }

  predicate ValueState(s: State, stack: seq<Frame>) {
    s == Live(stack, ExpectValue) || (s == Live(stack, ArrayStart) && stack != [])
  }

  lemma CloseInside(stack: seq<Frame>, f: Frame, u: State)
    requires f != Key && Done(u, stack + [f])
    ensures Step(u, if f == Array then ']' else '}') == Live(CloseValue(stack), AfterValue)
  {
    assert (stack + [f])[..|stack|] == stack;
    DoneStep(u, stack + [f], if f == Array then ']' else '}');
  }

  lemma {:induction false} ValueRuns(s: State, stack: seq<Frame>, v: Value)
    requires GoodValue(v) && s == Live(stack, ExpectValue)
    ensures Done(Run(s, ValueText(v)), stack)
    decreases v, 0
  {
    match v {
      case Literal(word) => WordRuns(stack, word);
      case Num(m, x) => NumberRuns(stack, m, x);
      case Str(body) => StringRuns(s, stack, false, body);
      case EmptyArray(blank) =>
        var t := Live(stack + [Array], ArrayStart);
        BlanksStay(t, blank);
        BracketRuns(s, t, '[', blank, ']', t);
        assert (stack + [Array])[..|stack|] == stack;
      case EmptyObject(blank) =>
        var t := Live(stack + [Object], ObjectStart);
        BlanksStay(t, blank);
        BracketRuns(s, t, '{', blank, '}', t);
        assert (stack + [Object])[..|stack|] == stack;
      case ArrayOf(items) =>
        var t := Live(stack + [Array], ArrayStart);
        ItemsRun(t, stack + [Array], items);
        BracketRuns(s, t, '[', ItemsText(items), ']', Run(t, ItemsText(items)));
        CloseInside(stack, Array, Run(t, ItemsText(items)));
      case ObjectOf(members) =>
        var t := Live(stack + [Object], ObjectStart);
        MembersRun(t, stack, members);
        BracketRuns(s, t, '{', MembersText(members), '}', Run(t, MembersText(members)));
        MemberDoneStep(Run(t, MembersText(members)), stack, '}');
        assert (stack + [Object])[..|stack|] == stack;
    }
  }

  lemma FirstOfValue(v: Value)
    requires GoodValue(v)
    ensures ValueText(v) != "" && ValueText(v)[0] != ']' && !IsWhitespace(ValueText(v)[0])
  {
  }

  /** The first value of an array is read as any other. */
  lemma StartsAlike(stack: seq<Frame>, text: string)
    requires text != "" && text[0] != ']' && !IsWhitespace(text[0])
    ensures Run(Live(stack, ArrayStart), text) == Run(Live(stack, ExpectValue), text)
  {
  }

  lemma {:induction false} PaddedRuns(s: State, stack: seq<Frame>, p: Padded)
    requires GoodPadded(p) && ValueState(s, stack)
    ensures Done(Run(s, PaddedText(p)), stack)
    decreases p, 1
  {
    var v := ValueText(p.value);
    BlanksStay(s, p.before);
    RunAppend(s, p.before, v);
    FirstOfValue(p.value);
    StartsAlike(stack, v);
    ValueRuns(Live(stack, ExpectValue), stack, p.value);
    RunAppend(s, p.before + v, p.after);
    BlanksAfterDone(Run(s, p.before + v), stack, p.after);
  }

  lemma {:induction false} ItemsRun(s: State, stack: seq<Frame>, items: Items)
    requires GoodItems(items) && ValueState(s, stack) && stack != [] && Top(stack) == Array
    ensures Done(Run(s, ItemsText(items)), stack)
    decreases items, 2
  {
    match items {
      case OneItem(first) => PaddedRuns(s, stack, first);
      case MoreItems(init, last) =>
        ItemsRun(s, stack, init);
        var t := Run(s, ItemsText(init));
        DoneStep(t, stack, ',');
        PaddedRuns(Live(stack, ExpectValue), stack, last);
        RunAppend(s, ItemsText(init) + ",", PaddedText(last));
        RunAppend(s, ItemsText(init), ",");
        OneRuns(t, ',');
    }
  }

  predicate NameState(s: State, stack: seq<Frame>) {
    s == Live(stack + [Object], ObjectStart) || s == Live(stack + [Object], ExpectKey)
  }

  lemma NameRuns(s: State, stack: seq<Frame>, n: Name)
    requires GoodName(n) && NameState(s, stack)
    ensures Run(s, NameText(n)) == Live(stack + [Object] + [Key], ExpectColon)
  {
    var quoted := "\"" + BodyText(n.body) + "\"";
    BlanksStay(s, n.before);
    RunAppend(s, n.before, quoted);
    StringRuns(s, stack + [Object], true, n.body);
    RunAppend(s, n.before + quoted, n.after);
    BlanksStay(Live(stack + [Object] + [Key], ExpectColon), n.after);
  }

  lemma {:induction false} MemberRuns(s: State, stack: seq<Frame>, m: Member)
    requires GoodMember(m) && NameState(s, stack)
    ensures Done(Run(s, MemberText(m)), stack + [Object] + [Key])
    decreases m, 2
  {
    var open := stack + [Object] + [Key];
    NameRuns(s, stack, m.name);
    RunAppend(s, NameText(m.name), ":");
    OneRuns(Live(open, ExpectColon), ':');
    RunAppend(s, NameText(m.name) + ":", PaddedText(m.value));
    PaddedRuns(Live(open, ExpectValue), open, m.value);
  }

  /** The value of a key is read, and only its object is left open. */
  predicate MemberDone(s: State, stack: seq<Frame>) { Done(s, stack + [Object]) || Done(s, stack + [Object] + [Key]) }

  lemma MemberDoneStep(s: State, stack: seq<Frame>, c: char)
    requires MemberDone(s, stack) && Follows(c)
    ensures Step(s, c) == StepAfter(stack + [Object], c)
  {
    assert (stack + [Object] + [Key])[..|stack| + 1] == stack + [Object];
    if Done(s, stack + [Object]) { DoneStep(s, stack + [Object], c); } else { DoneStep(s, stack + [Object] + [Key], c); }
  }

  lemma {:induction false} MembersRun(s: State, stack: seq<Frame>, members: Members)
    requires GoodMembers(members) && NameState(s, stack)
    ensures MemberDone(Run(s, MembersText(members)), stack)
    decreases members, 3
  {
    match members {
      case OneMember(first) => MemberRuns(s, stack, first);
      case MoreMembers(init, last) =>
        MembersRun(s, stack, init);
        var t := Run(s, MembersText(init));
        MemberDoneStep(t, stack, ',');
        MemberRuns(Live(stack + [Object], ExpectKey), stack, last);
        RunAppend(s, MembersText(init) + ",", MemberText(last));
        RunAppend(s, MembersText(init), ",");
        OneRuns(t, ',');
    }
  }

  /** Every text that the grammar derives is accepted. */
  lemma DerivedIsAccepted(p: Padded)
    requires GoodPadded(p)
    ensures Accepts(PaddedText(p))
  {
    PaddedRuns(START, [], p);
  }
}
