/** Every text that module Json accepts has a derivation in the grammar: what has been read so far, for each state. */
module JsonDerivation {
  import opened Basics
  import opened Json
  import opened JsonGrammar

  // ----- every accepted text is derived: what has been read, for each state -----

  ghost predicate ItemsAt(mid: string, items: Items, b: string) {
    GoodItems(items) && Blank(b) && mid == ItemsText(items) + ("," + b)
  }

  /** What stands in an array in front of a value. */
  ghost predicate BeforeItem(mid: string) { Blank(mid) || exists items, b :: ItemsAt(mid, items, b) }

  ghost predicate MembersAt(e: string, ms: Members) { GoodMembers(ms) && e == MembersText(ms) + "," }

  /** The members in front of a name, with their comma. */
  ghost predicate Earlier(e: string) { e == "" || exists ms :: MembersAt(e, ms) }

  /** An array that is open, up to where a value starts. */
  ghost predicate OpenArray(p: string, outer: seq<Frame>, q: string, mid: string)
    decreases |outer|, 1
  {
    p == q + ("[" + mid) && BeforeItem(mid) && BeforeValue(q, outer)
  }

  /** An object that is open, up to where the value of a name starts. */
  ghost predicate OpenKey(p: string, outer: seq<Frame>, q: string, e: string, n: Name, b: string)
    decreases |outer|, 1
  {
    p == q + ("{" + (e + (NameText(n) + (":" + b)))) && Earlier(e) && GoodName(n) && Blank(b) && BeforeValue(q, outer)
  }

  ghost predicate SomeArray(p: string, outer: seq<Frame>)
    decreases |outer|, 2
  {
    exists q, mid :: OpenArray(p, outer, q, mid)
  }

  ghost predicate SomeKey(p: string, outer: seq<Frame>)
    decreases |outer|, 2
  {
    exists q, e, n, b :: OpenKey(p, outer, q, e, n, b)
  }

  /** Whatever is in front of a value that starts behind `p`, container by container. */
  ghost predicate BeforeValue(p: string, stack: seq<Frame>)
    decreases |stack|, 0
  {
    if stack == [] then Blank(p)
    else
      match Top(stack)
      case Array => SomeArray(p, stack[..|stack| - 1])
      case Key =>
        |stack| >= 2 && stack[|stack| - 2] == Object && SomeKey(p, stack[..|stack| - 2])
      case Object => false
  }

  ghost predicate InArray(p: string, outer: seq<Frame>, q: string, items: Items) {
    p == q + ("[" + ItemsText(items)) && GoodItems(items) && BeforeValue(q, outer)
  }

  ghost predicate InObject(p: string, outer: seq<Frame>, q: string, ms: Members) {
    p == q + ("{" + MembersText(ms)) && GoodMembers(ms) && BeforeValue(q, outer)
  }

  ghost predicate InSomeArray(p: string, outer: seq<Frame>) { exists q, items :: InArray(p, outer, q, items) }

  ghost predicate InSomeObject(p: string, outer: seq<Frame>) { exists q, ms :: InObject(p, outer, q, ms) }

  ghost predicate AtTop(p: string, t: Padded) { GoodPadded(t) && p == PaddedText(t) }

  /** What a value that was read leaves behind. */
  ghost predicate AfterAny(p: string, stack: seq<Frame>) {
    if stack == [] then exists t :: AtTop(p, t)
    else
      match Top(stack)
      case Array => InSomeArray(p, stack[..|stack| - 1])
      case Object => InSomeObject(p, stack[..|stack| - 1])
      case Key => false
  }

  // ----- a value is added -----

  lemma PlainPadded(b: string, v: Value, p: Padded)
    requires Blank(b) && GoodValue(v) && p == Padded(b, v, "")
    ensures GoodPadded(p) && PaddedText(p) == b + ValueText(v)
  {
    assert b + ValueText(v) + "" == b + ValueText(v);
  }

  lemma ItemAdded(mid: string, v: Value) returns (items: Items)
    requires BeforeItem(mid) && GoodValue(v)
    ensures GoodItems(items) && ItemsText(items) == mid + ValueText(v)
  {
    var t := ValueText(v);
    if Blank(mid) {
      PlainPadded(mid, v, Padded(mid, v, ""));
      items := OneItem(Padded(mid, v, ""));
    } else {
      var init, b :| ItemsAt(mid, init, b);
      PlainPadded(b, v, Padded(b, v, ""));
      items := MoreItems(init, Padded(b, v, ""));
      MoreText(ItemsText(init), ",", b, t);
    }
  }

  lemma MoreText(a: string, c: string, b: string, t: string)
    ensures a + c + (b + t) == (a + (c + b)) + t
  {
  }

  lemma MemberText4(n: string, b: string, t: string)
    ensures n + ":" + (b + t) == (n + (":" + b)) + t
  {
  }

  lemma MemberAdded(e: string, n: Name, b: string, v: Value) returns (ms: Members)
    requires Earlier(e) && GoodName(n) && Blank(b) && GoodValue(v)
    ensures GoodMembers(ms) && MembersText(ms) == (e + (NameText(n) + (":" + b))) + ValueText(v)
  {
    var t := ValueText(v);
    var m := Member(n, Padded(b, v, ""));
    PlainPadded(b, v, m.value);
    MemberText4(NameText(n), b, t);
    if e == "" {
      ms := OneMember(m);
      assert e + (NameText(n) + (":" + b)) == NameText(n) + (":" + b);
    } else {
      var init :| MembersAt(e, init);
      ms := MoreMembers(init, m);
      Regrouped(e, NameText(n) + (":" + b), t);
    }
  }

  lemma ArrayGets(p: string, outer: seq<Frame>, v: Value)
    requires SomeArray(p, outer) && GoodValue(v)
    ensures InSomeArray(p + ValueText(v), outer)
  {
    var q, mid :| OpenArray(p, outer, q, mid);
    var items := ItemAdded(mid, v);
    TextAdded(q, "[", mid, ValueText(v));
    assert InArray(p + ValueText(v), outer, q, items);
  }

  lemma ObjectGets(p: string, outer: seq<Frame>, v: Value)
    requires SomeKey(p, outer) && GoodValue(v)
    ensures InSomeObject(p + ValueText(v), outer)
  {
    var q, e, n, b :| OpenKey(p, outer, q, e, n, b);
    var ms := MemberAdded(e, n, b, v);
    TextAdded(q, "{", e + (NameText(n) + (":" + b)), ValueText(v));
    assert InObject(p + ValueText(v), outer, q, ms);
  }

  lemma ValueAdded(p: string, stack: seq<Frame>, v: Value)
    requires BeforeValue(p, stack) && GoodValue(v)
    ensures AfterAny(p + ValueText(v), CloseValue(stack))
  {
    if stack == [] {
      PlainPadded(p, v, Padded(p, v, ""));
      assert AtTop(p + ValueText(v), Padded(p, v, ""));
    } else if Top(stack) == Array {
      ArrayGets(p, stack[..|stack| - 1], v);
    } else {
      ObjectGets(p, stack[..|stack| - 2], v);
      assert CloseValue(stack)[..|stack| - 2] == stack[..|stack| - 2];
    }
  }

  lemma TextAdded(q: string, c: string, mid: string, t: string)
    ensures (q + (c + mid)) + t == q + (c + (mid + t))
  {
  }

  // ----- blanks are added -----

  lemma BlankPlus(a: string, b: string)
    requires Blank(a) && Blank(b)
    ensures Blank(a + b)
  {
  }

  function MoreAfter(p: Padded, b: string): Padded { p.(after := p.after + b) }

  lemma PaddedBlank(p: Padded, b: string)
    requires GoodPadded(p) && Blank(b)
    ensures GoodPadded(MoreAfter(p, b)) && PaddedText(MoreAfter(p, b)) == PaddedText(p) + b
  {
    BlankPlus(p.after, b);
    Regrouped(p.before + ValueText(p.value), p.after, b);
  }

  lemma ItemsBlank(items: Items, b: string) returns (r: Items)
    requires GoodItems(items) && Blank(b)
    ensures GoodItems(r) && ItemsText(r) == ItemsText(items) + b
  {
    match items {
      case OneItem(first) =>
        PaddedBlank(first, b);
        r := OneItem(MoreAfter(first, b));
      case MoreItems(init, last) =>
        PaddedBlank(last, b);
        r := MoreItems(init, MoreAfter(last, b));
        Regrouped(ItemsText(init) + ",", PaddedText(last), b);
    }
  }

  lemma MemberBlank(m: Member, b: string) returns (r: Member)
    requires GoodMember(m) && Blank(b)
    ensures GoodMember(r) && MemberText(r) == MemberText(m) + b
  {
    PaddedBlank(m.value, b);
    r := Member(m.name, MoreAfter(m.value, b));
    Regrouped(NameText(m.name) + ":", PaddedText(m.value), b);
  }

  lemma MembersBlank(ms: Members, b: string) returns (r: Members)
    requires GoodMembers(ms) && Blank(b)
    ensures GoodMembers(r) && MembersText(r) == MembersText(ms) + b
  {
    match ms {
      case OneMember(first) =>
        var m := MemberBlank(first, b);
        r := OneMember(m);
      case MoreMembers(init, last) =>
        var m := MemberBlank(last, b);
        r := MoreMembers(init, m);
        Regrouped(MembersText(init) + ",", MemberText(last), b);
    }
  }

  lemma AfterBlank(p: string, stack: seq<Frame>, b: string)
    requires AfterAny(p, stack) && Blank(b)
    ensures AfterAny(p + b, stack)
  {
    if stack == [] {
      var t :| AtTop(p, t);
      PaddedBlank(t, b);
      assert AtTop(p + b, MoreAfter(t, b));
    } else if Top(stack) == Array {
      ArrayBlank(p, stack[..|stack| - 1], b);
    } else {
      ObjectBlank(p, stack[..|stack| - 1], b);
    }
  }

  lemma ArrayBlank(p: string, outer: seq<Frame>, b: string)
    requires InSomeArray(p, outer) && Blank(b)
    ensures InSomeArray(p + b, outer)
  {
    var q, items :| InArray(p, outer, q, items);
    var r := ItemsBlank(items, b);
    TextAdded(q, "[", ItemsText(items), b);
    assert InArray(p + b, outer, q, r);
  }

  lemma ObjectBlank(p: string, outer: seq<Frame>, b: string)
    requires InSomeObject(p, outer) && Blank(b)
    ensures InSomeObject(p + b, outer)
  {
    var q, ms :| InObject(p, outer, q, ms);
    var r := MembersBlank(ms, b);
    TextAdded(q, "{", MembersText(ms), b);
    assert InObject(p + b, outer, q, r);
  }

  // ----- numbers that are being read -----

  predicate IsLong(i: string) { i != "" && AllDigits(i) && i[0] != '0' }

  predicate MantissaIs(m: Number, t: string) { GoodMantissa(m) && t == MantissaText(m) }

  predicate ExpSigned(m: Number, e: char, g: string, t: string) {
    GoodMantissa(m) && IsE(e) && IsSign(g) && t == MantissaText(m) + ([e] + g)
  }

  predicate NumberIs(m: Number, x: Exp, t: string) { GoodMantissa(m) && GoodExp(x) && t == MantissaText(m) + ExpText(x) }

  /** The part of a number that has been read. */
  ghost predicate NumberSoFar(n: NumberPart, t: string) {
    match n
    case Minus => t == "-"
    case Zero => t == "0" || t == "-0"
    case Digits => IsLong(t) || (t != "" && t[0] == '-' && IsLong(t[1..]))
    case Point => t != "" && t[|t| - 1] == '.' && IsSigned(t[..|t| - 1])
    case Fraction => exists m :: MantissaIs(m, t) && m.Fractional?
    case Exponent => exists m, e :: ExpSigned(m, e, "", t)
    case ExponentSign => exists m, e, g :: ExpSigned(m, e, g, t)
    case ExponentDigits => exists m, x :: NumberIs(m, x, t) && x.Exp?
  }

  lemma DigitsPlus(ds: string, c: char)
    requires AllDigits(ds) && IsDigit(c)
    ensures AllDigits(ds + [c])
  {
  }

  lemma LongPlus(t: string, c: char)
    requires IsLong(t) && IsDigit(c)
    ensures IsLong(t + [c])
  {
  }

  lemma WholeIsSigned(n: NumberPart, t: string)
    requires (n == Zero || n == Digits) && NumberSoFar(n, t)
    ensures IsSigned(t) && MantissaIs(Whole(t), t)
  {
    if n == Zero {
      assert "-0"[1..] == "0";
    }
  }

  /** A complete mantissa, as one. */
  lemma MantissaSoFar(n: NumberPart, t: string) returns (m: Number)
    requires (n == Zero || n == Digits || n == Fraction) && NumberSoFar(n, t)
    ensures MantissaIs(m, t)
  {
    if n == Fraction {
      m :| MantissaIs(m, t) && m.Fractional?;
    } else {
      WholeIsSigned(n, t);
      m := Whole(t);
    }
  }

  lemma WholeStep(n: NumberPart, t: string, c: char)
    requires (n == Minus || n == Digits) && NumberSoFar(n, t) && IsDigit(c) && StepNumber(n, c).Continue?
    ensures NumberSoFar(StepNumber(n, c).next, t + [c])
  {
    if n == Minus {
      assert ("-" + [c])[1..] == [c];
    } else if IsLong(t) {
      LongPlus(t, c);
    } else {
      LongPlus(t[1..], c);
      assert (t + [c])[1..] == t[1..] + [c];
    }
  }

  lemma PointStep(n: NumberPart, t: string)
    requires (n == Zero || n == Digits) && NumberSoFar(n, t)
    ensures NumberSoFar(Point, t + ".")
  {
    WholeIsSigned(n, t);
    assert (t + ".")[..|t|] == t;
  }

  lemma FractionStep(n: NumberPart, t: string, c: char)
    requires (n == Point || n == Fraction) && NumberSoFar(n, t) && IsDigit(c)
    ensures NumberSoFar(Fraction, t + [c])
  {
    if n == Point {
      var m := Fractional(t[..|t| - 1], [c]);
      assert t == t[..|t| - 1] + ".";
      assert MantissaIs(m, t + [c]);
    } else {
      var m :| MantissaIs(m, t) && m.Fractional?;
      DigitsPlus(m.fraction, c);
      Regrouped(m.whole + ".", m.fraction, [c]);
      assert MantissaIs(Fractional(m.whole, m.fraction + [c]), t + [c]);
    }
  }

  lemma ExpStart(n: NumberPart, t: string, c: char)
    requires (n == Zero || n == Digits || n == Fraction) && NumberSoFar(n, t) && IsE(c)
    ensures NumberSoFar(Exponent, t + [c])
  {
    var m := MantissaSoFar(n, t);
    assert [c] + "" == [c];
    assert ExpSigned(m, c, "", t + [c]);
  }

  lemma SignStep(t: string, c: char)
    requires NumberSoFar(Exponent, t) && (c == '+' || c == '-')
    ensures NumberSoFar(ExponentSign, t + [c])
  {
    var m, e :| ExpSigned(m, e, "", t);
    assert [e] + "" == [e] && t + [c] == MantissaText(m) + ([e] + [c]);
    assert ExpSigned(m, e, [c], t + [c]);
  }

  lemma FirstExpDigit(t: string, m: Number, e: char, g: string, c: char)
    requires ExpSigned(m, e, g, t) && IsDigit(c)
    ensures NumberSoFar(ExponentDigits, t + [c])
  {
    var x := Exp(e, g, [c]);
    Regrouped(MantissaText(m), [e] + g, [c]);
    assert NumberIs(m, x, t + [c]);
  }

  lemma NextExpDigit(t: string, c: char)
    requires NumberSoFar(ExponentDigits, t) && IsDigit(c)
    ensures NumberSoFar(ExponentDigits, t + [c])
  {
    var m, x :| NumberIs(m, x, t) && x.Exp?;
    var y := x.(digits := x.digits + [c]);
    DigitsPlus(x.digits, c);
    Regrouped([x.e] + x.sign, x.digits, [c]);
    Regrouped(MantissaText(m), ExpText(x), [c]);
    assert NumberIs(m, y, t + [c]);
  }

  lemma NumberStep(n: NumberPart, t: string, c: char)
    requires NumberSoFar(n, t) && StepNumber(n, c).Continue?
    ensures NumberSoFar(StepNumber(n, c).next, t + [c])
  {
    match n {
      case Minus => WholeStep(n, t, c);
      case Zero => if c == '.' { PointStep(n, t); } else { ExpStart(n, t, c); }
      case Digits => if c == '.' { PointStep(n, t); } else if IsDigit(c) { WholeStep(n, t, c); } else { ExpStart(n, t, c); }
      case Point => FractionStep(n, t, c);
      case Fraction => if IsDigit(c) { FractionStep(n, t, c); } else { ExpStart(n, t, c); }
      case Exponent =>
        if IsDigit(c) {
          var m, e :| ExpSigned(m, e, "", t);
          FirstExpDigit(t, m, e, "", c);
        } else {
          SignStep(t, c);
        }
      case ExponentSign =>
        var m, e, g :| ExpSigned(m, e, g, t);
        FirstExpDigit(t, m, e, g, c);
      case ExponentDigits => NextExpDigit(t, c);
    }
  }

  lemma NumberDone(n: NumberPart, t: string) returns (v: Value)
    requires NumberSoFar(n, t) && IsCompleteNumber(n)
    ensures GoodValue(v) && ValueText(v) == t
  {
    if n == ExponentDigits {
      var m, x :| NumberIs(m, x, t) && x.Exp?;
      v := Num(m, x);
    } else {
      var m := MantissaSoFar(n, t);
      v := Num(m, NoExp);
      assert t + "" == t;
    }
  }

  // ----- strings that are being read -----

  predicate BodyIs(b: Body, t: string) { GoodBody(b) && t == BodyText(b) }

  predicate BodyAnd(b: Body, more: string, t: string) { GoodBody(b) && t == BodyText(b) + more }

  /** The characters of the string, and the beginning of the next one. */
  ghost predicate StringSoFar(part: StringPart, t: string) {
    match part
    case Plain => exists b :: BodyIs(b, t)
    case Escape => exists b :: BodyAnd(b, "\\", t)
    case Unicode(d) => exists b :: BodyAnd(b, ['\\', 'u'] + d, t)
    case HighEnd => exists b, high :: IsHigh(high) && BodyAnd(b, high, t)
    case HighBackslash => exists b, high :: IsHigh(high) && BodyAnd(b, high + "\\", t)
    case Low(d) => exists b, high :: IsHigh(high) && BodyAnd(b, high + (['\\', 'u'] + d), t)
  }

  lemma UnitDone(b: Body, u: Unit, t: string)
    requires GoodBody(b) && GoodUnit(u) && t == BodyText(b) + UnitText(u)
    ensures StringSoFar(Plain, t)
  {
    assert BodyIs(Snoc(b, u), t);
  }

  lemma PlainStep(t: string, c: char)
    requires StringSoFar(Plain, t) && c != '"'
    ensures c == '\\' ==> StringSoFar(Escape, t + [c])
    ensures c != '\\' && c >= ' ' ==> StringSoFar(Plain, t + [c])
  {
    var b :| BodyIs(b, t);
    if c == '\\' {
      assert BodyAnd(b, "\\", t + [c]);
    } else if c >= ' ' {
      UnitDone(b, Unescaped(c), t + [c]);
    }
  }

  lemma EscapeStep(t: string, c: char)
    requires StringSoFar(Escape, t)
    ensures c == 'u' ==> StringSoFar(Unicode(""), t + [c])
    ensures IsShort(c) ==> StringSoFar(Plain, t + [c])
  {
    var b :| BodyAnd(b, "\\", t);
    Regrouped(BodyText(b), "\\", [c]);
    if c == 'u' {
      assert ['\\', 'u'] + "" == "\\" + [c];
      assert BodyAnd(b, ['\\', 'u'] + "", t + [c]);
    }
    if IsShort(c) {
      assert UnitText(Short(c)) == "\\" + [c];
      UnitDone(b, Short(c), t + [c]);
    }
  }

  /** A four-digit escape with all its digits. */
  lemma CodeIs(d: string, c: char, u: string)
    requires |d| == 3 && AllHex(d) && IsHex(c) && u == ['\\', 'u'] + d + [c]
    ensures IsUnicodeEscape(u) && u[2] == d[0] && u[3] == d[1]
  {
    assert u[2..] == d + [c];
  }

  lemma UnicodeStep(t: string, d: string, c: char, isKey: bool)
    requires StringSoFar(Unicode(d), t) && StringPartOk(Unicode(d)) && StepString([], isKey, Unicode(d), c).Live?
    requires |d| < 3
    ensures StringSoFar(Unicode(d + [c]), t + [c])
  {
    var b :| BodyAnd(b, ['\\', 'u'] + d, t);
    Regrouped(BodyText(b), ['\\', 'u'] + d, [c]);
    Regrouped(['\\', 'u'], d, [c]);
    assert BodyAnd(b, ['\\', 'u'] + (d + [c]), t + [c]);
  }

  lemma UnicodeEnd(t: string, d: string, c: char)
    requires StringSoFar(Unicode(d), t) && StringPartOk(Unicode(d)) && |d| == 3 && IsHex(c)
    ensures StringSoFar(if IsHighSurrogate(d) then HighEnd else Plain, t + [c])
  {
    var b :| BodyAnd(b, ['\\', 'u'] + d, t);
    var u := ['\\', 'u'] + d + [c];
    CodeIs(d, c, u);
    Regrouped(BodyText(b), ['\\', 'u'] + d, [c]);
    if IsHighSurrogate(d) {
      assert IsHigh(u) && BodyAnd(b, u, t + [c]);
    } else {
      UnitDone(b, Code(u), t + [c]);
    }
  }

  lemma HighStep(t: string)
    requires StringSoFar(HighEnd, t)
    ensures StringSoFar(HighBackslash, t + "\\")
  {
    var b, high :| IsHigh(high) && BodyAnd(b, high, t);
    Regrouped(BodyText(b), high, "\\");
    assert IsHigh(high) && BodyAnd(b, high + "\\", t + "\\");
  }

  lemma HighBackslashStep(t: string)
    requires StringSoFar(HighBackslash, t)
    ensures StringSoFar(Low(""), t + "u")
  {
    var b, high :| IsHigh(high) && BodyAnd(b, high + "\\", t);
    Regrouped(BodyText(b), high + "\\", "u");
    assert high + "\\" + "u" == high + (['\\', 'u'] + "");
    assert IsHigh(high) && BodyAnd(b, high + (['\\', 'u'] + ""), t + "u");
  }

  lemma LowStep(t: string, d: string, c: char)
    requires StringSoFar(Low(d), t)
    ensures StringSoFar(Low(d + [c]), t + [c])
  {
    var b, high :| IsHigh(high) && BodyAnd(b, high + (['\\', 'u'] + d), t);
    Regrouped(BodyText(b), high + (['\\', 'u'] + d), [c]);
    assert high + (['\\', 'u'] + d) + [c] == high + (['\\', 'u'] + (d + [c]));
    assert IsHigh(high) && BodyAnd(b, high + (['\\', 'u'] + (d + [c])), t + [c]);
  }

  lemma LowEnd(t: string, d: string, c: char)
    requires StringSoFar(Low(d), t) && StringPartOk(Low(d)) && |d| == 3 && IsHex(c)
    ensures StringSoFar(Plain, t + [c])
  {
    var b, high :| IsHigh(high) && BodyAnd(b, high + (['\\', 'u'] + d), t);
    var u := ['\\', 'u'] + d + [c];
    CodeIs(d, c, u);
    Regrouped(BodyText(b), high + (['\\', 'u'] + d), [c]);
    assert high + (['\\', 'u'] + d) + [c] == high + u;
    UnitDone(b, Pair(high, u), t + [c]);
  }

  lemma StringStep(isKey: bool, part: StringPart, t: string, c: char)
    requires StringSoFar(part, t) && StringPartOk(part) && !(part.Plain? && c == '"')
    requires StepString([], isKey, part, c).Live?
    ensures var s := StepString([], isKey, part, c); s.mode.InString? && StringSoFar(s.mode.part, t + [c])
  {
    match part {
      case Plain => PlainStep(t, c);
      case Escape => EscapeStep(t, c);
      case Unicode(d) => if |d| < 3 { UnicodeStep(t, d, c, isKey); } else { UnicodeEnd(t, d, c); }
      case HighEnd => HighStep(t);
      case HighBackslash => HighBackslashStep(t);
      case Low(d) => if |d| < 3 { LowStep(t, d, c); } else { LowEnd(t, d, c); }
    }
  }

  // ----- what has been read, for every state -----

  /** A token that starts where a value does. */
  ghost predicate InToken(p: string, stack: seq<Frame>, q: string, t: string) { p == q + t && BeforeValue(q, stack) }

  ghost predicate InNum(p: string, stack: seq<Frame>, n: NumberPart) {
    exists q, t :: InToken(p, stack, q, t) && NumberSoFar(n, t)
  }

  ghost predicate InWord(p: string, stack: seq<Frame>, rest: string) {
    exists q, t :: InToken(p, stack, q, t) && rest != "" && IsLiteral(t + rest)
  }

  ghost predicate InText(p: string, stack: seq<Frame>, part: StringPart) {
    exists q, t :: InToken(p, stack, q, "\"" + t) && StringSoFar(part, t)
  }

  ghost predicate EmptySoFar(p: string, outer: seq<Frame>, open: string, q: string, b: string) {
    p == q + (open + b) && Blank(b) && BeforeValue(q, outer)
  }

  ghost predicate InEmpty(p: string, outer: seq<Frame>, open: string) { exists q, b :: EmptySoFar(p, outer, open, q, b) }

  /** An object that is open, up to where a name may start. */
  ghost predicate NamesSoFar(p: string, outer: seq<Frame>, q: string, e: string, b: string) {
    p == q + ("{" + (e + b)) && Earlier(e) && Blank(b) && BeforeValue(q, outer)
  }

  ghost predicate InNames(p: string, outer: seq<Frame>) { exists q, e, b :: NamesSoFar(p, outer, q, e, b) }

  ghost predicate NameBegun(p: string, outer: seq<Frame>, q: string, t: string, part: StringPart) {
    p == q + ("\"" + t) && InNames(q, outer) && StringSoFar(part, t)
  }

  ghost predicate InName(p: string, outer: seq<Frame>, part: StringPart) { exists q, t :: NameBegun(p, outer, q, t, part) }

  ghost predicate NamedSoFar(p: string, outer: seq<Frame>, q: string, e: string, n: Name) {
    p == q + ("{" + (e + NameText(n))) && Earlier(e) && GoodName(n) && BeforeValue(q, outer)
  }

  ghost predicate Named(p: string, outer: seq<Frame>) { exists q, e, n :: NamedSoFar(p, outer, q, e, n) }

  /** The grammar's reading of a text that leads to a state. */
  ghost predicate Reads(p: string, s: State) {
    s.Live? ==>
      var stack := s.stack;
      match s.mode
      case ExpectValue => BeforeValue(p, stack)
      case ArrayStart => stack != [] && InEmpty(p, stack[..|stack| - 1], "[")
      case ObjectStart => stack != [] && InEmpty(p, stack[..|stack| - 1], "{")
      case ExpectKey => stack != [] && InNames(p, stack[..|stack| - 1])
      case ExpectColon => |stack| >= 2 && stack[|stack| - 2] == Object && Named(p, stack[..|stack| - 2])
      case AfterValue => AfterAny(p, stack)
      case InString(isKey, part) => if isKey then stack != [] && InName(p, stack[..|stack| - 1], part) else InText(p, stack, part)
      case InLiteral(rest) => InWord(p, stack, rest)
      case InNumber(n) => InNum(p, stack, n)
  }

  // ----- one character -----

  lemma OneBlank(c: char)
    requires IsWhitespace(c)
    ensures Blank([c])
  {
  }

  lemma ItemBlank(mid: string, c: string)
    requires BeforeItem(mid) && Blank(c)
    ensures BeforeItem(mid + c)
  {
    if Blank(mid) {
      BlankPlus(mid, c);
    } else {
      var items, b :| ItemsAt(mid, items, b);
      BlankPlus(b, c);
      Regrouped(ItemsText(items), "," + b, c);
      Regrouped(",", b, c);
      assert ItemsAt(mid + c, items, b + c);
    }
  }

  lemma BeforeBlank(p: string, stack: seq<Frame>, c: string)
    requires BeforeValue(p, stack) && Blank(c)
    ensures BeforeValue(p + c, stack)
  {
    if stack == [] {
      BlankPlus(p, c);
    } else if Top(stack) == Array {
      ArrayWaits(p, stack[..|stack| - 1], c);
    } else {
      KeyWaits(p, stack[..|stack| - 2], c);
    }
  }

  lemma ArrayWaits(p: string, outer: seq<Frame>, c: string)
    requires SomeArray(p, outer) && Blank(c)
    ensures SomeArray(p + c, outer)
  {
    var q, mid :| OpenArray(p, outer, q, mid);
    ItemBlank(mid, c);
    TextAdded(q, "[", mid, c);
    assert OpenArray(p + c, outer, q, mid + c);
  }

  lemma KeyWaits(p: string, outer: seq<Frame>, c: string)
    requires SomeKey(p, outer) && Blank(c)
    ensures SomeKey(p + c, outer)
  {
    var q, e, n, b :| OpenKey(p, outer, q, e, n, b);
    BlankPlus(b, c);
    TextAdded(q, "{", e + (NameText(n) + (":" + b)), c);
    assert (e + (NameText(n) + (":" + b))) + c == e + (NameText(n) + (":" + (b + c)));
    assert OpenKey(p + c, outer, q, e, n, b + c);
  }

  lemma EmptyWaits(p: string, outer: seq<Frame>, open: string, c: string)
    requires InEmpty(p, outer, open) && Blank(c)
    ensures InEmpty(p + c, outer, open)
  {
    var q, b :| EmptySoFar(p, outer, open, q, b);
    BlankPlus(b, c);
    TextAdded(q, open, b, c);
    assert EmptySoFar(p + c, outer, open, q, b + c);
  }

  lemma NamesWait(p: string, outer: seq<Frame>, c: string)
    requires InNames(p, outer) && Blank(c)
    ensures InNames(p + c, outer)
  {
    var q, e, b :| NamesSoFar(p, outer, q, e, b);
    BlankPlus(b, c);
    TextAdded(q, "{", e + b, c);
    Regrouped(e, b, c);
    assert NamesSoFar(p + c, outer, q, e, b + c);
  }

  lemma NamedWaits(p: string, outer: seq<Frame>, c: string)
    requires Named(p, outer) && Blank(c)
    ensures Named(p + c, outer)
  {
    var q, e, n :| NamedSoFar(p, outer, q, e, n);
    var m := n.(after := n.after + c);
    BlankPlus(n.after, c);
    Regrouped(n.before + ("\"" + BodyText(n.body) + "\""), n.after, c);
    TextAdded(q, "{", e + NameText(n), c);
    Regrouped(e, NameText(n), c);
    assert NamedSoFar(p + c, outer, q, e, m);
  }

  /** An empty array is open up to where a value may start. */
  lemma EmptyIsOpen(p: string, outer: seq<Frame>)
    requires InEmpty(p, outer, "[")
    ensures SomeArray(p, outer)
  {
    var q, b :| EmptySoFar(p, outer, "[", q, b);
    assert OpenArray(p, outer, q, b);
  }

  lemma EmptyHasNames(p: string, outer: seq<Frame>)
    requires InEmpty(p, outer, "{")
    ensures InNames(p, outer)
  {
    var q, b :| EmptySoFar(p, outer, "{", q, b);
    assert "" + b == b;
    assert NamesSoFar(p, outer, q, "", b);
  }

  lemma Opens(p: string, stack: seq<Frame>, open: string)
    requires BeforeValue(p, stack)
    ensures InEmpty(p + open, stack, open)
  {
    assert open + "" == open;
    assert EmptySoFar(p + open, stack, open, p, "");
  }

  lemma EmptyCloses(p: string, outer: seq<Frame>, open: string, close: string)
    requires InEmpty(p, outer, open) && ((open == "[" && close == "]") || (open == "{" && close == "}"))
    ensures AfterAny(p + close, CloseValue(outer))
  {
    var q, b :| EmptySoFar(p, outer, open, q, b);
    var w := if open == "[" then EmptyArray(b) else EmptyObject(b);
    ValueAdded(q, outer, w);
    assert p + close == q + ValueText(w);
  }

  lemma ArrayCloses(p: string, outer: seq<Frame>)
    requires InSomeArray(p, outer)
    ensures AfterAny(p + "]", CloseValue(outer))
  {
    var q, items :| InArray(p, outer, q, items);
    ValueAdded(q, outer, ArrayOf(items));
    assert p + "]" == q + ValueText(ArrayOf(items));
  }

  lemma ObjectCloses(p: string, outer: seq<Frame>)
    requires InSomeObject(p, outer)
    ensures AfterAny(p + "}", CloseValue(outer))
  {
    var q, ms :| InObject(p, outer, q, ms);
    ValueAdded(q, outer, ObjectOf(ms));
    assert p + "}" == q + ValueText(ObjectOf(ms));
  }

  lemma ArrayGoesOn(p: string, outer: seq<Frame>)
    requires InSomeArray(p, outer)
    ensures SomeArray(p + ",", outer)
  {
    var q, items :| InArray(p, outer, q, items);
    var mid := ItemsText(items) + ",";
    assert "," + "" == ",";
    assert ItemsAt(mid, items, "");
    TextAdded(q, "[", ItemsText(items), ",");
    assert OpenArray(p + ",", outer, q, mid);
  }

  lemma ObjectGoesOn(p: string, outer: seq<Frame>)
    requires InSomeObject(p, outer)
    ensures InNames(p + ",", outer)
  {
    var q, ms :| InObject(p, outer, q, ms);
    var e := MembersText(ms) + ",";
    assert MembersAt(e, ms);
    TextAdded(q, "{", MembersText(ms), ",");
    assert e + "" == e;
    assert NamesSoFar(p + ",", outer, q, e, "");
  }

  lemma ColonStep(p: string, outer: seq<Frame>)
    requires Named(p, outer)
    ensures SomeKey(p + ":", outer)
  {
    var q, e, n :| NamedSoFar(p, outer, q, e, n);
    TextAdded(q, "{", e + NameText(n), ":");
    assert (e + NameText(n)) + ":" == e + (NameText(n) + (":" + ""));
    assert OpenKey(p + ":", outer, q, e, n, "");
  }

  /** What comes after a finished value. */
  lemma AfterStep(p: string, stack: seq<Frame>, c: char)
    requires AfterAny(p, stack)
    ensures Reads(p + [c], StepAfter(stack, c))
  {
    if IsWhitespace(c) {
      OneBlank(c);
      AfterBlank(p, stack, [c]);
    } else if stack != [] {
      var outer := stack[..|stack| - 1];
      if Top(stack) == Array {
        if c == ',' { ArrayGoesOn(p, outer); } else if c == ']' { ArrayCloses(p, outer); }
      } else if Top(stack) == Object {
        if c == ',' { ObjectGoesOn(p, outer); } else if c == '}' { ObjectCloses(p, outer); }
      }
    }
  }

  // ----- tokens -----

  lemma WordStarts(p: string, stack: seq<Frame>, c: char, rest: string)
    requires BeforeValue(p, stack) && StartValue([], c) == Live([], InLiteral(rest))
    ensures InWord(p + [c], stack, rest)
  {
    assert ['t'] + "rue" == "true" && ['f'] + "alse" == "false" && ['n'] + "ull" == "null";
    assert InToken(p + [c], stack, p, [c]);
  }

  lemma NumStarts(p: string, stack: seq<Frame>, c: char, n: NumberPart)
    requires BeforeValue(p, stack) && StartValue([], c) == Live([], InNumber(n))
    ensures InNum(p + [c], stack, n)
  {
    assert InToken(p + [c], stack, p, [c]) && NumberSoFar(n, [c]);
  }

  lemma TextStarts(p: string, stack: seq<Frame>)
    requires BeforeValue(p, stack)
    ensures InText(p + "\"", stack, Plain)
  {
    assert "\"" + "" == "\"" && BodyIs(Empty, "");
    assert InToken(p + "\"", stack, p, "\"" + "");
  }

  lemma StartStep(p: string, stack: seq<Frame>, c: char)
    requires BeforeValue(p, stack)
    ensures Reads(p + [c], StartValue(stack, c))
  {
    if c == '{' {
      Opens(p, stack, "{");
      assert (stack + [Object])[..|stack|] == stack;
    } else if c == '[' {
      Opens(p, stack, "[");
      assert (stack + [Array])[..|stack|] == stack;
    } else if c == '"' {
      TextStarts(p, stack);
    } else if c == 't' || c == 'f' || c == 'n' {
      WordStarts(p, stack, c, StartValue([], c).mode.rest);
    } else if c == '-' || IsDigit(c) {
      NumStarts(p, stack, c, StartValue([], c).mode.number);
    }
  }

  lemma WordStep(p: string, stack: seq<Frame>, rest: string, c: char)
    requires InWord(p, stack, rest)
    ensures Reads(p + [c], Step(Live(stack, InLiteral(rest)), c))
  {
    var q, t :| InToken(p, stack, q, t) && rest != "" && IsLiteral(t + rest);
    if c == rest[0] {
      Regrouped(q, t, [c]);
      assert t + rest == (t + [c]) + rest[1..];
      if |rest| == 1 {
        assert (t + [c]) + rest[1..] == t + [c];
        ValueAdded(q, stack, Literal(t + [c]));
      } else {
        assert InToken(p + [c], stack, q, t + [c]);
      }
    }
  }

  lemma NumEnds(p: string, stack: seq<Frame>, n: NumberPart)
    requires InNum(p, stack, n) && IsCompleteNumber(n)
    ensures AfterAny(p, CloseValue(stack))
  {
    var q, t :| InToken(p, stack, q, t) && NumberSoFar(n, t);
    var v := NumberDone(n, t);
    ValueAdded(q, stack, v);
  }

  lemma NumGoesOn(p: string, stack: seq<Frame>, n: NumberPart, c: char)
    requires InNum(p, stack, n) && StepNumber(n, c).Continue?
    ensures InNum(p + [c], stack, StepNumber(n, c).next)
  {
    var q, t :| InToken(p, stack, q, t) && NumberSoFar(n, t);
    NumberStep(n, t, c);
    Regrouped(q, t, [c]);
    assert InToken(p + [c], stack, q, t + [c]);
  }

  lemma NumStops(p: string, stack: seq<Frame>, n: NumberPart, c: char)
    requires InNum(p, stack, n) && StepNumber(n, c) == Ends
    ensures Reads(p + [c], StepAfter(CloseValue(stack), c))
  {
    NumEnds(p, stack, n);
    AfterStep(p, CloseValue(stack), c);
  }

  lemma NumberState(stack: seq<Frame>, n: NumberPart, c: char)
    ensures Step(Live(stack, InNumber(n)), c) ==
              match StepNumber(n, c)
              case Continue(next) => Live(stack, InNumber(next))
              case Ends => StepAfter(CloseValue(stack), c)
              case Bad => Dead
  {
  }

  lemma NumStep(p: string, stack: seq<Frame>, n: NumberPart, c: char, t: State)
    requires InNum(p, stack, n) && t == Step(Live(stack, InNumber(n)), c)
    ensures Reads(p + [c], t)
  {
    NumberState(stack, n, c);
    match StepNumber(n, c) {
      case Continue(next) => NumGoesOn(p, stack, n, c);
      case Ends => NumStops(p, stack, n, c);
      case Bad =>
    }
  }

  lemma TextEnds(p: string, stack: seq<Frame>)
    requires InText(p, stack, Plain)
    ensures AfterAny(p + "\"", CloseValue(stack))
  {
    var q, t :| InToken(p, stack, q, "\"" + t) && StringSoFar(Plain, t);
    var b :| BodyIs(b, t);
    ValueAdded(q, stack, Str(b));
    Regrouped(q, "\"" + t, "\"");
  }

  /** A step inside a string does not depend on the containers. */
  lemma InsideString(stack: seq<Frame>, isKey: bool, part: StringPart, c: char)
    requires !(part.Plain? && c == '"')
    ensures var s := StepString([], isKey, part, c);
            StepString(stack, isKey, part, c) == if s.Live? then Live(stack, s.mode) else Dead
    ensures var s := StepString([], isKey, part, c); s.Live? ==> s.mode.InString? && s.mode.isKey == isKey
  {
  }

  lemma TextGoesOn(p: string, stack: seq<Frame>, part: StringPart, c: char)
    requires InText(p, stack, part) && StringPartOk(part) && !(part.Plain? && c == '"') && StepString([], false, part, c).Live?
    ensures var s := StepString([], false, part, c); s.mode.InString? && InText(p + [c], stack, s.mode.part)
  {
    var q, t :| InToken(p, stack, q, "\"" + t) && StringSoFar(part, t);
    StringStep(false, part, t, c);
    TextAdded(q, "\"", t, [c]);
    assert InToken(p + [c], stack, q, "\"" + (t + [c]));
  }

  lemma TextStep(p: string, stack: seq<Frame>, part: StringPart, c: char)
    requires InText(p, stack, part) && StringPartOk(part)
    ensures Reads(p + [c], StepString(stack, false, part, c))
  {
    if part.Plain? && c == '"' {
      TextEnds(p, stack);
    } else {
      InsideString(stack, false, part, c);
      if StepString([], false, part, c).Live? {
        TextGoesOn(p, stack, part, c);
      }
    }
  }

  lemma NameStarts(p: string, outer: seq<Frame>)
    requires InNames(p, outer)
    ensures InName(p + "\"", outer, Plain)
  {
    assert "\"" + "" == "\"" && BodyIs(Empty, "");
    assert NameBegun(p + "\"", outer, p, "", Plain);
  }

  lemma NameEnds(p: string, outer: seq<Frame>)
    requires InName(p, outer, Plain)
    ensures Named(p + "\"", outer)
  {
    var r, t :| NameBegun(p, outer, r, t, Plain);
    var q, e, b :| NamesSoFar(r, outer, q, e, b);
    var body :| BodyIs(body, t);
    NameClosed(q, e, b, "\"" + t, NameText(Name(b, body, "")));
    assert NamedSoFar(p + "\"", outer, q, e, Name(b, body, ""));
  }

  lemma NameClosed(q: string, e: string, b: string, t: string, name: string)
    requires name == b + (t + "\"") + ""
    ensures ((q + ("{" + (e + b))) + t) + "\"" == q + ("{" + (e + name))
  {
    assert name == b + t + "\"";
    assert ((q + ("{" + (e + b))) + t) + "\"" == q + ("{" + (e + (b + t + "\"")));
  }

  lemma NameStep(p: string, outer: seq<Frame>, part: StringPart, c: char)
    requires InName(p, outer, part) && StringPartOk(part) && !(part.Plain? && c == '"') && StepString([], true, part, c).Live?
    ensures var s := StepString([], true, part, c); s.mode.InString? && InName(p + [c], outer, s.mode.part)
  {
    var q, t :| NameBegun(p, outer, q, t, part);
    StringStep(true, part, t, c);
    TextAdded(q, "\"", t, [c]);
    assert NameBegun(p + [c], outer, q, t + [c], StepString([], true, part, c).mode.part);
  }

  lemma KeyStep(p: string, stack: seq<Frame>, part: StringPart, c: char)
    requires stack != [] && Top(stack) == Object && InName(p, stack[..|stack| - 1], part) && StringPartOk(part)
    ensures Reads(p + [c], StepString(stack, true, part, c))
  {
    if part.Plain? && c == '"' {
      NameEnds(p, stack[..|stack| - 1]);
      assert (stack + [Key])[..|stack| - 1] == stack[..|stack| - 1];
    } else {
      InsideString(stack, true, part, c);
      if StepString([], true, part, c).Live? {
        NameStep(p, stack[..|stack| - 1], part, c);
      }
    }
  }

  // ----- every accepted text -----

  lemma ReadsStep(p: string, s: State, c: char)
    requires Valid(s) && Reads(p, s)
    ensures Reads(p + [c], Step(s, c))
  {
    if s.Live? {
      if IsWhitespace(c) { OneBlank(c); }
      match s.mode {
        case ExpectValue => if IsWhitespace(c) { BeforeBlank(p, s.stack, [c]); } else { StartStep(p, s.stack, c); }
        case ArrayStart => ArrayStartStep(p, s.stack, c);
        case ObjectStart => ObjectStartStep(p, s.stack, c);
        case ExpectKey =>
          if IsWhitespace(c) { NamesWait(p, s.stack[..|s.stack| - 1], [c]); }
          else if c == '"' { NameStarts(p, s.stack[..|s.stack| - 1]); }
        case ExpectColon =>
          if IsWhitespace(c) { NamedWaits(p, s.stack[..|s.stack| - 2], [c]); }
          else if c == ':' { ColonStep(p, s.stack[..|s.stack| - 2]); }
        case AfterValue => AfterStep(p, s.stack, c);
        case InString(isKey, part) => if isKey { KeyStep(p, s.stack, part, c); } else { TextStep(p, s.stack, part, c); }
        case InLiteral(rest) => WordStep(p, s.stack, rest, c);
        case InNumber(n) => NumStep(p, s.stack, n, c, Step(s, c));
      }
    }
  }

  lemma ArrayStartStep(p: string, stack: seq<Frame>, c: char)
    requires stack != [] && Top(stack) == Array && InEmpty(p, stack[..|stack| - 1], "[")
    ensures Reads(p + [c], Step(Live(stack, ArrayStart), c))
  {
    var outer := stack[..|stack| - 1];
    if IsWhitespace(c) {
      OneBlank(c);
      EmptyWaits(p, outer, "[", [c]);
    } else if c == ']' {
      EmptyCloses(p, outer, "[", "]");
    } else {
      EmptyIsOpen(p, outer);
      StartStep(p, stack, c);
    }
  }

  lemma ObjectStartStep(p: string, stack: seq<Frame>, c: char)
    requires stack != [] && Top(stack) == Object && InEmpty(p, stack[..|stack| - 1], "{")
    ensures Reads(p + [c], Step(Live(stack, ObjectStart), c))
  {
    var outer := stack[..|stack| - 1];
    if IsWhitespace(c) {
      OneBlank(c);
      EmptyWaits(p, outer, "{", [c]);
    } else if c == '}' {
      EmptyCloses(p, outer, "{", "}");
    } else if c == '"' {
      EmptyHasNames(p, outer);
      NameStarts(p, outer);
    }
  }

  lemma {:induction false} RunReads(p: string)
    ensures Valid(Run(START, p)) && Reads(p, Run(START, p))
    decreases |p|
  {
    if p != "" {
      var n := |p| - 1;
      RunReads(p[..n]);
      RunLast(START, p);
      ReadsStep(p[..n], Run(START, p[..n]), p[n]);
      StepKeepsValid(Run(START, p[..n]), p[n]);
      assert p == p[..n] + [p[n]];
    }
  }

  /** The texts that are accepted are those that the grammar derives. */
  lemma AcceptsExactly(text: string)
    ensures Accepts(text) <==> IsJsonText(text)
  {
    if Accepts(text) {
      RunReads(text);
      var s := Run(START, text);
      if s.mode.InNumber? {
        NumEnds(text, s.stack, s.mode.number);
      }
      var t :| AtTop(text, t);
    }
    if p :| GoodPadded(p) && PaddedText(p) == text {
      DerivedIsAccepted(p);
    }
  }
}
