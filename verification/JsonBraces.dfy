/** common/chat-peg-parser.cpp:39-67: what `json_brace_depth` counts in JSON texts, finished or not. */
module JsonBraces {
  import opened Json
  import P = PegMapper

  function Objects(stack: seq<Frame>): nat {
    if stack == [] then 0
    else Objects(stack[..|stack| - 1]) + if Top(stack) == Object then 1 else 0
  }

  lemma ObjectsSnoc(stack: seq<Frame>, f: Frame)
    ensures Objects(stack + [f]) == Objects(stack) + if f == Object then 1 else 0
  {
    assert (stack + [f])[..|stack|] == stack;
  }

  /** The scan counts the objects that are open and knows whether a string is, and whether it stopped at a backslash. */
  predicate Counts(scan: P.Scan, s: State) {
    s.Live? ==>
      && scan.depth == Objects(s.stack)
      && (scan.inString <==> s.mode.InString?)
      && (scan.escaped <==> s.mode.InString? && (s.mode.part.Escape? || s.mode.part.HighBackslash?))
  }

  lemma ClosedObjects(stack: seq<Frame>)
    ensures Objects(CloseValue(stack)) == Objects(stack)
  {
  }

  lemma AfterCounts(scan: P.Scan, stack: seq<Frame>, c: char)
    requires Counts(scan, Live(stack, AfterValue))
    ensures Counts(P.ScanChar(scan, c), StepAfter(stack, c))
  {
    if stack != [] {
      ClosedObjects(stack[..|stack| - 1]);
    }
  }

  lemma StringCounts(scan: P.Scan, stack: seq<Frame>, isKey: bool, part: StringPart, c: char)
    requires Counts(scan, Live(stack, InString(isKey, part)))
    ensures Counts(P.ScanChar(scan, c), StepString(stack, isKey, part, c))
  {
    if part.Plain? && c == '"' {
      if isKey { ObjectsSnoc(stack, Key); } else { ClosedObjects(stack); }
    }
  }

  lemma OpenCounts(scan: P.Scan, next: P.Scan, stack: seq<Frame>, f: Frame, mode: Mode)
    requires !scan.inString && !scan.escaped && scan.depth == Objects(stack) && !mode.InString?
    requires next == P.Scan(scan.depth + (if f == Object then 1 else 0), false, false)
    ensures Counts(next, Live(stack + [f], mode))
  {
    ObjectsSnoc(stack, f);
  }

  lemma StartCounts(scan: P.Scan, stack: seq<Frame>, c: char)
    requires !scan.inString && !scan.escaped && scan.depth == Objects(stack)
    ensures Counts(P.ScanChar(scan, c), StartValue(stack, c))
  {
    if c == '{' {
      OpenCounts(scan, P.ScanChar(scan, c), stack, Object, ObjectStart);
    } else if c == '[' {
      OpenCounts(scan, P.ScanChar(scan, c), stack, Array, ArrayStart);
    }
  }

  lemma EndCounts(scan: P.Scan, stack: seq<Frame>, c: char)
    requires !scan.inString && !scan.escaped && scan.depth == Objects(stack) && stack != []
    requires (c == '}' && Top(stack) == Object) || (c == ']' && Top(stack) == Array)
    ensures Counts(P.ScanChar(scan, c), EndContainer(stack))
  {
    ClosedObjects(stack[..|stack| - 1]);
  }

  lemma LiteralCounts(scan: P.Scan, stack: seq<Frame>, rest: string, c: char)
    requires Counts(scan, Live(stack, InLiteral(rest))) && LiteralRest(rest)
    ensures Counts(P.ScanChar(scan, c), Step(Live(stack, InLiteral(rest)), c))
  {
    ClosedObjects(stack);
    assert rest[0] in rest;
  }

  lemma StepCounts(scan: P.Scan, s: State, c: char)
    requires Valid(s) && Counts(scan, s)
    ensures Counts(P.ScanChar(scan, c), Step(s, c))
  {
    if s.Live? {
      match s.mode {
        case InString(isKey, part) => StringCounts(scan, s.stack, isKey, part, c);
        case AfterValue => AfterCounts(scan, s.stack, c);
        case InNumber(_) =>
          ClosedObjects(s.stack);
          AfterCounts(scan, CloseValue(s.stack), c);
        case InLiteral(rest) => LiteralCounts(scan, s.stack, rest, c);
        case ArrayStart => if c == ']' { EndCounts(scan, s.stack, c); } else { StartCounts(scan, s.stack, c); }
        case ObjectStart => if c == '}' { EndCounts(scan, s.stack, c); }
        case ExpectValue => StartCounts(scan, s.stack, c);
        case _ =>
      }
    }
  }

  lemma {:induction false} RunCounts(scan: P.Scan, s: State, text: string)
    requires Valid(s) && Counts(scan, s)
    ensures Counts(P.ScanAll(scan, text), Run(s, text))
    decreases text
  {
    if text != "" {
      StepCounts(scan, s, text[0]);
      StepKeepsValid(s, text[0]);
      RunCounts(P.ScanChar(scan, text[0]), Step(s, text[0]), text[1..]);
    }
  }

  /** In whatever begins a JSON text, `json_brace_depth` is the number of objects that are open. */
  lemma DepthIsOpenObjects(text: string)
    requires Run(START, text).Live?
    ensures P.BraceDepth(text) == Objects(Run(START, text).stack)
  {
    assert Valid(START);
    RunCounts(P.Scan(0, false, false), START, text);
  }

  /** A whole JSON text needs no closing braces. */
  lemma DocumentsAreBalanced(text: string)
    requires Accepts(text)
    ensures P.BraceDepth(text) == 0
  {
    DepthIsOpenObjects(text);
    ClosedObjects(Run(START, text).stack);
  }
}
