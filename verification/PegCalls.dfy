/**
  common/chat-peg-parser.cpp:234-407: what the message is, said of the nodes of a parse alone: its texts, and for each
  tool call that has been named its name, its id and, when they were given as JSON, its arguments.
  */
module PegCalls {
  import opened Basics
  import opened Chat
  import opened JsonStrings
  import opened PegValues
  import opened PegMapper
  import opened PegStreaming
  import Json
  import JsonBraces

  // ----- content and reasoning -----

  /** The texts of all nodes with one tag, in order. */
  function Texts(nodes: seq<Node>, tag: Tag): string {
    if nodes == [] then ""
    else var n := |nodes| - 1; Texts(nodes[..n], tag) + if nodes[n].tag == tag then nodes[n].text else ""
  }

  predicate SameTexts(s: State, t: State) { t.msg.content == s.msg.content && t.msg.reasoning == s.msg.reasoning }

  lemma SetKeepsTexts(s: State, call: ToolCall, text: string)
    ensures Tool(s).Some? ==> SameTexts(s, SetTool(s, call))
    ensures SameTexts(s, SetTarget(s, text))
  {
  }

  lemma NameKeepsTexts(s: State, name: string)
    requires Tool(s).Some?
    ensures SameTexts(s, NameTool(s, name))
  {
  }

  lemma CloseKeepsTexts(s: State)
    requires Tool(s).Some?
    ensures SameTexts(s, CloseTool(s))
  {
  }

  lemma ToolKeepsTexts(s: State, node: Node)
    requires Tool(s).Some?
    ensures SameTexts(s, MapToolNode(s, node))
  {
    var text, call := node.text, Tool(s).value;
    match node.tag {
      case ToolId => SetKeepsTexts(s, call.(id := Unquote(TrimTrailing(text))), "");
      case ToolName => NameKeepsTexts(s, TrimTrailing(text));
      case ToolArgs => SetKeepsTexts(s, call, TrimTrailing(text));
      case ArgName => SetKeepsTexts(s, call, (if Target(s) == "" then "{" else Target(s)) + ArgEntry(s.argCount, text));
      case ArgStringValue => SetKeepsTexts(s, call, Target(s) + ValueText(s.quotePending, text));
      case ArgValue(p) => SetKeepsTexts(s, call, Target(s) + UntypedAdds(s.quotePending, p, ValueContent(text)));
      case ArgClose => SetKeepsTexts(s, call, Target(s) + "\"");
      case ToolClose => CloseKeepsTexts(s);
      case ReasoningTag =>
      case ContentTag =>
      case ToolOpen =>
      case ArgOpen =>
      case OtherTag =>
    }
  }

  lemma StepTexts(s: State, node: Node)
    ensures var m := MapNode(s, node).msg;
            && m.content == s.msg.content + (if node.tag == ContentTag then node.text else "")
            && m.reasoning == s.msg.reasoning + if node.tag == ReasoningTag then node.text else ""
  {
    if Tool(s).Some? {
      ToolKeepsTexts(s, node);
    }
  }

  lemma {:induction false} MappedTexts(nodes: seq<Node>)
    ensures var m := MapAll(START, nodes).msg; m.content == Texts(nodes, ContentTag) && m.reasoning == Texts(nodes, ReasoningTag)
  {
    if nodes != [] {
      var n := |nodes| - 1;
      MappedTexts(nodes[..n]);
      StepTexts(MapAll(START, nodes[..n]), nodes[n]);
    }
  }

  /** The content is the content nodes, and the reasoning the reasoning nodes, whatever stands between them. */
  lemma TextsOfMessage(nodes: seq<Node>)
    ensures FromAst(nodes).content == Texts(nodes, ContentTag) && FromAst(nodes).reasoning == Texts(nodes, ReasoningTag)
  {
    FlushAddsNothing(nodes);
    MappedTexts(nodes);
  }

  // ----- the parts of a parse, one for each call -----

  /** The nodes behind each tool-open. */
  function Parts(nodes: seq<Node>): seq<seq<Node>> {
    if nodes == [] then []
    else
      var n := |nodes| - 1;
      var before := Parts(nodes[..n]);
      if nodes[n].tag.ToolOpen? then before + [[]]
      else if before == [] then []
      else before[..|before| - 1] + [before[|before| - 1] + [nodes[n]]]
  }

  predicate HasClose(part: seq<Node>) { exists n :: n in part && n.tag.ToolClose? }

  /** A call is shown once it is named, unless it was closed before. */
  predicate Shown(part: seq<Node>) {
    if part == [] then false
    else var n := |part| - 1; Shown(part[..n]) || (part[n].tag.ToolName? && !HasClose(part[..n]))
  }

  function ShownParts(parts: seq<seq<Node>>): seq<seq<Node>> {
    if parts == [] then []
    else var n := |parts| - 1; ShownParts(parts[..n]) + if Shown(parts[n]) then [parts[n]] else []
  }

  function NameOf(part: seq<Node>): string {
    if part == [] then ""
    else var n := |part| - 1; if part[n].tag.ToolName? then TrimTrailing(part[n].text) else NameOf(part[..n])
  }

  function IdOf(part: seq<Node>): string {
    if part == [] then ""
    else var n := |part| - 1; if part[n].tag.ToolId? then Unquote(TrimTrailing(part[n].text)) else IdOf(part[..n])
  }

  /** A node that gives the arguments as a JSON object. */
  predicate GivesObject(node: Node) { node.tag.ToolArgs? && TrimTrailing(node.text) != "" && node.text[0] == '{' }

  /** The arguments when they are given as JSON: the last object, closed when the call is. */
  function ArgsOf(part: seq<Node>): string {
    if part == [] then ""
    else
      var n := |part| - 1;
      var args := ArgsOf(part[..n]);
      if GivesObject(part[n]) then TrimTrailing(part[n].text)
      else if part[n].tag.ToolName? && args == "" then "{"
      else if part[n].tag.ToolClose? then args + Braces(BraceDepth(args))
      else args
  }

  /** A call that is named in earnest and whose arguments are not given one by one. */
  ghost predicate JsonFormat(part: seq<Node>) {
    forall n :: n in part ==>
      && !n.tag.ArgName? && !n.tag.ArgStringValue? && !n.tag.ArgValue?
      && (n.tag.ToolName? ==> TrimTrailing(n.text) != "")
  }

  /** The call that a part of the parse stands for. */
  ghost predicate StandsFor(call: ToolCall, part: seq<Node>) {
    && call.name == NameOf(part) && call.id == IdOf(part)
    && (JsonFormat(part) ==> call.arguments == ArgsOf(part))
  }

  ghost predicate AllStandFor(calls: seq<ToolCall>, parts: seq<seq<Node>>) {
    |calls| == |parts| && forall i :: 0 <= i < |calls| ==> StandsFor(calls[i], parts[i])
  }

  // ----- what the mapper knows -----

  /** The call that is being read, and whether it is seen. */
  ghost predicate Reads(s: State, part: seq<Node>) {
    if Shown(part) then
      && s.pending.None? && s.current == LastCall && s.msg.calls != [] && StandsFor(s.msg.calls[|s.msg.calls| - 1], part)
      && (JsonFormat(part) ==> s.buffer == "" && !s.quotePending && NameOf(part) != "")
    else if HasClose(part) then s.pending.None? && s.current == PendingTool
    else
      && s.pending.Some? && s.current == PendingTool
      && s.pending.value.name == "" && s.pending.value.arguments == "" && s.pending.value.id == IdOf(part)
      && (JsonFormat(part) ==> s.buffer == ArgsOf(part) && !s.quotePending)
  }

  ghost predicate Knows(s: State, parts: seq<seq<Node>>) {
    if parts == [] then s.pending.None? && s.current == NoTool && s.msg.calls == []
    else
      var n := |parts| - 1;
      && Reads(s, parts[n])
      && AllStandFor(if Shown(parts[n]) then s.msg.calls[..|s.msg.calls| - 1] else s.msg.calls, ShownParts(parts[..n]))
  }

  function Earlier(s: State, part: seq<Node>): seq<ToolCall> {
    if Shown(part) && s.msg.calls != [] then s.msg.calls[..|s.msg.calls| - 1] else s.msg.calls
  }

  predicate PlainNode(n: Node) { !n.tag.ArgName? && !n.tag.ArgStringValue? && !n.tag.ArgValue? }

  lemma PartSnoc(part: seq<Node>, n: Node)
    ensures var p := part + [n];
            && p[..|p| - 1] == part && p[|p| - 1] == n
            && (HasClose(p) <==> HasClose(part) || n.tag.ToolClose?)
            && (Shown(p) <==> Shown(part) || (n.tag.ToolName? && !HasClose(part)))
            && (JsonFormat(p) <==> JsonFormat(part) && PlainNode(n) && (n.tag.ToolName? ==> TrimTrailing(n.text) != ""))
  {
    var p := part + [n];
    assert p[..|p| - 1] == part;
    assert n in p;
    assert forall x :: x in p <==> x in part || x == n;
  }

  /** A call that was closed before it was named is gone. */
  lemma DroppedStep(s: State, part: seq<Node>, n: Node)
    requires Reads(s, part) && !Shown(part) && HasClose(part) && !n.tag.ToolOpen?
    ensures Reads(MapNode(s, n), part + [n]) && MapNode(s, n).msg.calls == s.msg.calls
  {
    PartSnoc(part, n);
    assert Tool(s).None?;
  }

  lemma PendingStep(s: State, part: seq<Node>, n: Node)
    requires Reads(s, part) && !Shown(part) && !HasClose(part) && !n.tag.ToolOpen?
    ensures Reads(MapNode(s, n), part + [n]) && Earlier(MapNode(s, n), part + [n]) == s.msg.calls
  {
    PartSnoc(part, n);
    assert Tool(s) == s.pending;
    match n.tag {
      case ToolName => PendingName(s, part, n);
      case _ =>
    }
  }

  lemma PendingName(s: State, part: seq<Node>, n: Node)
    requires Reads(s, part) && !Shown(part) && !HasClose(part) && n.tag.ToolName?
    ensures Reads(MapNode(s, n), part + [n]) && Earlier(MapNode(s, n), part + [n]) == s.msg.calls
  {
    PartSnoc(part, n);
  }

  /** The last call of the message is the one that is read. */
  ghost predicate AtLast(s: State) { s.pending.None? && s.current == LastCall && s.msg.calls != [] }

  function LastOf(s: State): ToolCall
    requires s.msg.calls != []
  {
    s.msg.calls[|s.msg.calls| - 1]
  }

  /** A change of the last call and of nothing before it. */
  ghost predicate OnlyLast(s: State, t: State, call: ToolCall) {
    && AtLast(s) && AtLast(t) && t.msg.calls[..|t.msg.calls| - 1] == s.msg.calls[..|s.msg.calls| - 1] && LastOf(t) == call
  }

  lemma SetLast(s: State, call: ToolCall)
    requires AtLast(s)
    ensures Tool(s) == Some(LastOf(s)) && OnlyLast(s, SetTool(s, call), call)
  {
  }

  lemma TargetLast(s: State, text: string)
    requires AtLast(s)
    ensures OnlyLast(s, SetTarget(s, text), if LastOf(s).name == "" then LastOf(s) else LastOf(s).(arguments := text))
    ensures LastOf(s).name != "" ==> SetTarget(s, text).buffer == s.buffer && SetTarget(s, text).quotePending == s.quotePending
  {
    SetLast(s, LastOf(s).(arguments := text));
  }

  /** Arguments reach the last call of the message directly. */
  ghost predicate Direct(s: State) { AtLast(s) && s.buffer == "" && !s.quotePending && LastOf(s).name != "" }

  /** What a node does to the name and the id of the call that is seen. */
  ghost predicate Renames(s: State, t: State, n: Node) {
    && AtLast(s) && AtLast(t) && t.msg.calls[..|t.msg.calls| - 1] == s.msg.calls[..|s.msg.calls| - 1]
    && LastOf(t).name == (if n.tag.ToolName? then TrimTrailing(n.text) else LastOf(s).name)
    && LastOf(t).id == if n.tag.ToolId? then Unquote(TrimTrailing(n.text)) else LastOf(s).id
  }

  /** Writing to the arguments, and whatever becomes of the counter and the flag. */
  lemma WritesOnly(s: State, n: Node, text: string, count: nat, quote: bool)
    requires AtLast(s) && !n.tag.ToolName? && !n.tag.ToolId?
    ensures Renames(s, SetTarget(s, text).(argCount := count, quotePending := quote), n)
  {
    TargetLast(s, text);
  }

  lemma LastArgName(s: State, n: Node)
    requires AtLast(s) && n.tag.ArgName?
    ensures Renames(s, MapNode(s, n), n)
  {
    SetLast(s, LastOf(s));
    var target := if Target(s) == "" then "{" else Target(s);
    WritesOnly(s, n, target + ArgEntry(s.argCount, n.text), s.argCount + 1, s.quotePending);
  }

  lemma LastUntyped(s: State, n: Node)
    requires AtLast(s) && n.tag.ArgValue?
    ensures Renames(s, MapNode(s, n), n)
  {
    SetLast(s, LastOf(s));
    var add := UntypedAdds(s.quotePending, n.tag.partial, ValueContent(n.text));
    WritesOnly(s, n, Target(s) + add, s.argCount, LeavesOpen(s.quotePending, n.tag.partial, ValueContent(n.text)));
  }

  lemma LastArgument(s: State, n: Node)
    requires AtLast(s) && (!PlainNode(n) || n.tag.ArgClose? || n.tag.ToolArgs?)
    ensures Renames(s, MapNode(s, n), n)
  {
    match n.tag {
      case ArgName => LastArgName(s, n);
      case ArgValue(_) => LastUntyped(s, n);
      case ArgStringValue => LastString(s, n);
      case ArgClose =>
        SetLast(s, LastOf(s));
        WritesOnly(s, n, Target(s) + "\"", s.argCount, false);
      case ToolArgs =>
        SetLast(s, LastOf(s));
        WritesOnly(s, n, TrimTrailing(n.text), s.argCount, s.quotePending);
    }
  }

  lemma LastString(s: State, n: Node)
    requires AtLast(s) && n.tag.ArgStringValue?
    ensures Renames(s, MapNode(s, n), n)
  {
    SetLast(s, LastOf(s));
    WritesOnly(s, n, Target(s) + ValueText(s.quotePending, n.text), s.argCount, true);
  }

  lemma LastName(s: State, n: Node)
    requires AtLast(s) && n.tag.ToolName?
    ensures Renames(s, MapNode(s, n), n)
    ensures Direct(s) && TrimTrailing(n.text) != "" ==>
              var t := MapNode(s, n);
              Direct(t) && LastOf(t).arguments == if LastOf(s).arguments == "" then "{" else LastOf(s).arguments
  {
    SetLast(s, LastOf(s));
  }

  lemma LastClose(s: State, n: Node)
    requires AtLast(s) && n.tag.ToolClose?
    ensures Renames(s, MapNode(s, n), n)
    ensures Direct(s) ==>
              var t, args := MapNode(s, n), LastOf(s).arguments;
              Direct(t) && LastOf(t).arguments == args + Braces(BraceDepth(args))
  {
    SetLast(s, LastOf(s));
    assert LastOf(s).arguments + "" == LastOf(s).arguments;
  }

  lemma LastRenames(s: State, n: Node)
    requires AtLast(s) && !n.tag.ToolOpen?
    ensures Renames(s, MapNode(s, n), n)
  {
    SetLast(s, LastOf(s));
    match n.tag {
      case ToolName => LastName(s, n);
      case ToolClose => LastClose(s, n);
      case ToolId =>
      case ReasoningTag =>
      case ContentTag =>
      case ArgOpen =>
      case OtherTag =>
      case _ => LastArgument(s, n);
    }
  }

  /** Arguments that are given as JSON. */
  lemma LastJson(s: State, n: Node)
    requires Direct(s) && PlainNode(n) && !n.tag.ToolOpen? && (n.tag.ToolName? ==> TrimTrailing(n.text) != "")
    ensures var t, args := MapNode(s, n), LastOf(s).arguments;
            && Direct(t)
            && LastOf(t).arguments ==
                 if GivesObject(n) then TrimTrailing(n.text)
                 else if n.tag.ToolName? && args == "" then "{"
                 else if n.tag.ToolClose? then args + Braces(BraceDepth(args))
                 else args
  {
    SetLast(s, LastOf(s));
    match n.tag {
      case ToolName => LastName(s, n);
      case ToolClose => LastClose(s, n);
      case ToolArgs => TargetLast(s, TrimTrailing(n.text));
      case _ =>
    }
  }

  lemma ShownStep(s: State, part: seq<Node>, n: Node)
    requires Reads(s, part) && Shown(part) && !n.tag.ToolOpen?
    ensures Reads(MapNode(s, n), part + [n]) && Earlier(MapNode(s, n), part + [n]) == Earlier(s, part)
  {
    PartSnoc(part, n);
    LastRenames(s, n);
    if JsonFormat(part + [n]) {
      LastJson(s, n);
    }
  }

  // ----- whole parses -----

  lemma NodeReads(s: State, part: seq<Node>, n: Node)
    requires Reads(s, part) && !n.tag.ToolOpen?
    ensures Reads(MapNode(s, n), part + [n]) && Earlier(MapNode(s, n), part + [n]) == Earlier(s, part)
  {
    if Shown(part) {
      ShownStep(s, part, n);
    } else if HasClose(part) {
      PartSnoc(part, n);
      DroppedStep(s, part, n);
    } else {
      PendingStep(s, part, n);
    }
  }

  lemma OpenReads(s: State, n: Node)
    requires n.tag.ToolOpen?
    ensures Reads(MapNode(s, n), []) && MapNode(s, n).msg.calls == s.msg.calls
  {
  }

  lemma AllStandSnoc(calls: seq<ToolCall>, parts: seq<seq<Node>>, init: seq<ToolCall>, initParts: seq<seq<Node>>)
    requires calls != [] && parts != [] && calls[..|calls| - 1] == init && parts[..|parts| - 1] == initParts
    requires AllStandFor(init, initParts) && StandsFor(calls[|calls| - 1], parts[|parts| - 1])
    ensures AllStandFor(calls, parts)
  {
    assert forall i :: 0 <= i < |init| ==> calls[i] == init[i] && parts[i] == initParts[i];
  }

  lemma ShownInit(parts: seq<seq<Node>>, init: seq<seq<Node>>)
    requires parts != [] && Shown(parts[|parts| - 1]) && init == ShownParts(parts[..|parts| - 1])
    ensures var all := ShownParts(parts); all != [] && all[..|all| - 1] == init && all[|all| - 1] == parts[|parts| - 1]
  {
  }

  /** The calls of the message are the parts that are shown. */
  lemma KnownCalls(s: State, parts: seq<seq<Node>>)
    requires Knows(s, parts)
    ensures AllStandFor(s.msg.calls, ShownParts(parts))
  {
    if parts != [] && Shown(parts[|parts| - 1]) {
      var init := ShownParts(parts[..|parts| - 1]);
      ShownInit(parts, init);
      AllStandSnoc(s.msg.calls, ShownParts(parts), s.msg.calls[..|s.msg.calls| - 1], init);
    }
  }

  lemma KnowsStep(s: State, parts: seq<seq<Node>>, n: Node)
    requires Knows(s, parts) && !n.tag.ToolOpen? && parts != []
    ensures var k := |parts| - 1; Knows(MapNode(s, n), parts[..k] + [parts[k] + [n]])
  {
    var k := |parts| - 1;
    NodeReads(s, parts[k], n);
    assert (parts[..k] + [parts[k] + [n]])[..k] == parts[..k];
  }

  lemma KnowsOpen(s: State, parts: seq<seq<Node>>, n: Node)
    requires Knows(s, parts) && n.tag.ToolOpen?
    ensures Knows(MapNode(s, n), parts + [[]])
  {
    KnownCalls(s, parts);
    OpenReads(s, n);
    assert (parts + [[]])[..|parts|] == parts;
  }

  lemma {:induction false} MappedCalls(nodes: seq<Node>)
    ensures Knows(MapAll(START, nodes), Parts(nodes))
  {
    if nodes != [] {
      var n := |nodes| - 1;
      var s, parts := MapAll(START, nodes[..n]), Parts(nodes[..n]);
      MappedCalls(nodes[..n]);
      if nodes[n].tag.ToolOpen? {
        KnowsOpen(s, parts, nodes[n]);
      } else if parts != [] {
        KnowsStep(s, parts, nodes[n]);
      }
    }
  }

  /**
    The calls of a message are the parts of the parse that are named before they are closed, in order: each with the
    last name and the last id given for it and, when its arguments are given as JSON, with the last object.
    */
  lemma CallsOfMessage(nodes: seq<Node>)
    ensures AllStandFor(FromAst(nodes).calls, ShownParts(Parts(nodes)))
  {
    FlushAddsNothing(nodes);
    MappedCalls(nodes);
    KnownCalls(MapAll(START, nodes), Parts(nodes));
  }

  // ----- arguments that are a JSON document -----

  /** The last object that is given. */
  function ObjectOf(part: seq<Node>): string {
    if part == [] then ""
    else var n := |part| - 1; if GivesObject(part[n]) then TrimTrailing(part[n].text) else ObjectOf(part[..n])
  }

  /** Arguments that are a whole JSON document are taken as they are, without the blanks behind them. */
  lemma {:induction false} ObjectIsKept(part: seq<Node>)
    requires Json.Accepts(ObjectOf(part))
    ensures ArgsOf(part) == ObjectOf(part)
  {
    JsonBraces.DocumentsAreBalanced(ObjectOf(part));
    if part != [] && !GivesObject(part[|part| - 1]) {
      ObjectIsKept(part[..|part| - 1]);
      assert Braces(0) == "" && ObjectOf(part) + "" == ObjectOf(part);
    }
  }

  /** `trim_trailing_space`: no blank is left at the end, and nothing else is gone. */
  lemma {:induction false} TrimmedExactly(s: string)
    ensures var t := TrimTrailing(s);
            && t <= s && (t != "" ==> !IsSpace(t[|t| - 1])) && forall i :: |t| <= i < |s| ==> IsSpace(s[i])
  {
    if s != "" && IsSpace(s[|s| - 1]) {
      TrimmedExactly(s[..|s| - 1]);
    }
  }

  // ----- single values, and what is left open -----

  lemma TargetSet(s: State, text: string, quote: bool)
    requires Tool(s).Some?
    ensures var t := SetTarget(s, text).(quotePending := quote); Target(t) == text && Tool(t).Some? && t.quotePending == quote
  {
  }

  lemma StringAdds(s: State, v: Node, add: string)
    requires Tool(s).Some? && v.tag.ArgStringValue? && add == ValueText(s.quotePending, v.text)
    ensures var t := MapNode(s, v); Target(t) == Target(s) + add && Tool(t).Some? && t.quotePending
  {
    TargetSet(s, Target(s) + add, true);
  }

  lemma OpenForgets(s: State, a: Node)
    requires a.tag.ArgOpen?
    ensures var t := MapNode(s, a); Target(t) == Target(s) && Tool(t) == Tool(s) && !t.quotePending
  {
  }

  lemma ValueTexts(text: string)
    ensures ValueText(false, text) == "\"" + Escape(ValueContent(text))
    ensures ValueContent(text) != "" ==> ValueText(true, text) == Escape(ValueContent(text))
  {
    assert "" + Escape(ValueContent(text)) == Escape(ValueContent(text));
  }

  /** Whatever was open before, a value behind an arg-open starts a string of its own. */
  lemma FirstValue(s: State, a: Node, v: Node)
    requires Tool(s).Some? && a.tag.ArgOpen? && v.tag.ArgStringValue?
    ensures var t := MapNode(MapNode(s, a), v);
            Tool(t).Some? && t.quotePending && Target(t) == Target(s) + ("\"" + Escape(ValueContent(v.text)))
  {
    OpenForgets(s, a);
    ValueTexts(v.text);
    StringAdds(MapNode(s, a), v, ValueText(false, v.text));
  }

  /** A value that follows another goes on with its string. */
  lemma NextValue(s: State, v: Node)
    requires Tool(s).Some? && s.quotePending && v.tag.ArgStringValue? && ValueContent(v.text) != ""
    ensures Target(MapNode(s, v)) == Target(s) + Escape(ValueContent(v.text))
  {
    ValueTexts(v.text);
    StringAdds(s, v, ValueText(true, v.text));
  }

  /** Only objects, and keys whose value is still being read, are open. */
  ghost predicate ObjectsOnly(stack: seq<Json.Frame>) {
    forall i :: 0 <= i < |stack| ==> stack[i] == Json.Object || stack[i] == Json.Key
  }

  lemma OneBrace(stack: seq<Json.Frame>, n: nat) returns (rest: seq<Json.Frame>)
    requires ObjectsOnly(stack) && Json.KeysInObjects(stack) && stack != [] && Json.Top(stack) == Json.Object
    requires n == JsonBraces.Objects(stack)
    ensures n > 0 && |rest| < |stack| && ObjectsOnly(rest) && Json.KeysInObjects(rest) && n - 1 == JsonBraces.Objects(rest)
    ensures rest == [] || Json.Top(rest) == Json.Object
    ensures Json.Step(Json.Live(stack, Json.AfterValue), '}') == Json.Live(rest, Json.AfterValue)
  {
    var outer := stack[..|stack| - 1];
    JsonBraces.ClosedObjects(outer);
    rest := Json.CloseValue(outer);
  }

  /** Closing what is open, from the inside: as many braces as there are open objects. */
  lemma {:induction false} BracesClose(stack: seq<Json.Frame>, n: nat)
    requires ObjectsOnly(stack) && Json.KeysInObjects(stack) && (stack == [] || Json.Top(stack) == Json.Object)
    requires n == JsonBraces.Objects(stack)
    ensures Json.Run(Json.Live(stack, Json.AfterValue), Braces(n)) == Json.Live([], Json.AfterValue)
    decreases |stack|
  {
    if stack != [] {
      var rest := OneBrace(stack, n);
      assert Braces(n) == ['}'] + Braces(n - 1);
      Json.RunCons(Json.Live(stack, Json.AfterValue), '}', Braces(n - 1));
      BracesClose(rest, n - 1);
    }
  }

  /** The arguments with which a call is closed are a JSON text if they stopped behind a value, with objects only open. */
  lemma ClosedArgumentsAreJson(args: string)
    requires Closable(args, false)
    ensures Json.Accepts(args + Braces(BraceDepth(args)))
  {
    var s := Json.Run(Json.START, args);
    assert Json.Valid(Json.START);
    Json.RunKeepsValid(Json.START, args);
    JsonBraces.DepthIsOpenObjects(args);
    BracesClose(s.stack, BraceDepth(args));
    Json.RunAppend(Json.START, args, Braces(BraceDepth(args)));
  }

  /** The arguments stop behind a value, or inside one that is still to be closed, and only objects are open. */
  ghost predicate Closable(args: string, quotePending: bool) {
    var q := Json.Run(Json.START, args);
    q.Live? && ObjectsOnly(q.stack) && if quotePending then q.mode == Json.InString(false, Json.Plain) else q.mode.AfterValue?
  }

  lemma QuoteCloses(args: string)
    requires Closable(args, true)
    ensures Closable(args + "\"", false)
  {
    var q := Json.Run(Json.START, args);
    Json.RunAppend(Json.START, args, "\"");
    assert "\"" == ['"'] + "";
    Json.RunCons(q, '"', "");
  }

  /** Closing a call that is seen makes its arguments a JSON text, also when the last value was left open. */
  lemma ClosedCallIsJson(s: State, n: Node)
    requires AtLast(s) && LastOf(s).name != "" && n.tag.ToolClose? && Closable(LastOf(s).arguments, s.quotePending)
    ensures AtLast(MapNode(s, n)) && Json.Accepts(LastOf(MapNode(s, n)).arguments)
  {
    SetLast(s, LastOf(s));
    var args := LastOf(s).arguments;
    if s.quotePending {
      QuoteCloses(args);
      ClosedArgumentsAreJson(args + "\"");
    } else {
      assert args + "" == args;
      ClosedArgumentsAreJson(args);
    }
  }

  /** Quotes around an id are taken off, and nothing else is. */
  lemma UnquoteExactly(id: string)
    ensures Unquote("\"" + id + "\"") == id
    ensures (forall x :: id != "\"" + x + "\"") ==> Unquote(id) == id
  {
    if |id| >= 2 && id[0] == '"' && id[|id| - 1] == '"' {
      assert id == "\"" + id[1..|id| - 1] + "\"";
    }
  }

  /** The blanks that are taken off a value: one at either end. */
  lemma ContentExactly(lead: string, core: string, trail: string)
    requires |lead| <= 1 && |trail| <= 1 && (forall c :: c in lead + trail ==> IsSpace(c))
    requires core != "" && (lead == "" ==> !IsSpace(core[0])) && (trail == "" ==> !IsSpace(core[|core| - 1]))
    ensures ValueContent(lead + core + trail) == core
  {
    LeadTrimmed(lead, core + trail, core[0]);
    assert lead + core + trail == lead + (core + trail);
    TrailTrimmed(core, trail);
  }

  lemma LeadTrimmed(lead: string, rest: string, c: char)
    requires |lead| <= 1 && (forall c :: c in lead ==> IsSpace(c)) && rest != "" && rest[0] == c && (lead == "" ==> !IsSpace(c))
    ensures TrimLeadingOne(lead + rest) == rest
  {
    if lead == "" {
      assert lead + rest == rest;
    } else {
      assert lead[0] in lead && (lead + rest)[1..] == rest;
    }
  }

  lemma TrailTrimmed(core: string, trail: string)
    requires |trail| <= 1 && (forall c :: c in trail ==> IsSpace(c)) && core != "" && (trail == "" ==> !IsSpace(core[|core| - 1]))
    ensures TrimTrailingOne(core + trail) == core
  {
    if trail == "" {
      assert core + trail == core;
    } else {
      assert trail[0] in trail && (core + trail)[..|core|] == core;
    }
  }
}
