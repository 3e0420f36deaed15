/**
  common/chat-peg-parser.cpp: the mapper that turns the tagged nodes of a (possibly partial) parse
  into a chat message, building the JSON arguments of each tool call as it goes.
  The nodes are taken in visiting order.  That a node is partial matters for untyped values only.
  */
module PegMapper {
  import opened Basics
  import opened Chat
  import opened JsonStrings
  import opened PegValues
  import Json
  import QuoteNormalization

  datatype Tag =
    | ReasoningTag | ContentTag
    | ToolOpen | ToolClose | ToolName | ToolId | ToolArgs
    | ArgOpen | ArgClose | ArgName | ArgStringValue | ArgValue(partial: bool)
    | OtherTag

  datatype Node = Node(tag: Tag, text: string)

  // ----- trimming (common/chat-peg-parser.cpp:11-37) -----

  function TrimTrailing(s: string): (r: string)
    ensures r <= s
  {
    if s != "" && IsSpace(s[|s| - 1]) then TrimTrailing(s[..|s| - 1]) else s
  }

  function TrimLeadingOne(s: string): string {
    if s != "" && IsSpace(s[0]) then s[1..] else s
  }

  function TrimTrailingOne(s: string): string {
    if s != "" && IsSpace(s[|s| - 1]) then s[..|s| - 1] else s
  }

  function Trim(s: string): string { TrimTrailing(TrimLeadingOne(s)) }

  function ValueContent(s: string): string { TrimTrailingOne(TrimLeadingOne(s)) }

  function Unquote(s: string): string {
    if |s| >= 2 && s[0] == '"' && s[|s| - 1] == '"' then s[1..|s| - 1] else s
  }

  // ----- brace depth -----

  datatype Scan = Scan(depth: int, inString: bool, escaped: bool)

  function ScanChar(s: Scan, c: char): Scan {
    if s.escaped then s.(escaped := false)
    else if c == '\\' && s.inString then s.(escaped := true)
    else if c == '"' then s.(inString := !s.inString)
    else if s.inString then s
    else if c == '{' then s.(depth := s.depth + 1)
    else if c == '}' then s.(depth := s.depth - 1)
    else s
  }

  function ScanAll(s: Scan, text: string): Scan
    decreases text
  {
    if text == "" then s else ScanAll(ScanChar(s, text[0]), text[1..])
  }

  function BraceDepth(text: string): int { ScanAll(Scan(0, false, false), text).depth }

  /** `json_brace_depth` (common/chat-peg-parser.cpp:41-67). */
  method JsonBraceDepth(text: string) returns (depth: int)
    ensures depth == BraceDepth(text)
  {
    depth := 0;
    var inString, escaped := false, false;
    var i := 0;
    while i < |text|
      invariant 0 <= i <= |text|
      invariant ScanAll(Scan(depth, inString, escaped), text[i..]) == ScanAll(Scan(0, false, false), text)
    {
      var c := text[i];
      assert text[i..][0] == c && text[i..][1..] == text[i + 1..];
      i := i + 1;
      if escaped {
        escaped := false;
      } else if c == '\\' && inString {
        escaped := true;
      } else if c == '"' {
        inString := !inString;
      } else if !inString {
        if c == '{' {
          depth := depth + 1;
        } else if c == '}' {
          depth := depth - 1;
        }
      }
    }
  }

  function Braces(n: int): string {
    if n <= 0 then "" else seq(n, _ => '}')
  }

  /** Closes the braces that are still open (common/chat-peg-parser.cpp:395-398). */
  method CloseBraces(args: string) returns (r: string)
    ensures r == args + Braces(BraceDepth(args))
  {
    var depth := JsonBraceDepth(args);
    r := args;
    var d := depth;
    assert Braces(0) == "" && args + "" == args;
    while d > 0
      invariant if depth >= 0 then 0 <= d <= depth else d == depth
      invariant r == args + Braces(depth - d)
    {
      assert Braces(depth - d) + "}" == Braces(depth - d + 1);
      r := r + "}";
      d := d - 1;
    }
  }

  // ----- the mapper -----

  /** Where `current_tool` points: nowhere, at the pending call, or at the last call of the message. */
  datatype Current = NoTool | PendingTool | LastCall

  datatype State = State(
    msg: Message,
    pending: Option<ToolCall>,
    current: Current,
    argCount: nat,
    quotePending: bool,
    buffer: string)

  const START := State(EMPTY, None, NoTool, 0, false, "")

  /** The call behind `current_tool`; a pointer to a pending call that was discarded counts as none. */
  function Tool(s: State): Option<ToolCall> {
    match s.current
    case NoTool => None
    case PendingTool => s.pending
    case LastCall => if s.msg.calls == [] then None else Some(s.msg.calls[|s.msg.calls| - 1])
  }

  function SetTool(s: State, t: ToolCall): State
    requires Tool(s).Some?
  {
    if s.current == PendingTool then s.(pending := Some(t))
    else s.(msg := s.msg.(calls := s.msg.calls[|s.msg.calls| - 1 := t]))
  }

  /** `args_target` (common/chat-peg-parser.cpp:213-215). */
  function Target(s: State): string {
    if Tool(s).Some? && Tool(s).value.name != "" then Tool(s).value.arguments else s.buffer
  }

  function SetTarget(s: State, text: string): State {
    if Tool(s).Some? && Tool(s).value.name != "" then SetTool(s, Tool(s).value.(arguments := text))
    else s.(buffer := text)
  }

  /** A named call becomes visible in the message. */
  function NameTool(s: State, name: string): State
    requires Tool(s).Some?
  {
    var t := Tool(s).value;
    var args := if s.buffer != "" then s.buffer else if t.arguments == "" then "{" else t.arguments;
    var t' := t.(name := name, arguments := args);
    var s' := s.(buffer := "");
    if s.pending.Some? && s.current == PendingTool then
      s'.(msg := s.msg.(calls := s.msg.calls + [t']), pending := None, current := LastCall)
    else if s.pending.Some? then
      var s'' := SetTool(s', t');
      s''.(msg := s''.msg.(calls := s''.msg.calls + [s.pending.value]), pending := None, current := LastCall)
    else SetTool(s', t')
  }

  function ArgEntry(argCount: nat, text: string): string {
    (if argCount > 0 then "," else "") + Dump(Trim(text)) + ":"
  }

  function ValueText(quotePending: bool, text: string): string {
    var content := ValueContent(text);
    (if content == "" || !quotePending then "\"" else "") + Escape(content)
  }

  function CloseTool(s: State): State
    requires Tool(s).Some?
  {
    var t := Tool(s).value;
    var flushed := t.name == "" && s.buffer != "";
    var args := (if flushed then s.buffer else t.arguments) + (if s.quotePending then "\"" else "");
    var t' := t.(arguments := args + Braces(BraceDepth(args)));
    var s' := SetTool(s, t').(buffer := if flushed then "" else s.buffer, quotePending := false);
    if s.pending.None? then s'
    else if t.name != "" then s'.(msg := s'.msg.(calls := s'.msg.calls + [s'.pending.value]), pending := None)
    else s'.(pending := None)
  }

  /** The tags that only act on a current tool. */
  function MapToolNode(s: State, node: Node): State
    requires Tool(s).Some?
  {
    var text := node.text;
    match node.tag
    case ToolId => SetTool(s, Tool(s).value.(id := Unquote(TrimTrailing(text))))
    case ToolName => NameTool(s, TrimTrailing(text))
    case ToolArgs =>
      var args := TrimTrailing(text);
      if args != "" && args[0] == '{' then SetTarget(s, args) else s
    case ArgName =>
      var target := if Target(s) == "" then "{" else Target(s);
      SetTarget(s, target + ArgEntry(s.argCount, text)).(argCount := s.argCount + 1)
    case ArgStringValue => SetTarget(s, Target(s) + ValueText(s.quotePending, text)).(quotePending := true)
    case ArgValue(partial) =>
      var content := ValueContent(text);
      SetTarget(s, Target(s) + UntypedAdds(s.quotePending, partial, content))
      .(quotePending := LeavesOpen(s.quotePending, partial, content))
    case ArgClose => if s.quotePending then SetTarget(s, Target(s) + "\"").(quotePending := false) else s
    case ToolClose => CloseTool(s)
    case _ => s
  }

  /** `map` (common/chat-peg-parser.cpp:234-407). */
  function MapNode(s: State, node: Node): State {
    if node.tag.ReasoningTag? then s.(msg := s.msg.(reasoning := s.msg.reasoning + node.text))
    else if node.tag.ContentTag? then s.(msg := s.msg.(content := s.msg.content + node.text))
    else if node.tag.ToolOpen? then State(s.msg, Some(NO_CALL), PendingTool, 0, false, "")
    else if node.tag.ArgOpen? then s.(quotePending := false)
    else if Tool(s).Some? then MapToolNode(s, node)
    else s
  }

  function MapAll(s: State, nodes: seq<Node>): State {
    if nodes == [] then s else MapNode(MapAll(s, nodes[..|nodes| - 1]), nodes[|nodes| - 1])
  }

  /** The flush at the end of `from_ast` (common/chat-peg-parser.cpp:220-231). */
  function Flush(s: State): Message {
    if s.pending.Some? && s.pending.value.name != "" then
      var t := s.pending.value;
      var args := if s.buffer != "" then s.buffer else t.arguments;
      var args' := if s.quotePending && args != "" then args + "\"" else args;
      s.msg.(calls := s.msg.calls + [t.(arguments := args')])
    else s.msg
  }

  /** The message built from the nodes of one parse. */
  function FromAst(nodes: seq<Node>): Message { Flush(MapAll(START, nodes)) }

  /** A value without a declared type (lines 337-372): what is added, and whether a string is open behind it. */
  method WriteValue(quotePending: bool, partial: bool, content: string) returns (add: string, open: bool)
    ensures add == UntypedAdds(quotePending, partial, content) && open == LeavesOpen(quotePending, partial, content)
  {
    add, open := "", quotePending;
    if content != "" {
      var value, container := content, content[0] == '[' || content[0] == '{';
      if container {
        value := QuoteNormalization.NormalizeQuotes(content);
      }
      if Json.Accepts(value) {
        if IsStringText(value) {
          var escaped := Dump(Denoted(value));
          assert escaped[..|escaped| - 1] == "\"" + Escape(Denoted(value));
          add, open := escaped[..|escaped| - 1], true;
        } else {
          add := value;
        }
      } else if partial && container {
        add := value;
      } else {
        if !open {
          add, open := "\"", true;
        }
        add := add + Escape(value);
      }
    }
  }

  /** `common_chat_peg_mapper`. */
  class Mapper {
    var msg: Message
    var pending: Option<ToolCall>
    var current: Current
    var argCount: nat
    var quotePending: bool
    var buffer: string

    ghost function Abstract(): State
      reads this
    {
      State(msg, pending, current, argCount, quotePending, buffer)
    }

    constructor ()
      ensures Abstract() == START
    {
      msg, pending, current := EMPTY, None, NoTool;
      argCount, quotePending, buffer := 0, false, "";
    }

    function CurrentTool(): Option<ToolCall>
      reads this
      ensures CurrentTool() == Tool(Abstract())
    {
      match current
      case NoTool => None
      case PendingTool => pending
      case LastCall => if msg.calls == [] then None else Some(msg.calls[|msg.calls| - 1])
    }

    method StoreTool(t: ToolCall)
      requires CurrentTool().Some?
      modifies this`msg, this`pending
      ensures Abstract() == SetTool(old(Abstract()), t)
    {
      if current == PendingTool {
        pending := Some(t);
      } else {
        msg := msg.(calls := msg.calls[|msg.calls| - 1 := t]);
      }
    }

    method Append(text: string)
      modifies this`msg, this`pending, this`buffer
      ensures Abstract() == SetTarget(old(Abstract()), Target(old(Abstract())) + text)
    {
      var t := CurrentTool();
      if t.Some? && t.value.name != "" {
        StoreTool(t.value.(arguments := t.value.arguments + text));
      } else {
        buffer := buffer + text;
      }
    }

    method Replace(text: string)
      modifies this`msg, this`pending, this`buffer
      ensures Abstract() == SetTarget(old(Abstract()), text)
    {
      var t := CurrentTool();
      if t.Some? && t.value.name != "" {
        StoreTool(t.value.(arguments := text));
      } else {
        buffer := text;
      }
    }

    method MapName(name: string)
      requires CurrentTool().Some?
      modifies this
      ensures Abstract() == NameTool(old(Abstract()), name)
    {
      var t := CurrentTool().value.(name := name);
      if buffer != "" {
        t := t.(arguments := buffer);
        buffer := "";
      } else if t.arguments == "" {
        t := t.(arguments := "{");
      }
      StoreTool(t);
      if pending.Some? {
        msg := msg.(calls := msg.calls + [pending.value]);
        pending := None;
        current := LastCall;
      }
    }

    method MapClose()
      requires CurrentTool().Some?
      modifies this
      ensures Abstract() == CloseTool(old(Abstract()))
    {
      var t := CurrentTool().value;
      if t.name == "" && buffer != "" {
        t := t.(arguments := buffer);
        buffer := "";
      }
      if quotePending {
        t := t.(arguments := t.arguments + "\"");
        quotePending := false;
      } else {
        assert t.arguments + "" == t.arguments;
      }
      var args := CloseBraces(t.arguments);
      StoreTool(t.(arguments := args));
      if pending.Some? {
        if t.name != "" {
          msg := msg.(calls := msg.calls + [pending.value]);
        }
        pending := None;
      }
    }

    method Map(node: Node)
      modifies this
      ensures Abstract() == MapNode(old(Abstract()), node)
    {
      var tool := CurrentTool();
      match node.tag {
        case ReasoningTag => msg := msg.(reasoning := msg.reasoning + node.text);
        case ContentTag => msg := msg.(content := msg.content + node.text);
        case ToolOpen =>
          pending, current, argCount, buffer, quotePending := Some(NO_CALL), PendingTool, 0, "", false;
        case ToolId =>
          if tool.Some? { StoreTool(tool.value.(id := Unquote(TrimTrailing(node.text)))); }
        case ToolName =>
          if tool.Some? { MapName(TrimTrailing(node.text)); }
        case ToolArgs =>
          var args := TrimTrailing(node.text);
          if tool.Some? && args != "" && args[0] == '{' { Replace(args); }
        case ArgOpen => quotePending := false;
        case ArgName =>
          if tool.Some? { MapArgName(node.text); }
        case ArgStringValue =>
          if tool.Some? {
            Append(ValueText(quotePending, node.text));
            quotePending := true;
          }
        case ArgValue(partial) =>
          if tool.Some? { MapValue(partial, node.text); }
        case ArgClose =>
          if tool.Some? && quotePending {
            Append("\"");
            quotePending := false;
          }
        case ToolClose =>
          if tool.Some? { MapClose(); }
        case OtherTag =>
      }
    }

    method MapValue(partial: bool, text: string)
      requires CurrentTool().Some?
      modifies this
      ensures Abstract() == MapNode(old(Abstract()), Node(ArgValue(partial), text))
    {
      var add, open := WriteValue(quotePending, partial, ValueContent(text));
      Append(add);
      quotePending := open;
    }

    method MapArgName(text: string)
      requires CurrentTool().Some?
      modifies this
      ensures Abstract() == MapNode(old(Abstract()), Node(ArgName, text))
    {
      var entry := ArgEntry(argCount, text);
      argCount := argCount + 1;
      var t := CurrentTool().value;
      var target := if t.name != "" then t.arguments else buffer;
      if target == "" {
        target := "{";
      }
      Replace(target + entry);
    }
  }

  method BuildMessage(nodes: seq<Node>) returns (msg: Message)
    ensures msg == FromAst(nodes)
  {
    var m := new Mapper();
    var i := 0;
    while i < |nodes|
      invariant 0 <= i <= |nodes|
      invariant fresh(m) && m.Abstract() == MapAll(START, nodes[..i])
    {
      m.Map(nodes[i]);
      assert nodes[..i + 1][..i] == nodes[..i];
      i := i + 1;
    }
    assert nodes[..i] == nodes;
    msg := m.msg;
    if m.pending.Some? && m.pending.value.name != "" {
      var t := m.pending.value;
      if m.buffer != "" {
        t := t.(arguments := m.buffer);
      }
      if m.quotePending && t.arguments != "" {
        t := t.(arguments := t.arguments + "\"");
      }
      msg := msg.(calls := msg.calls + [t]);
    }
  }
}
