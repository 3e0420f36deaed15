/** Complete tagged tool calls with string arguments: what their arguments are, wherever the name comes. */
module PegComplete {
  import opened Basics
  import J = Json
  import opened Chat
  import opened JsonStrings
  import opened PegMapper
  import opened PegStreaming

  datatype Arg = Arg(key: string, value: string)

  function ArgNodes(a: Arg): seq<Node> {
    [Node(ArgOpen, ""), Node(ArgName, a.key), Node(ArgStringValue, a.value), Node(ArgClose, "")]
  }

  function AllArgNodes(args: seq<Arg>): seq<Node> {
    if args == [] then [] else AllArgNodes(args[..|args| - 1]) + ArgNodes(args[|args| - 1])
  }

  /** The nodes of one call whose name comes after the first p argument nodes. */
  function CallNodes(name: string, args: seq<Arg>, p: nat): seq<Node>
    requires p <= |AllArgNodes(args)|
  {
    [Node(ToolOpen, "")] + AllArgNodes(args)[..p] + [Node(ToolName, name)] + AllArgNodes(args)[p..] + [Node(ToolClose, "")]
  }

  /** The JSON object the arguments stand for. */
  function Member(a: Arg): string { Dump(Trim(a.key)) + ":" + Dump(ValueContent(a.value)) }

  function Members(args: seq<Arg>): string {
    if args == [] then ""
    else if |args| == 1 then Member(args[0])
    else Members(args[..|args| - 1]) + "," + Member(args[|args| - 1])
  }

  function ObjectText(args: seq<Arg>): string { "{" + Members(args) + "}" }

  lemma {:induction false} MapAppend(s: State, a: seq<Node>, b: seq<Node>)
    ensures MapAll(s, a + b) == MapAll(MapAll(s, a), b)
    decreases |b|
  {
    if b == [] {
      assert a + b == a;
    } else {
      var n := |b| - 1;
      assert (a + b)[..|a + b| - 1] == a + b[..n];
      MapAppend(s, a, b[..n]);
    }
  }

  lemma {:induction false} OrderlyAppend(s: State, a: seq<Node>, b: seq<Node>)
    requires OrderlyFrom(s, a) && OrderlyFrom(MapAll(s, a), b)
    ensures OrderlyFrom(s, a + b)
    decreases |b|
  {
    if b == [] {
      assert a + b == a;
    } else {
      var n := |b| - 1;
      assert (a + b)[..|a + b| - 1] == a + b[..n];
      MapAppend(s, a, b[..n]);
      OrderlyAppend(s, a, b[..n]);
    }
  }

  lemma MapOne(s: State, node: Node)
    ensures MapAll(s, [node]) == MapNode(s, node)
    ensures OrderlyFrom(s, [node]) <==> Orderly(s, node)
  {
    assert [node][..0] == [];
    assert MapAll(s, []) == s;
  }

  // ----- the scan skips dumped strings -----

  lemma {:induction false} ScanAppend(s: Scan, a: string, b: string)
    ensures ScanAll(s, a + b) == ScanAll(ScanAll(s, a), b)
    decreases a
  {
    if a == "" {
      assert a + b == b;
    } else {
      assert (a + b)[1..] == a[1..] + b;
      ScanAppend(ScanChar(s, a[0]), a[1..], b);
    }
  }

  lemma ScanTwo(s: Scan, a: char, b: char)
    ensures ScanAll(s, [a, b]) == ScanChar(ScanChar(s, a), b)
    ensures ScanAll(s, [a]) == ScanChar(s, a)
  {
    assert [a, b][1..] == [b] && [b][1..] == [] && [a][1..] == [];
    assert ScanAll(ScanChar(ScanChar(s, a), b), []) == ScanChar(ScanChar(s, a), b);
  }

  lemma ScanEscapeChar(depth: int, c: char)
    ensures var inside := Scan(depth, true, false); ScanAll(inside, EscapeChar(c)) == inside
  {
    var inside := Scan(depth, true, false);
    var e := EscapeChar(c);
    if |e| == 1 {
      assert e == [c];
      ScanTwo(inside, c, c);
    } else if |e| == 2 {
      assert e == [e[0], e[1]];
      ScanTwo(inside, e[0], e[1]);
    } else {
      assert e == (['\\', 'u'] + ['0', '0']) + [e[4], e[5]];
      ScanUnicode(depth, e[4], e[5]);
    }
  }

  lemma ScanUnicode(depth: int, a: char, b: char)
    requires a != '"' && a != '\\' && b != '"' && b != '\\'
    ensures var inside := Scan(depth, true, false);
            ScanAll(inside, (['\\', 'u'] + ['0', '0']) + [a, b]) == inside
  {
    var inside := Scan(depth, true, false);
    ScanAppend(inside, ['\\', 'u'] + ['0', '0'], [a, b]);
    ScanAppend(inside, ['\\', 'u'], ['0', '0']);
    ScanTwo(inside, '\\', 'u');
    ScanTwo(inside, '0', '0');
    ScanTwo(inside, a, b);
  }

  lemma {:induction false} ScanEscape(depth: int, s: string)
    ensures var inside := Scan(depth, true, false); ScanAll(inside, Escape(s)) == inside
  {
    if s != "" {
      ScanEscapeChar(depth, s[0]);
      ScanAppend(Scan(depth, true, false), EscapeChar(s[0]), Escape(s[1..]));
      ScanEscape(depth, s[1..]);
    }
  }

  lemma ScanDump(depth: int, s: string)
    ensures var outside := Scan(depth, false, false); ScanAll(outside, Dump(s)) == outside
  {
    var outside, inside := Scan(depth, false, false), Scan(depth, true, false);
    ScanAppend(outside, "\"" + Escape(s), "\"");
    ScanAppend(outside, "\"", Escape(s));
    ScanTwo(outside, '"', '"');
    ScanTwo(inside, '"', '"');
    ScanEscape(depth, s);
  }

  lemma ScanMember(depth: int, a: Arg)
    ensures var outside := Scan(depth, false, false); ScanAll(outside, Member(a)) == outside
  {
    var outside := Scan(depth, false, false);
    var key := Dump(Trim(a.key));
    ScanAppend(outside, key + ":", Dump(ValueContent(a.value)));
    ScanAppend(outside, key, ":");
    ScanDump(depth, Trim(a.key));
    ScanDump(depth, ValueContent(a.value));
    ScanTwo(outside, ':', ':');
  }

  lemma {:induction false} ScanMembers(depth: int, args: seq<Arg>)
    ensures var outside := Scan(depth, false, false); ScanAll(outside, Members(args)) == outside
  {
    var outside := Scan(depth, false, false);
    if |args| == 1 {
      ScanMember(depth, args[0]);
    } else if |args| > 1 {
      var n := |args| - 1;
      ScanMembers(depth, args[..n]);
      ScanMember(depth, args[n]);
      ScanAppend(outside, Members(args[..n]) + ",", Member(args[n]));
      ScanAppend(outside, Members(args[..n]), ",");
      ScanTwo(outside, ',', ',');
    }
  }

  /** Braces inside keys and values never count: the text of a call without its last brace has depth 1, with it 0. */
  lemma DepthOfObject(args: seq<Arg>)
    ensures BraceDepth("{" + Members(args)) == 1 && BraceDepth(ObjectText(args)) == 0
  {
    var s := Scan(0, false, false);
    ScanAppend(s, "{", Members(args));
    ScanTwo(s, '{', '{');
    ScanMembers(1, args);
    ScanAppend(s, "{" + Members(args), "}");
    ScanTwo(Scan(1, false, false), '}', '}');
  }

  // ----- a named call -----

  /** The state while the last call of the message, already named, collects its arguments. */
  function Collecting(msg: Message, call: ToolCall, argCount: nat, quotePending: bool, args: string): State {
    State(msg.(calls := msg.calls + [call.(arguments := args)]), None, LastCall, argCount, quotePending, "")
  }

  lemma CollectingTarget(msg: Message, call: ToolCall, n: nat, q: bool, args: string, text: string)
    requires call.name != ""
    ensures var s := Collecting(msg, call, n, q, args);
            Target(s) == args && Tool(s).Some? && SetTarget(s, text) == Collecting(msg, call, n, q, text)
  {
    var s := Collecting(msg, call, n, q, args);
    assert s.msg.calls[|s.msg.calls| - 1 := call.(arguments := text)] == msg.calls + [call.(arguments := text)];
  }

  lemma MapSnoc(s: State, init: seq<Node>, node: Node)
    ensures MapAll(s, init + [node]) == MapNode(MapAll(s, init), node)
    ensures OrderlyFrom(s, init + [node]) <==> OrderlyFrom(s, init) && Orderly(MapAll(s, init), node)
  {
    var all := init + [node];
    assert all[..|all| - 1] == init;
  }

  lemma FourNodes(s: State, a: Node, b: Node, c: Node, d: Node)
    ensures MapAll(s, [a, b, c, d]) == MapNode(MapNode(MapNode(MapNode(s, a), b), c), d)
    ensures OrderlyFrom(s, [a, b, c, d]) <==>
              Orderly(s, a) && Orderly(MapNode(s, a), b) && Orderly(MapNode(MapNode(s, a), b), c) &&
              Orderly(MapNode(MapNode(MapNode(s, a), b), c), d)
  {
    MapOne(s, a);
    MapSnoc(s, [a], b);
    MapSnoc(s, [a] + [b], c);
    MapSnoc(s, [a] + [b] + [c], d);
    assert [a, b, c, d] == [a] + [b] + [c] + [d];
  }

  function Separated(n: nat, a: Arg): string { (if n > 0 then "," else "") + Member(a) }

  lemma Regroup(a: string, b: string, c: string, d: string)
    ensures ((a + b) + c) + d == a + (b + (c + d))
  {
  }

  lemma ValueIsDump(v: string)
    ensures ValueText(false, v) + "\"" == Dump(ValueContent(v))
  {
    if ValueContent(v) == "" {
      assert "\"" + "" == "\"";
    }
  }

  lemma ArgText(args: string, n: nat, a: Arg)
    ensures ((args + ArgEntry(n, a.key)) + ValueText(false, a.value)) + "\"" == args + Separated(n, a)
  {
    var sep, key, value := if n > 0 then "," else "", Dump(Trim(a.key)), Dump(ValueContent(a.value));
    Regroup(args, ArgEntry(n, a.key), ValueText(false, a.value), "\"");
    ValueIsDump(a.value);
    EntryRegroup(sep, key, value);
  }

  lemma EntryRegroup(sep: string, key: string, value: string)
    ensures (sep + key + ":") + value == sep + (key + ":" + value)
  {
  }

  lemma ArgNameIsCollected(msg: Message, call: ToolCall, n: nat, args: string, key: string)
    requires call.name != "" && args != ""
    ensures var s := Collecting(msg, call, n, false, args);
            MapNode(s, Node(ArgName, key)) == Collecting(msg, call, n + 1, false, args + ArgEntry(n, key))
  {
    CollectingTarget(msg, call, n, false, args, args + ArgEntry(n, key));
  }

  lemma ArgValueIsCollected(msg: Message, call: ToolCall, n: nat, args: string, value: string)
    requires call.name != ""
    ensures var s := Collecting(msg, call, n, false, args);
            MapNode(s, Node(ArgStringValue, value)) == Collecting(msg, call, n, true, args + ValueText(false, value))
  {
    CollectingTarget(msg, call, n, false, args, args + ValueText(false, value));
  }

  lemma ArgCloseIsCollected(msg: Message, call: ToolCall, n: nat, args: string)
    requires call.name != ""
    ensures var s := Collecting(msg, call, n, true, args);
            MapNode(s, Node(ArgClose, "")) == Collecting(msg, call, n, false, args + "\"")
  {
    CollectingTarget(msg, call, n, true, args, args + "\"");
  }

  lemma ArgIsCollected(msg: Message, call: ToolCall, n: nat, args: string, a: Arg)
    requires call.name != "" && args != ""
    ensures var s := Collecting(msg, call, n, false, args);
            && MapAll(s, ArgNodes(a)) == Collecting(msg, call, n + 1, false, args + Separated(n, a))
            && OrderlyFrom(s, ArgNodes(a))
  {
    var s := Collecting(msg, call, n, false, args);
    var named := args + ArgEntry(n, a.key);
    var valued := named + ValueText(false, a.value);
    ArgNameIsCollected(msg, call, n, args, a.key);
    ArgValueIsCollected(msg, call, n + 1, named, a.value);
    ArgCloseIsCollected(msg, call, n + 1, valued);
    FourNodes(s, Node(ArgOpen, ""), Node(ArgName, a.key), Node(ArgStringValue, a.value), Node(ArgClose, ""));
    ArgText(args, n, a);
  }

  lemma MembersSnoc(args: seq<Arg>)
    requires args != []
    ensures var n := |args| - 1; ("{" + Members(args[..n])) + Separated(n, args[n]) == "{" + Members(args)
  {
    var n := |args| - 1;
    if n == 0 {
      assert args[..0] == [];
      FirstMember(Member(args[0]));
    } else {
      NextMember(Members(args[..n]), Member(args[n]));
    }
  }

  lemma FirstMember(m: string)
    ensures ("{" + "") + ("" + m) == "{" + m
  {
  }

  lemma NextMember(before: string, m: string)
    ensures ("{" + before) + ("," + m) == "{" + (before + "," + m)
  {
  }

  lemma {:induction false} ArgsAreCollected(msg: Message, call: ToolCall, args: seq<Arg>)
    requires call.name != ""
    ensures var s := Collecting(msg, call, 0, false, "{");
            && MapAll(s, AllArgNodes(args)) == Collecting(msg, call, |args|, false, "{" + Members(args))
            && OrderlyFrom(s, AllArgNodes(args))
  {
    var s := Collecting(msg, call, 0, false, "{");
    if args == [] {
      assert "{" + Members(args) == "{";
    } else {
      var n := |args| - 1;
      ArgsAreCollected(msg, call, args[..n]);
      MapAppend(s, AllArgNodes(args[..n]), ArgNodes(args[n]));
      ArgIsCollected(msg, call, n, "{" + Members(args[..n]), args[n]);
      OrderlyAppend(s, AllArgNodes(args[..n]), ArgNodes(args[n]));
      MembersSnoc(args);
    }
  }

  // ----- the name may come anywhere -----

  /** The state while an unnamed call collects arguments in the buffer. */
  ghost predicate Buffering(s: State) {
    && s.current == PendingTool && s.pending == Some(NO_CALL)
    && (s.quotePending ==> s.buffer != "")
  }

  ghost predicate ArgTag(tag: Tag) { tag.ArgOpen? || tag.ArgName? || tag.ArgStringValue? || tag.ArgClose? }

  lemma StaysBuffering(s: State, node: Node)
    requires Buffering(s) && ArgTag(node.tag) && (node.tag.ArgStringValue? ==> s.buffer != "")
    ensures Buffering(MapNode(s, node)) && (s.buffer != "" || node.tag.ArgName? ==> MapNode(s, node).buffer != "")
  {
  }

  function Buffered(s: State): string { if s.buffer == "" then "{" else s.buffer }

  /** The state once a buffering call has its name. */
  function NamedState(s: State, name: string): State {
    Collecting(s.msg, NO_CALL.(name := TrimTrailing(name)), s.argCount, s.quotePending, Buffered(s))
  }

  lemma NamesBuffering(s: State, name: string)
    requires Buffering(s)
    ensures MapNode(s, Node(ToolName, name)) == NamedState(s, name)
  {
  }

  lemma CollectsArgName(s: State, node: Node, name: string)
    requires Buffering(s) && node.tag.ArgName? && TrimTrailing(name) != ""
    ensures MapNode(NamedState(s, name), node) == NamedState(MapNode(s, node), name)
  {
    var args := Buffered(s);
    CollectingTarget(s.msg, NO_CALL.(name := TrimTrailing(name)), s.argCount, s.quotePending, args,
                     args + ArgEntry(s.argCount, node.text));
  }

  lemma CollectsArgValue(s: State, node: Node, name: string)
    requires Buffering(s) && node.tag.ArgStringValue? && s.buffer != "" && TrimTrailing(name) != ""
    ensures MapNode(NamedState(s, name), node) == NamedState(MapNode(s, node), name)
  {
    var args := Buffered(s);
    CollectingTarget(s.msg, NO_CALL.(name := TrimTrailing(name)), s.argCount, s.quotePending, args,
                     args + ValueText(s.quotePending, node.text));
  }

  lemma CollectsArgClose(s: State, node: Node, name: string)
    requires Buffering(s) && node.tag.ArgClose? && TrimTrailing(name) != ""
    ensures MapNode(NamedState(s, name), node) == NamedState(MapNode(s, node), name)
  {
    var args := Buffered(s);
    CollectingTarget(s.msg, NO_CALL.(name := TrimTrailing(name)), s.argCount, s.quotePending, args, args + "\"");
  }

  /** An argument node and the name node can be exchanged. */
  lemma NameCommutes(s: State, node: Node, name: string)
    requires Buffering(s) && ArgTag(node.tag) && TrimTrailing(name) != ""
    requires node.tag.ArgStringValue? ==> s.buffer != ""
    ensures var n := Node(ToolName, name); MapNode(MapNode(s, node), n) == MapNode(MapNode(s, n), node)
    ensures Buffering(MapNode(s, node)) && (s.buffer != "" || node.tag.ArgName? ==> MapNode(s, node).buffer != "")
  {
    StaysBuffering(s, node);
    NamesBuffering(s, name);
    NamesBuffering(MapNode(s, node), name);
    match node.tag {
      case ArgOpen =>
      case ArgName => CollectsArgName(s, node, name);
      case ArgStringValue => CollectsArgValue(s, node, name);
      case ArgClose => CollectsArgClose(s, node, name);
    }
  }

  lemma {:induction false} ArgNodeShape(args: seq<Arg>, i: nat)
    requires i < |AllArgNodes(args)|
    ensures ArgTag(AllArgNodes(args)[i].tag)
    ensures i == 1 ==> AllArgNodes(args)[i].tag.ArgName?
    ensures AllArgNodes(args)[i].tag.ArgStringValue? ==> i >= 2
  {
    var n := |args| - 1;
    if i < |AllArgNodes(args[..n])| {
      ArgNodeShape(args[..n], i);
    } else if n > 0 {
      assert |AllArgNodes(args[..n])| >= 4;
    }
  }

  /** What `i` argument nodes leave behind. */
  ghost predicate BufferedAfter(t: State, i: nat) { Buffering(t) && (i >= 2 ==> t.buffer != "") }

  lemma BufferedStep(t: State, args: seq<Arg>, i: nat)
    requires i < |AllArgNodes(args)| && BufferedAfter(t, i)
    ensures BufferedAfter(MapNode(t, AllArgNodes(args)[i]), i + 1)
  {
    ArgNodeShape(args, i);
    StaysBuffering(t, AllArgNodes(args)[i]);
  }

  lemma {:induction false} BufferingRun(s: State, args: seq<Arg>, i: nat)
    requires i <= |AllArgNodes(args)| && Buffering(s)
    ensures BufferedAfter(MapAll(s, AllArgNodes(args)[..i]), i)
  {
    var nodes := AllArgNodes(args);
    if i > 0 {
      BufferingRun(s, args, i - 1);
      assert nodes[..i] == nodes[..i - 1] + [nodes[i - 1]];
      MapSnoc(s, nodes[..i - 1], nodes[i - 1]);
      BufferedStep(MapAll(s, nodes[..i - 1]), args, i - 1);
    }
  }

  lemma SlideOne(o: State, before: seq<Node>, x: Node, n: Node, after: seq<Node>, b: State, xn: State)
    requires b == MapAll(o, before) && xn == MapNode(MapNode(b, x), n) == MapNode(MapNode(b, n), x)
    ensures MapAll(o, ((before + [x]) + [n]) + after) == MapAll(o, (before + [n]) + ([x] + after))
  {
    MapTwo(o, before, x, n);
    MapTwo(o, before, n, x);
    MapAppend(o, (before + [x]) + [n], after);
    MapAppend(o, (before + [n]) + [x], after);
    RegroupNodes(before + [n], [x], after);
  }

  lemma MapTwo(o: State, before: seq<Node>, x: Node, y: Node)
    ensures MapAll(o, (before + [x]) + [y]) == MapNode(MapNode(MapAll(o, before), x), y)
  {
    MapSnoc(o, before, x);
    MapSnoc(o, before + [x], y);
  }

  lemma RegroupNodes(a: seq<Node>, b: seq<Node>, c: seq<Node>)
    ensures (a + b) + c == a + (b + c)
  {
  }

  lemma SlideStep(o: State, name: string, args: seq<Arg>, q: nat)
    requires q < |AllArgNodes(args)| && Buffering(o) && TrimTrailing(name) != ""
    ensures var b, x, n := MapAll(o, AllArgNodes(args)[..q]), AllArgNodes(args)[q], Node(ToolName, name);
            MapNode(MapNode(b, x), n) == MapNode(MapNode(b, n), x)
  {
    BufferingRun(o, args, q);
    ArgNodeShape(args, q);
    NameCommutes(MapAll(o, AllArgNodes(args)[..q]), AllArgNodes(args)[q], name);
  }

  lemma SplitAt(a: seq<Node>, q: nat)
    requires q < |a|
    ensures a[..q + 1] == a[..q] + [a[q]] && [a[q]] + a[q + 1..] == a[q..]
  {
  }

  /** The name node can be moved to the front. */
  lemma {:induction false} NameSlides(o: State, name: string, args: seq<Arg>, p: nat)
    requires p <= |AllArgNodes(args)| && Buffering(o) && TrimTrailing(name) != ""
    ensures var a, n := AllArgNodes(args), Node(ToolName, name);
            MapAll(o, (a[..p] + [n]) + a[p..]) == MapAll(o, [n] + a)
  {
    var a, n := AllArgNodes(args), Node(ToolName, name);
    if p == 0 {
      assert (a[..0] + [n]) + a[0..] == [n] + a;
    } else {
      var q := p - 1;
      var b := MapAll(o, a[..q]);
      SlideStep(o, name, args, q);
      SplitAt(a, q);
      SlideOne(o, a[..q], a[q], n, a[p..], b, MapNode(MapNode(b, a[q]), n));
      NameSlides(o, name, args, q);
    }
  }

  function Opened(msg: Message): State { State(msg, Some(NO_CALL), PendingTool, 0, false, "") }

  lemma CloseCollected(msg: Message, call: ToolCall, n: nat, args: seq<Arg>)
    requires call.name != ""
    ensures MapNode(Collecting(msg, call, n, false, "{" + Members(args)), Node(ToolClose, "")) ==
              Collecting(msg, call, n, false, ObjectText(args))
  {
    DepthOfObject(args);
    CloseOpenText(msg, call, n, "{" + Members(args), ObjectText(args));
  }

  lemma CloseOpenText(msg: Message, call: ToolCall, n: nat, text: string, closed: string)
    requires call.name != "" && BraceDepth(text) == 1 && closed == text + "}"
    ensures MapNode(Collecting(msg, call, n, false, text), Node(ToolClose, "")) == Collecting(msg, call, n, false, closed)
  {
    assert text + "" == text && Braces(1) == "}";
    CollectingTarget(msg, call, n, false, text, closed);
  }

  lemma NamedFirst(msg: Message, name: string, args: seq<Arg>)
    requires TrimTrailing(name) != ""
    ensures MapAll(Opened(msg), [Node(ToolName, name)] + AllArgNodes(args)) ==
              Collecting(msg, ToolCall(TrimTrailing(name), "", ""), |args|, false, "{" + Members(args))
  {
    var n, call := Node(ToolName, name), ToolCall(TrimTrailing(name), "", "");
    MapAppend(Opened(msg), [n], AllArgNodes(args));
    MapOne(Opened(msg), n);
    assert MapNode(Opened(msg), n) == Collecting(msg, call, 0, false, "{");
    ArgsAreCollected(msg, call, args);
  }

  lemma WrappedRun(s: State, open: Node, body: seq<Node>, close: Node)
    ensures MapAll(s, [open] + (body + [close])) == MapNode(MapAll(MapNode(s, open), body), close)
  {
    MapAppend(s, [open], body + [close]);
    MapOne(s, open);
    MapSnoc(MapNode(s, open), body, close);
  }

  /**
    A complete call: wherever its name comes among its argument nodes, it adds one call to the message
    whose arguments are exactly the JSON object of its keys and values.
    */
  lemma CompleteCall(s: State, name: string, args: seq<Arg>, p: nat)
    requires p <= |AllArgNodes(args)| && TrimTrailing(name) != ""
    ensures MapAll(s, CallNodes(name, args, p)) ==
              Collecting(s.msg, ToolCall(TrimTrailing(name), "", ""), |args|, false, ObjectText(args))
  {
    var a, n := AllArgNodes(args), Node(ToolName, name);
    var body := (a[..p] + [n]) + a[p..];
    assert CallNodes(name, args, p) == [Node(ToolOpen, "")] + (body + [Node(ToolClose, "")]);
    WrappedRun(s, Node(ToolOpen, ""), body, Node(ToolClose, ""));
    assert MapNode(s, Node(ToolOpen, "")) == Opened(s.msg);
    NameSlides(Opened(s.msg), name, args, p);
    NamedFirst(s.msg, name, args);
    CloseCollected(s.msg, ToolCall(TrimTrailing(name), "", ""), |args|, args);
  }

  // ----- the arguments are JSON -----

  lemma MemberRuns(s: J.State, a: Arg)
    requires J.Step(s, '"') == J.Live([J.Object], J.InString(true, J.Plain))
    ensures J.Run(s, Member(a)) == J.Live([J.Object], J.AfterValue)
  {
    var key, value := Dump(Trim(a.key)), Dump(ValueContent(a.value));
    var stack := [J.Object] + [J.Key];
    J.RunAppend(s, key + ":", value);
    J.RunAppend(s, key, ":");
    DumpRuns(s, [J.Object], true, Trim(a.key));
    J.RunCons(J.Live(stack, J.ExpectColon), ':', "");
    assert [':'] + "" == ":";
    DumpRuns(J.Live(stack, J.ExpectValue), stack, false, ValueContent(a.value));
    assert stack[..1] == [J.Object];
  }

  lemma NextMemberRuns(s: J.State, members: string, a: Arg)
    requires J.Run(s, members) == J.Live([J.Object], J.AfterValue)
    ensures J.Run(s, members + "," + Member(a)) == J.Live([J.Object], J.AfterValue)
  {
    J.RunAppend(s, members + ",", Member(a));
    J.RunAppend(s, members, ",");
    J.RunCons(J.Live([J.Object], J.AfterValue), ',', "");
    assert [','] + "" == ",";
    MemberRuns(J.Live([J.Object], J.ExpectKey), a);
  }

  lemma {:induction false} MembersRun(args: seq<Arg>)
    ensures J.Run(J.Live([J.Object], J.ObjectStart), Members(args)) ==
              J.Live([J.Object], if args == [] then J.ObjectStart else J.AfterValue)
  {
    var s := J.Live([J.Object], J.ObjectStart);
    if |args| == 1 {
      MemberRuns(s, args[0]);
    } else if |args| > 1 {
      var n := |args| - 1;
      MembersRun(args[..n]);
      NextMemberRuns(s, Members(args[..n]), args[n]);
    }
  }

  lemma EndOfObject(s: J.State)
    requires s == J.Live([J.Object], J.ObjectStart) || s == J.Live([J.Object], J.AfterValue)
    ensures J.Accepting(J.Run(s, "}"))
  {
    J.RunCons(s, '}', "");
    assert ['}'] + "" == "}" && [J.Object][..0] == [];
  }

  /** The arguments of a complete call are a valid JSON text. */
  lemma ArgumentsAreJson(args: seq<Arg>)
    ensures J.Accepts(ObjectText(args))
  {
    var s := J.Live([J.Object], J.ObjectStart);
    assert ObjectText(args) == ['{'] + (Members(args) + "}");
    assert J.Step(J.START, '{') == s by { assert [] + [J.Object] == [J.Object]; }
    J.RunCons(J.START, '{', Members(args) + "}");
    J.RunAppend(s, Members(args), "}");
    MembersRun(args);
    EndOfObject(J.Run(s, Members(args)));
  }

  // ----- whole parses -----

  datatype Call = Call(name: string, args: seq<Arg>, nameAt: nat)

  ghost predicate ProperCall(c: Call) {
    TrimTrailing(c.name) != "" && c.nameAt <= |AllArgNodes(c.args)|
  }

  ghost predicate ProperCalls(calls: seq<Call>) { forall c :: c in calls ==> ProperCall(c) }

  ghost function CallsNodes(calls: seq<Call>): seq<Node>
    requires ProperCalls(calls)
  {
    if calls == [] then []
    else
      var c := calls[|calls| - 1];
      assert c in calls && forall d :: d in calls[..|calls| - 1] ==> d in calls;
      CallsNodes(calls[..|calls| - 1]) + CallNodes(c.name, c.args, c.nameAt)
  }

  function Built(c: Call): ToolCall { ToolCall(TrimTrailing(c.name), ObjectText(c.args), "") }

  /** The message holds these calls and nothing else. */
  ghost predicate HoldsCalls(msg: Message, calls: seq<Call>) {
    && msg.content == "" && msg.reasoning == ""
    && |msg.calls| == |calls|
    && forall i :: 0 <= i < |calls| ==> msg.calls[i] == Built(calls[i])
  }

  lemma HoldsOneMore(msg: Message, calls: seq<Call>, s: State, count: nat)
    requires calls != [] && var n := |calls| - 1;
             && HoldsCalls(msg, calls[..n])
             && s == Collecting(msg, ToolCall(TrimTrailing(calls[n].name), "", ""), count, false, ObjectText(calls[n].args))
    ensures HoldsCalls(s.msg, calls)
  {
    var n := |calls| - 1;
    assert forall i :: 0 <= i < n ==> calls[..n][i] == calls[i];
  }

  /** A parse that consists of complete calls gives exactly those calls. */
  lemma {:induction false} CompleteCalls(calls: seq<Call>)
    requires ProperCalls(calls)
    ensures HoldsCalls(FromAst(CallsNodes(calls)), calls)
  {
    FlushAddsNothing(CallsNodes(calls));
    if calls != [] {
      var n := |calls| - 1;
      assert calls[n] in calls && forall d :: d in calls[..n] ==> d in calls;
      CompleteCalls(calls[..n]);
      FlushAddsNothing(CallsNodes(calls[..n]));
      var c, before := calls[n], MapAll(START, CallsNodes(calls[..n]));
      MapAppend(START, CallsNodes(calls[..n]), CallNodes(c.name, c.args, c.nameAt));
      CompleteCall(before, c.name, c.args, c.nameAt);
      HoldsOneMore(before.msg, calls, MapAll(before, CallNodes(c.name, c.args, c.nameAt)), |c.args|);
    }
  }

  // ----- complete calls are orderly, so they can be streamed -----

  lemma QuoteStep(s: State, t: State, node: Node)
    requires Tool(s).Some? && Tool(t).Some? && s.quotePending == t.quotePending && ArgTag(node.tag)
    ensures var s', t' := MapNode(s, node), MapNode(t, node);
            Tool(s').Some? && Tool(t').Some? && s'.quotePending == t'.quotePending
    ensures Orderly(s, node) <==> Orderly(t, node)
  {
    ArgStepKeepsTool(s, node);
    ArgStepKeepsTool(t, node);
  }

  lemma ArgStepKeepsTool(s: State, node: Node)
    requires Tool(s).Some? && ArgTag(node.tag)
    ensures Tool(MapNode(s, node)).Some?
    ensures MapNode(s, node).quotePending == (node.tag.ArgStringValue? || (node.tag.ArgName? && s.quotePending))
  {
  }

  /** For argument nodes only the pending quote matters. */
  lemma {:induction false} QuotesAgree(s: State, t: State, nodes: seq<Node>)
    requires Tool(s).Some? && Tool(t).Some? && s.quotePending == t.quotePending
    requires forall i :: 0 <= i < |nodes| ==> ArgTag(nodes[i].tag)
    ensures var s', t' := MapAll(s, nodes), MapAll(t, nodes);
            Tool(s').Some? && Tool(t').Some? && s'.quotePending == t'.quotePending
    ensures OrderlyFrom(s, nodes) <==> OrderlyFrom(t, nodes)
  {
    if nodes != [] {
      var init := nodes[..|nodes| - 1];
      QuotesAgree(s, t, init);
      QuoteStep(MapAll(s, init), MapAll(t, init), nodes[|nodes| - 1]);
    }
  }

  lemma {:induction false} OrderlySplit(s: State, a: seq<Node>, b: seq<Node>)
    requires OrderlyFrom(s, a + b)
    ensures OrderlyFrom(s, a) && OrderlyFrom(MapAll(s, a), b)
    decreases |b|
  {
    if b == [] {
      assert a + b == a;
    } else {
      var n := |b| - 1;
      assert (a + b)[..|a + b| - 1] == a + b[..n];
      MapAppend(s, a, b[..n]);
      OrderlySplit(s, a, b[..n]);
    }
  }

  /** Naming a buffering call keeps the pending quote. */
  lemma NamingIsOrderly(b: State, name: string)
    requires Buffering(b) && TrimTrailing(name) != ""
    ensures var n := Node(ToolName, name);
            Orderly(b, n) && MapNode(b, n).quotePending == b.quotePending && Tool(MapNode(b, n)).Some?
  {
  }

  /** The arguments of a call that is named first, in two parts. */
  lemma CollectedIsOrderly(msg: Message, name: string, args: seq<Arg>, p: nat)
    requires p <= |AllArgNodes(args)| && TrimTrailing(name) != ""
    ensures var a := AllArgNodes(args);
            var t := Collecting(msg, ToolCall(TrimTrailing(name), "", ""), 0, false, "{");
            && Tool(t).Some? && OrderlyFrom(t, a[..p]) && OrderlyFrom(MapAll(t, a[..p]), a[p..])
            && (forall i :: 0 <= i < p ==> ArgTag(a[..p][i].tag))
            && (forall i :: 0 <= i < |a| - p ==> ArgTag(a[p..][i].tag))
  {
    var a, call := AllArgNodes(args), ToolCall(TrimTrailing(name), "", "");
    var t := Collecting(msg, call, 0, false, "{");
    ArgTagsApart(args, p);
    ArgsAreCollected(msg, call, args);
    CollectingTarget(msg, call, 0, false, "{", "{");
    assert a == a[..p] + a[p..];
    OrderlySplit(t, a[..p], a[p..]);
  }

  lemma ArgTagsApart(args: seq<Arg>, p: nat)
    requires p <= |AllArgNodes(args)|
    ensures var a := AllArgNodes(args);
            && (forall i :: 0 <= i < p ==> ArgTag(a[..p][i].tag))
            && (forall i :: 0 <= i < |a| - p ==> ArgTag(a[p..][i].tag))
  {
    var a := AllArgNodes(args);
    forall i | 0 <= i < |a| ensures ArgTag(a[i].tag) { ArgNodeShape(args, i); }
  }

  /** The nodes between opening and closing. */
  lemma BodyIsOrderly(msg: Message, name: string, args: seq<Arg>, p: nat)
    requires p <= |AllArgNodes(args)| && TrimTrailing(name) != ""
    ensures var a := AllArgNodes(args); OrderlyFrom(Opened(msg), (a[..p] + [Node(ToolName, name)]) + a[p..])
  {
    var a, n, o := AllArgNodes(args), Node(ToolName, name), Opened(msg);
    var t := Collecting(msg, ToolCall(TrimTrailing(name), "", ""), 0, false, "{");
    CollectedIsOrderly(msg, name, args, p);
    QuotesAgree(o, t, a[..p]);
    BufferingRun(o, args, p);
    var b := MapAll(o, a[..p]);
    NamingIsOrderly(b, name);
    MapSnoc(o, a[..p], n);
    QuotesAgree(MapNode(b, n), MapAll(t, a[..p]), a[p..]);
    OrderlyAppend(o, a[..p] + [n], a[p..]);
  }

  lemma WrappedOrderly(s: State, open: Node, body: seq<Node>, close: Node)
    requires Orderly(s, open) && OrderlyFrom(MapNode(s, open), body)
    requires Orderly(MapAll(MapNode(s, open), body), close)
    ensures OrderlyFrom(s, [open] + (body + [close]))
  {
    MapOne(s, open);
    MapSnoc(MapNode(s, open), body, close);
    OrderlyAppend(s, [open], body + [close]);
  }

  lemma CallIsOrderly(s: State, name: string, args: seq<Arg>, p: nat)
    requires p <= |AllArgNodes(args)| && TrimTrailing(name) != ""
    ensures OrderlyFrom(s, CallNodes(name, args, p))
  {
    var a, n := AllArgNodes(args), Node(ToolName, name);
    var body := (a[..p] + [n]) + a[p..];
    assert CallNodes(name, args, p) == [Node(ToolOpen, "")] + (body + [Node(ToolClose, "")]);
    assert MapNode(s, Node(ToolOpen, "")) == Opened(s.msg);
    BodyIsOrderly(s.msg, name, args, p);
    WrappedOrderly(s, Node(ToolOpen, ""), body, Node(ToolClose, ""));
  }

  lemma {:induction false} CallsAreOrderly(calls: seq<Call>)
    requires ProperCalls(calls)
    ensures OrderlyAll(CallsNodes(calls))
  {
    if calls != [] {
      var n := |calls| - 1;
      var c := calls[n];
      assert c in calls && forall d :: d in calls[..n] ==> d in calls;
      CallsAreOrderly(calls[..n]);
      CallIsOrderly(MapAll(START, CallsNodes(calls[..n])), c.name, c.args, c.nameAt);
      OrderlyAppend(START, CallsNodes(calls[..n]), CallNodes(c.name, c.args, c.nameAt));
    }
  }

  /** These calls by name and arguments, with whatever ids. */
  ghost predicate HasCalls(m: Message, calls: seq<Call>) {
    && |m.calls| == |calls|
    && forall i :: 0 <= i < |calls| ==>
         m.calls[i].name == TrimTrailing(calls[i].name) && m.calls[i].arguments == ObjectText(calls[i].args)
  }

  lemma SentCalls(raw: Message, ids: seq<string>, calls: seq<Call>)
    requires HoldsCalls(raw, calls) && |raw.calls| <= |ids|
    ensures HasCalls(raw.(calls := WithIds(raw.calls, ids)), calls)
  {
  }

  /**
    Streaming complete calls: from any increasing sequence of truncation points that ends with the whole
    parse, the client ends with exactly the calls of the parse, each with its JSON arguments and its one id.
    */
  lemma StreamedCalls(calls: seq<Call>, cuts: seq<Cut>, gen: nat -> string)
    requires ProperCalls(calls) && Increasing(CallsNodes(calls), cuts)
    requires cuts != [] && cuts[|cuts| - 1] == Cut(|CallsNodes(calls)|, None)
    ensures var msgs := [EMPTY] + Assigned(Messages(CallsNodes(calls), cuts), gen);
            RunDiffs(msgs).Ok? && HasCalls(ApplyAll(EMPTY, RunDiffs(msgs).value), calls)
  {
    var nodes := CallsNodes(calls);
    CallsAreOrderly(calls);
    StreamedParse(nodes, cuts, gen);
    CompleteCalls(calls);
    var raws, n := Messages(nodes, cuts), |cuts| - 1;
    assert Truncated(nodes, cuts[n]) == nodes;
    AssignedAt(raws, n, gen);
    SentCalls(raws[n], RunIds(raws, gen), calls);
    assert ([EMPTY] + Assigned(raws, gen))[|cuts|] == Assigned(raws, gen)[n];
  }
}
