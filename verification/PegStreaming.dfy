/**
  What streaming needs from the mapper: the message built from a shorter part of a parse is continued
  by the message built from a longer part, so the deltas of module Chat never fail.
  */
module PegStreaming {
  import opened Basics
  import opened Chat
  import opened JsonStrings
  import opened PegValues
  import opened PegMapper
  import Json

  // ----- growing messages -----

  lemma GrowsReflexive(m: Message)
    ensures Grows(m, m)
  {
  }

  lemma GrowsTransitive(a: Message, b: Message, c: Message)
    requires Grows(a, b) && Grows(b, c)
    ensures Grows(a, c)
  {
  }

  // ----- reachable states -----

  /** A pending call is the current one and has no name yet. */
  ghost predicate Reachable(s: State) {
    && (s.pending.Some? ==> s.current == PendingTool && s.pending.value.name == "")
    && (s.current == LastCall ==> s.msg.calls != [])
  }

  lemma SetToolReachable(s: State, t: ToolCall)
    requires Reachable(s) && Tool(s).Some? && (s.pending.Some? ==> t.name == "")
    ensures Reachable(SetTool(s, t))
  {
  }

  lemma SetTargetReachable(s: State, text: string)
    requires Reachable(s)
    ensures Reachable(SetTarget(s, text))
  {
    if Tool(s).Some? && Tool(s).value.name != "" {
      SetToolReachable(s, Tool(s).value.(arguments := text));
    }
  }

  lemma NameAndCloseReachable(s: State, name: string)
    requires Reachable(s) && Tool(s).Some?
    ensures Reachable(NameTool(s, name)) && Reachable(CloseTool(s))
  {
  }

  lemma MapKeepsReachable(s: State, node: Node)
    requires Reachable(s)
    ensures Reachable(MapNode(s, node))
  {
    if Tool(s).Some? {
      match node.tag {
        case ToolId => SetToolReachable(s, Tool(s).value.(id := Unquote(TrimTrailing(node.text))));
        case ToolName => NameAndCloseReachable(s, TrimTrailing(node.text));
        case ToolClose => NameAndCloseReachable(s, "");
        case ToolArgs => SetTargetReachable(s, TrimTrailing(node.text));
        case ArgName =>
          var target := if Target(s) == "" then "{" else Target(s);
          SetTargetReachable(s, target + ArgEntry(s.argCount, node.text));
        case ArgStringValue => SetTargetReachable(s, Target(s) + ValueText(s.quotePending, node.text));
        case ArgValue(partial) =>
          SetTargetReachable(s, Target(s) + UntypedAdds(s.quotePending, partial, ValueContent(node.text)));
        case ArgClose => SetTargetReachable(s, Target(s) + "\"");
        case _ =>
      }
    }
  }

  lemma {:induction false} MapAllReachable(nodes: seq<Node>)
    ensures Reachable(MapAll(START, nodes))
  {
    if nodes != [] {
      MapAllReachable(nodes[..|nodes| - 1]);
      MapKeepsReachable(MapAll(START, nodes[..|nodes| - 1]), nodes[|nodes| - 1]);
    }
  }

  /** The final flush of `from_ast` never adds a call: whatever the nodes are, a named call is already visible. */
  lemma FlushAddsNothing(nodes: seq<Node>)
    ensures FromAst(nodes) == MapAll(START, nodes).msg
  {
    MapAllReachable(nodes);
  }

  // ----- one step -----

  /**
    Nodes in the order a tagged call produces them: a call is named once and not with blanks, an
    argument has one value, and complete JSON arguments continue what is already there.
    */
  ghost predicate Orderly(s: State, node: Node) {
    match node.tag
    case ToolName => TrimTrailing(node.text) != "" && (Tool(s).Some? ==> s.pending.Some?)
    case ArgStringValue => !s.quotePending
    case ArgValue(_) => !s.quotePending
    case ToolArgs =>
      var args := TrimTrailing(node.text);
      args != "" && args[0] == '{' ==> Target(s) <= args
    case _ => true
  }

  ghost predicate OrderlyFrom(s: State, nodes: seq<Node>) {
    nodes == [] ||
    var init := nodes[..|nodes| - 1];
    OrderlyFrom(s, init) && Orderly(MapAll(s, init), nodes[|nodes| - 1])
  }

  ghost predicate OrderlyAll(nodes: seq<Node>) { OrderlyFrom(START, nodes) }

  /** Visible calls have names. */
  ghost predicate Named(s: State) {
    Reachable(s) && (s.current == LastCall ==> s.msg.calls[|s.msg.calls| - 1].name != "")
  }

  /** Putting a continuation of a call's name and arguments in its place grows the message. */
  lemma SetToolGrows(s: State, t: ToolCall)
    requires Named(s) && Tool(s).Some?
    requires t.name == Tool(s).value.name && Tool(s).value.arguments <= t.arguments
    ensures Named(SetTool(s, t)) && Grows(s.msg, SetTool(s, t).msg)
  {
  }

  lemma SetTargetGrows(s: State, text: string)
    requires Named(s) && Target(s) <= text
    ensures Named(SetTarget(s, text)) && Grows(s.msg, SetTarget(s, text).msg)
  {
    if Tool(s).Some? && Tool(s).value.name != "" {
      SetToolGrows(s, Tool(s).value.(arguments := text));
    }
  }

  lemma CloseToolGrows(s: State)
    requires Named(s) && Tool(s).Some?
    ensures Named(CloseTool(s)) && Grows(s.msg, CloseTool(s).msg)
  {
    var t := Tool(s).value;
    if s.pending.None? {
      assert s.current == LastCall;
      var args := t.arguments + (if s.quotePending then "\"" else "");
      SetToolGrows(s, t.(arguments := args + Braces(BraceDepth(args))));
    }
  }

  lemma StepGrows(s: State, node: Node)
    requires Named(s) && Orderly(s, node)
    ensures Named(MapNode(s, node)) && Grows(s.msg, MapNode(s, node).msg)
  {
    if Tool(s).Some? {
      match node.tag {
        case ToolId => SetToolGrows(s, Tool(s).value.(id := Unquote(TrimTrailing(node.text))));
        case ToolArgs => SetTargetGrows(s, if Target(s) <= TrimTrailing(node.text) then TrimTrailing(node.text) else Target(s));
        case ArgName => ArgStepGrows(s, node);
        case ArgStringValue => ArgStepGrows(s, node);
        case ArgValue(_) => ValueStepGrows(s, node);
        case ArgClose => ArgStepGrows(s, node);
        case ToolClose => CloseToolGrows(s);
        case _ =>
      }
    }
  }

  lemma ArgStepGrows(s: State, node: Node)
    requires Named(s) && Tool(s).Some? && (node.tag.ArgName? || node.tag.ArgStringValue? || node.tag.ArgClose?)
    ensures Named(MapNode(s, node)) && Grows(s.msg, MapNode(s, node).msg)
  {
    if node.tag.ArgName? {
      var target := if Target(s) == "" then "{" else Target(s);
      AppendGrows(s, target, ArgEntry(s.argCount, node.text));
    } else if node.tag.ArgStringValue? {
      AppendGrows(s, Target(s), ValueText(s.quotePending, node.text));
    } else {
      AppendGrows(s, Target(s), "\"");
      GrowsReflexive(s.msg);
    }
  }

  lemma ValueStepGrows(s: State, node: Node)
    requires Named(s) && Tool(s).Some? && node.tag.ArgValue?
    ensures Named(MapNode(s, node)) && Grows(s.msg, MapNode(s, node).msg)
  {
    AppendGrows(s, Target(s), UntypedAdds(s.quotePending, node.tag.partial, ValueContent(node.text)));
  }

  /** Appending to the arguments, and whatever becomes of the counter and the flag. */
  lemma AppendGrows(s: State, target: string, more: string)
    requires Named(s) && (target == Target(s) || Target(s) == "")
    ensures var t := SetTarget(s, target + more);
            forall n: nat, q: bool ::
              Named(t.(argCount := n, quotePending := q)) && Grows(s.msg, t.(argCount := n, quotePending := q).msg)
  {
    SetTargetGrows(s, target + more);
  }

  lemma {:induction false} RunGrows(nodes: seq<Node>, i: nat)
    requires OrderlyAll(nodes) && i <= |nodes|
    ensures Named(MapAll(START, nodes)) && OrderlyAll(nodes[..i])
    ensures Grows(MapAll(START, nodes[..i]).msg, MapAll(START, nodes).msg)
  {
    if i == |nodes| {
      assert nodes[..i] == nodes;
      GrowsReflexive(MapAll(START, nodes).msg);
    }
    if nodes != [] {
      var n := |nodes| - 1;
      var before := MapAll(START, nodes[..n]);
      RunGrows(nodes[..n], if i < n then i else n);
      StepGrows(before, nodes[n]);
      if i <= n {
        assert nodes[..n][..i] == nodes[..i];
        GrowsTransitive(MapAll(START, nodes[..i]).msg, before.msg, MapAll(START, nodes).msg);
      }
    }
  }

  // ----- truncated parses -----

  /** A point of a parse: some whole nodes and, possibly, the first characters of the next one. */
  datatype Cut = Cut(whole: nat, part: Option<nat>)

  /** The arguments of the current call are seen by the client. */
  predicate Visible(s: State) { Tool(s).Some? && Tool(s).value.name != "" }

  /**
    Where a node may be cut: complete JSON arguments once they continue what is there; of an argument that is seen,
    the name only when nothing but blanks is missing, and an untyped value where it looks like what it turns out to
    be; and everything else anywhere.
    */
  ghost predicate CutFits(s: State, node: Node, k: nat)
    requires k <= |node.text|
  {
    match node.tag
    case ToolArgs => Orderly(s, CutNode(node, k))
    case ArgName => Visible(s) ==> Trim(node.text[..k]) == Trim(node.text)
    case ArgValue(partial) => Visible(s) ==> Alike(ValueContent(node.text[..k]), ValueContent(node.text), partial)
    case _ => true
  }

  ghost predicate ValidCut(nodes: seq<Node>, c: Cut) {
    && c.whole <= |nodes|
    && (c.part.Some? ==>
          && c.whole < |nodes| && c.part.value <= |nodes[c.whole].text|
          && CutFits(MapAll(START, nodes[..c.whole]), nodes[c.whole], c.part.value))
  }

  predicate NotAfter(a: Cut, b: Cut) {
    a.whole < b.whole ||
    (a.whole == b.whole && (a.part.None? || (b.part.Some? && a.part.value <= b.part.value)))
  }

  function CutNode(node: Node, k: nat): Node
    requires k <= |node.text|
  {
    Node(if node.tag.ArgValue? then ArgValue(true) else node.tag, node.text[..k])
  }

  function Truncated(nodes: seq<Node>, c: Cut): seq<Node>
    requires ValidCut(nodes, c)
  {
    if c.part.None? then nodes[..c.whole] else nodes[..c.whole] + [CutNode(nodes[c.whole], c.part.value)]
  }

  lemma ValueContentMonotone(v: string, w: string)
    requires v <= w
    ensures ValueContent(v) <= ValueContent(w)
  {
    var a, b := TrimLeadingOne(v), TrimLeadingOne(w);
    assert a <= b;
    if a == b {
    } else {
      assert a <= b[..|b| - 1];
    }
  }

  lemma ValueTextMonotone(v: string, w: string)
    requires v <= w
    ensures ValueText(false, v) <= ValueText(false, w)
  {
    ValueContentMonotone(v, w);
    EscapeMonotone(ValueContent(v), ValueContent(w));
  }

  lemma {:induction false} TrimTrailingMonotone(v: string, w: string)
    requires v <= w
    ensures TrimTrailing(v) <= TrimTrailing(w)
  {
    if v != w && w != "" && IsSpace(w[|w| - 1]) {
      TrimTrailingMonotone(v, w[..|w| - 1]);
    }
  }

  /** A pending call under a name that is still being read. */
  lemma NamesGrow(s: State, v: string, w: string)
    requires Reachable(s) && Tool(s).Some? && s.pending.Some? && v <= w
    ensures Grows(s.msg, NameTool(s, TrimTrailing(v)).msg)
    ensures Grows(NameTool(s, TrimTrailing(v)).msg, NameTool(s, TrimTrailing(w)).msg)
  {
    TrimTrailingMonotone(v, w);
  }

  /** Two texts for the same target. */
  lemma TargetsGrow(s: State, v: string, w: string)
    requires Named(s) && v <= w
    ensures Grows(SetTarget(s, v).msg, SetTarget(s, w).msg)
  {
  }

  /** The same call under two ids. */
  lemma IdsGrow(s: State, id: string, other: string)
    requires Named(s) && Tool(s).Some?
    ensures Grows(SetTool(s, Tool(s).value.(id := id)).msg, SetTool(s, Tool(s).value.(id := other)).msg)
  {
  }

  /** Complete JSON arguments cut earlier and later. */
  lemma CutArgsGrow(s: State, node: Node, k: nat, l: nat)
    requires Named(s) && node.tag.ToolArgs? && k <= l <= |node.text| && Orderly(s, CutNode(node, l))
    ensures Grows(MapNode(s, CutNode(node, k)).msg, MapNode(s, CutNode(node, l)).msg)
  {
    var a, b := TrimTrailing(node.text[..k]), TrimTrailing(node.text[..l]);
    TrimTrailingMonotone(node.text[..k], node.text[..l]);
    if a == "" {
      StepGrows(s, CutNode(node, l));
    } else {
      assert a[0] == b[0];
      TargetsGrow(s, a, b);
      GrowsReflexive(s.msg);
    }
  }

  /** The name of an argument cut earlier and later. */
  lemma CutNamesGrow(s: State, node: Node, k: nat, l: nat)
    requires Named(s) && node.tag.ArgName? && k <= |node.text| && l <= |node.text|
    requires CutFits(s, node, k) && CutFits(s, node, l)
    ensures Grows(MapNode(s, CutNode(node, k)).msg, MapNode(s, CutNode(node, l)).msg)
  {
    GrowsReflexive(MapNode(s, CutNode(node, k)).msg);
  }

  lemma ContentsGrow(u: string, v: string, w: string)
    requires u <= v <= w
    ensures ValueContent(u) <= ValueContent(v) <= ValueContent(w)
  {
    ValueContentMonotone(u, v);
    ValueContentMonotone(v, w);
  }

  /** The state behind an untyped value, as far as the message goes. */
  lemma UntypedMessage(s: State, partial: bool, text: string)
    requires Tool(s).Some? && !s.quotePending
    ensures MapNode(s, Node(ArgValue(partial), text)).msg ==
              SetTarget(s, Target(s) + UntypedText(partial, ValueContent(text))).msg
  {
  }

  /** An untyped value cut and cut later, or whole. */
  lemma AlikeValuesGrow(s: State, v: string, w: string, partial: bool)
    requires Named(s) && !s.quotePending && v <= w
    requires Visible(s) ==> Alike(ValueContent(v), ValueContent(w), partial)
    ensures Grows(MapNode(s, Node(ArgValue(true), v)).msg, MapNode(s, Node(ArgValue(partial), w)).msg)
  {
    if Tool(s).Some? {
      UntypedMessage(s, true, v);
      UntypedMessage(s, partial, w);
      if Visible(s) {
        ValueContentMonotone(v, w);
        AlikeIsContinued(ValueContent(v), ValueContent(w), partial);
        ValuesGrowExactly(s, v, w, partial);
      } else {
        GrowsReflexive(s.msg);
      }
    } else {
      GrowsReflexive(s.msg);
    }
  }

  /** An untyped value that is seen grows from a cut to a later one, or to the whole, exactly when it is continued. */
  lemma ValuesGrowExactly(s: State, v: string, w: string, partial: bool)
    requires Named(s) && Visible(s) && !s.quotePending && v <= w
    ensures Grows(MapNode(s, Node(ArgValue(true), v)).msg, MapNode(s, Node(ArgValue(partial), w)).msg) <==>
            Continued(ValueContent(v), ValueContent(w), partial)
  {
    UntypedMessage(s, true, v);
    UntypedMessage(s, partial, w);
    ValueContentMonotone(v, w);
    var x, y := UntypedText(true, ValueContent(v)), UntypedText(partial, ValueContent(w));
    UntypedCutExactly(ValueContent(v), ValueContent(w), partial);
    PrefixCancels(Target(s), x, y);
    if x <= y {
      TargetsGrow(s, Target(s) + x, Target(s) + y);
    } else {
      TargetsApart(s, Target(s) + x, Target(s) + y);
    }
  }

  /** The same node cut earlier and later. */
  lemma CutNodesGrow(s: State, node: Node, k: nat, l: nat)
    requires Named(s) && Orderly(s, node) && k <= l <= |node.text| && CutFits(s, node, k) && CutFits(s, node, l)
    ensures Grows(MapNode(s, CutNode(node, k)).msg, MapNode(s, CutNode(node, l)).msg)
  {
    var v, w := node.text[..k], node.text[..l];
    match node.tag {
      case ReasoningTag =>
      case ContentTag =>
      case ToolArgs => CutArgsGrow(s, node, k, l);
      case ArgName => CutNamesGrow(s, node, k, l);
      case ArgValue(partial) =>
        if Visible(s) {
          ContentsGrow(v, w, node.text);
          AlikeBetween(ValueContent(v), ValueContent(w), ValueContent(node.text), partial);
        }
        AlikeValuesGrow(s, v, w, true);
      case ToolId =>
        if Tool(s).Some? {
          IdsGrow(s, Unquote(TrimTrailing(v)), Unquote(TrimTrailing(w)));
        }
      case ArgStringValue =>
        if Tool(s).Some? {
          ValueTextMonotone(v, w);
          TargetsGrow(s, Target(s) + ValueText(false, v), Target(s) + ValueText(false, w));
        }
      case ToolName =>
        if Tool(s).Some? {
          NamesGrow(s, v, w);
        }
      case _ => GrowsReflexive(MapNode(s, node).msg);
    }
  }

  /** Whole nodes against a part of the next one, which need not be orderly itself: a name may be blank so far. */
  lemma CutStepGrows(s: State, node: Node, k: nat)
    requires Named(s) && Orderly(s, node) && k <= |node.text| && CutFits(s, node, k)
    ensures Grows(s.msg, MapNode(s, CutNode(node, k)).msg)
  {
    if node.tag.ToolName? {
      if Tool(s).Some? {
        NamesGrow(s, node.text[..k], node.text);
      }
    } else {
      StepGrows(s, CutNode(node, k));
    }
  }

  /** Arguments in JSON that start a call may be cut anywhere. */
  lemma FirstArgsCutAnywhere(s: State, node: Node, k: nat)
    requires node.tag.ToolArgs? && k <= |node.text| && Target(s) <= "{"
    ensures CutFits(s, node, k)
  {
    var args := TrimTrailing(node.text[..k]);
    if args != "" && args[0] == '{' {
      assert args[..1] == "{";
    }
  }

  /** The condition for the name of an argument is exact: any other cut is taken back by the whole name. */
  lemma ArgNameCutExactly(s: State, node: Node, k: nat)
    requires Named(s) && Visible(s) && node.tag.ArgName? && k <= |node.text|
    ensures Grows(MapNode(s, CutNode(node, k)).msg, MapNode(s, node).msg) <==> CutFits(s, node, k)
  {
    assert CutNode(node, |node.text|) == node && node.text[..|node.text|] == node.text;
    if CutFits(s, node, k) {
      CutNamesGrow(s, node, k, |node.text|);
    } else {
      var target := if Target(s) == "" then "{" else Target(s);
      EntriesDiffer(target, s.argCount, node.text[..k], node.text);
      TargetsApart(s, target + ArgEntry(s.argCount, node.text[..k]), target + ArgEntry(s.argCount, node.text));
    }
  }

  lemma WordContent(word: string)
    requires forall i :: 0 <= i < |word| ==> 'a' <= word[i] <= 'z'
    ensures ValueContent(word) == word
  {
  }

  /** Streaming a literal under a name that is seen: what is sent after a cut inside it is taken back. */
  lemma LiteralCutBreaks(s: State, word: string, k: nat, partial: bool)
    requires Named(s) && Visible(s) && !s.quotePending && Json.IsLiteral(word) && 0 < k < |word|
    ensures var node := Node(ArgValue(partial), word); !Grows(MapNode(s, CutNode(node, k)).msg, MapNode(s, node).msg)
  {
    LiteralStart(word);
    WordContent(word);
    WordContent(word[..k]);
    LiteralIsNotContinued(word, k, partial);
    ValuesGrowExactly(s, word[..k], word, partial);
  }

  lemma TargetsApart(s: State, v: string, w: string)
    requires Named(s) && Visible(s) && !(v <= w)
    ensures !Grows(SetTarget(s, v).msg, SetTarget(s, w).msg)
  {
    assert s.current == LastCall;
  }

  lemma EntriesDiffer(target: string, n: nat, v: string, w: string)
    requires Trim(v) != Trim(w)
    ensures !(target + ArgEntry(n, v) <= target + ArgEntry(n, w))
  {
    var lead := if n > 0 then "," else "";
    if target + ArgEntry(n, v) <= target + ArgEntry(n, w) {
      assert ArgEntry(n, v) == lead + (Dump(Trim(v)) + ":") && ArgEntry(n, w) == lead + (Dump(Trim(w)) + ":");
      PrefixCancels(target, ArgEntry(n, v), ArgEntry(n, w));
      PrefixCancels(lead, Dump(Trim(v)) + ":", Dump(Trim(w)) + ":");
      DumpIsPrefixFree(Trim(v), Trim(w));
    }
  }

  /** The message of a truncated parse is the one of its whole nodes with one more, cut, node mapped. */
  lemma TruncatedMessage(nodes: seq<Node>, c: Cut)
    requires ValidCut(nodes, c)
    ensures var s := MapAll(START, nodes[..c.whole]);
            FromAst(Truncated(nodes, c)) ==
              if c.part.None? then s.msg else MapNode(s, CutNode(nodes[c.whole], c.part.value)).msg
  {
    FlushAddsNothing(Truncated(nodes, c));
    if c.part.Some? {
      var t := Truncated(nodes, c);
      assert t[..|t| - 1] == nodes[..c.whole];
    }
  }

  /** A truncated node lies between its whole predecessors and the whole node. */
  lemma CutBetween(nodes: seq<Node>, c: Cut)
    requires OrderlyAll(nodes) && ValidCut(nodes, c) && c.part.Some?
    ensures Grows(MapAll(START, nodes[..c.whole]).msg, FromAst(Truncated(nodes, c)))
    ensures Grows(FromAst(Truncated(nodes, c)), MapAll(START, nodes[..c.whole + 1]).msg)
  {
    TruncatedMessage(nodes, c);
    OrderlyHere(nodes, c.whole);
    CutAroundGrows(MapAll(START, nodes[..c.whole]), nodes[c.whole], c.part.value);
  }

  lemma OrderlyHere(nodes: seq<Node>, i: nat)
    requires OrderlyAll(nodes) && i < |nodes|
    ensures var s := MapAll(START, nodes[..i]);
            Named(s) && Orderly(s, nodes[i]) && MapAll(START, nodes[..i + 1]) == MapNode(s, nodes[i])
  {
    RunGrows(nodes, i + 1);
    RunGrows(nodes, i);
    RunGrows(nodes[..i], 0);
    assert nodes[..i + 1][..i] == nodes[..i];
  }

  lemma CutAroundGrows(s: State, node: Node, k: nat)
    requires Named(s) && Orderly(s, node) && k <= |node.text| && CutFits(s, node, k)
    ensures Grows(s.msg, MapNode(s, CutNode(node, k)).msg) && Grows(MapNode(s, CutNode(node, k)).msg, MapNode(s, node).msg)
  {
    CutStepGrows(s, node, k);
    if node.tag.ArgValue? {
      AlikeValuesGrow(s, node.text[..k], node.text, node.tag.partial);
    } else {
      assert node.text[..|node.text|] == node.text && CutNode(node, |node.text|) == node;
      CutNodesGrow(s, node, k, |node.text|);
    }
  }

  /** Two cuts of the same node. */
  lemma SameNodeGrows(nodes: seq<Node>, a: Cut, b: Cut)
    requires OrderlyAll(nodes) && ValidCut(nodes, a) && ValidCut(nodes, b)
    requires a.whole == b.whole && a.part.Some? && b.part.Some? && a.part.value <= b.part.value
    ensures Grows(FromAst(Truncated(nodes, a)), FromAst(Truncated(nodes, b)))
  {
    TruncatedMessage(nodes, a);
    TruncatedMessage(nodes, b);
    OrderlyHere(nodes, b.whole);
    CutNodesGrow(MapAll(START, nodes[..b.whole]), nodes[b.whole], a.part.value, b.part.value);
  }

  lemma WholeNodesGrow(nodes: seq<Node>, i: nat, j: nat)
    requires OrderlyAll(nodes) && i <= j <= |nodes|
    ensures Grows(MapAll(START, nodes[..i]).msg, MapAll(START, nodes[..j]).msg)
  {
    RunGrows(nodes, j);
    RunGrows(nodes[..j], i);
    assert nodes[..j][..i] == nodes[..i];
  }

  /** A cut against a number of whole nodes that include the cut one. */
  lemma CutGrows(nodes: seq<Node>, c: Cut, whole: nat)
    requires OrderlyAll(nodes) && ValidCut(nodes, c) && whole <= |nodes|
    requires c.whole + (if c.part.Some? then 1 else 0) <= whole
    ensures Grows(FromAst(Truncated(nodes, c)), MapAll(START, nodes[..whole]).msg)
  {
    var m, reached := FromAst(Truncated(nodes, c)), if c.part.Some? then c.whole + 1 else c.whole;
    if c.part.Some? {
      CutBetween(nodes, c);
    } else {
      TruncatedMessage(nodes, c);
      GrowsReflexive(m);
    }
    WholeNodesGrow(nodes, reached, whole);
    GrowsTransitive(m, MapAll(START, nodes[..reached]).msg, MapAll(START, nodes[..whole]).msg);
  }

  /** Whole nodes against those nodes and a part of the next one. */
  lemma WholeGrows(nodes: seq<Node>, c: Cut)
    requires OrderlyAll(nodes) && ValidCut(nodes, c)
    ensures Grows(MapAll(START, nodes[..c.whole]).msg, FromAst(Truncated(nodes, c)))
  {
    if c.part.Some? {
      CutBetween(nodes, c);
    } else {
      TruncatedMessage(nodes, c);
      GrowsReflexive(FromAst(Truncated(nodes, c)));
    }
  }

  /** Whatever two points of an orderly parse are compared, the later message continues the earlier one. */
  lemma TruncationsGrow(nodes: seq<Node>, a: Cut, b: Cut)
    requires OrderlyAll(nodes) && ValidCut(nodes, a) && ValidCut(nodes, b) && NotAfter(a, b)
    ensures Grows(FromAst(Truncated(nodes, a)), FromAst(Truncated(nodes, b)))
  {
    if a.whole == b.whole && a.part.Some? {
      SameNodeGrows(nodes, a, b);
    } else {
      CutGrows(nodes, a, b.whole);
      WholeGrows(nodes, b);
      GrowsTransitive(FromAst(Truncated(nodes, a)), MapAll(START, nodes[..b.whole]).msg, FromAst(Truncated(nodes, b)));
    }
  }

  // ----- end to end -----

  ghost predicate Increasing(nodes: seq<Node>, cuts: seq<Cut>) {
    (forall c :: c in cuts ==> ValidCut(nodes, c)) &&
    (|cuts| < 2 || (Increasing(nodes, cuts[..|cuts| - 1]) && NotAfter(cuts[|cuts| - 2], cuts[|cuts| - 1])))
  }

  function Messages(nodes: seq<Node>, cuts: seq<Cut>): (r: seq<Message>)
    requires forall c :: c in cuts ==> ValidCut(nodes, c)
    ensures |r| == |cuts| && forall i :: 0 <= i < |r| ==> r[i] == FromAst(Truncated(nodes, cuts[i]))
  {
    seq(|cuts|, i requires 0 <= i < |cuts| => FromAst(Truncated(nodes, cuts[i])))
  }

  lemma {:induction false} MessagesGrow(nodes: seq<Node>, cuts: seq<Cut>)
    requires OrderlyAll(nodes) && Increasing(nodes, cuts)
    ensures RawGrowing(Messages(nodes, cuts))
  {
    if |cuts| >= 2 {
      MessagesGrow(nodes, cuts[..|cuts| - 1]);
      InitMessages(nodes, cuts);
      LastCutsGrow(nodes, cuts);
      GrowingSnoc(Messages(nodes, cuts), Messages(nodes, cuts[..|cuts| - 1]));
    }
  }

  lemma GrowingSnoc(raws: seq<Message>, init: seq<Message>)
    requires |raws| >= 2 && init == raws[..|raws| - 1] && RawGrowing(init) && Grows(raws[|raws| - 2], raws[|raws| - 1])
    ensures RawGrowing(raws)
  {
  }

  lemma InitMessages(nodes: seq<Node>, cuts: seq<Cut>)
    requires cuts != [] && forall c :: c in cuts ==> ValidCut(nodes, c)
    ensures var n := |cuts| - 1; Messages(nodes, cuts[..n]) == Messages(nodes, cuts)[..n]
  {
  }

  lemma LastCutsGrow(nodes: seq<Node>, cuts: seq<Cut>)
    requires OrderlyAll(nodes) && Increasing(nodes, cuts) && |cuts| >= 2
    ensures var n := |cuts| - 1; Grows(Messages(nodes, cuts)[n - 1], Messages(nodes, cuts)[n])
  {
    var n := |cuts| - 1;
    assert cuts[n - 1] in cuts && cuts[n] in cuts;
    TruncationsGrow(nodes, cuts[n - 1], cuts[n]);
  }

  /**
    From parse to client: whatever points of an orderly parse are streamed, the deltas never fail, the
    client's message ends as the last parse's message, and each call slot sees one id only.
    */
  lemma StreamedParse(nodes: seq<Node>, cuts: seq<Cut>, gen: nat -> string)
    requires OrderlyAll(nodes) && Increasing(nodes, cuts)
    ensures var raws := Messages(nodes, cuts);
            var msgs := [EMPTY] + Assigned(raws, gen);
            && RunDiffs(msgs).Ok?
            && ApplyAll(EMPTY, RunDiffs(msgs).value) == msgs[|cuts|]
            && forall d :: d in RunDiffs(msgs).value ==> IdIsFixed(d, RunIds(raws, gen))
  {
    MessagesGrow(nodes, cuts);
    StreamingRebuilds(Messages(nodes, cuts), gen);
  }
}
