/**
  common/chat.h and common/chat.cpp: chat messages, tool-call ids, and the deltas that are
  streamed to a client while a message is still growing.
  */
module Chat {
  import opened Basics

  datatype Result<T> = Ok(value: T) | InvalidDiff

  datatype ToolCall = ToolCall(name: string, arguments: string, id: string)

  /** The fields of `common_chat_msg` that streaming looks at. */
  datatype Message = Message(content: string, reasoning: string, calls: seq<ToolCall>)

  /** `common_chat_msg_diff`; `index` is None where the source has npos. */
  datatype Diff = Diff(reasoningDelta: string, contentDelta: string, index: Option<nat>, delta: ToolCall)

  const NO_CALL := ToolCall("", "", "")
  const EMPTY := Message("", "", [])

  /** `string_diff` (common/chat.cpp:50-63). */
  function StringDiff(last: string, current: string): Result<string> {
    if last == "" then Ok(current)
    else if !(last <= current) then (if current <= last then Ok("") else InvalidDiff)
    else Ok(current[|last|..])
  }

  // ----- compute_diffs -----

  function ReasoningDiffs(prev: Message, next: Message): Result<seq<Diff>> {
    if prev.reasoning == next.reasoning then Ok([])
    else match StringDiff(prev.reasoning, next.reasoning)
         case Ok(d) => Ok([Diff(d, "", None, NO_CALL)])
         case InvalidDiff => InvalidDiff
  }

  function ContentDiffs(prev: Message, next: Message): Result<seq<Diff>> {
    if prev.content == next.content then Ok([])
    else match StringDiff(prev.content, next.content)
         case Ok(d) => Ok([Diff("", d, None, NO_CALL)])
         case InvalidDiff => InvalidDiff
  }

  /** The delta of a call that was already known (common/chat.cpp:182-207). */
  function CallDiffs(index: nat, was: ToolCall, now: ToolCall): Result<seq<Diff>> {
    var args := StringDiff(was.arguments, now.arguments);
    if was.name != now.name && was.name != "" && now.name != "" && !(was.name <= now.name) then InvalidDiff
    else if args.InvalidDiff? then InvalidDiff
    else if args.value != "" || was.id != now.id || was.name != now.name then
      var renamed := was.id != now.id || was.name != now.name;
      Ok([Diff("", "", Some(index),
               ToolCall(if renamed then now.name else "", args.value, if renamed then now.id else ""))])
    else Ok([])
  }

  function LastCallDiffs(prev: Message, next: Message): Result<seq<Diff>>
    requires |prev.calls| <= |next.calls|
  {
    if prev.calls == [] then Ok([])
    else var i := |prev.calls| - 1; CallDiffs(i, prev.calls[i], next.calls[i])
  }

  function NewCallDiffs(calls: seq<ToolCall>, from: nat): (r: seq<Diff>)
    requires from <= |calls|
    decreases |calls| - from
  {
    if from == |calls| then [] else [Diff("", "", Some(from), calls[from])] + NewCallDiffs(calls, from + 1)
  }

  /** What `compute_diffs` returns; it throws when a text or call does not continue the previous one. */
  function Diffs(prev: Message, next: Message): Result<seq<Diff>> {
    var r, c := ReasoningDiffs(prev, next), ContentDiffs(prev, next);
    if r.InvalidDiff? || c.InvalidDiff? || |next.calls| < |prev.calls| then InvalidDiff
    else
      var last := LastCallDiffs(prev, next);
      if last.InvalidDiff? then InvalidDiff
      else Ok(r.value + c.value + last.value + NewCallDiffs(next.calls, |prev.calls|))
  }

  /** `compute_diffs` (common/chat.cpp:149-215). */
  method ComputeDiffs(prev: Message, next: Message) returns (r: Result<seq<Diff>>)
    ensures r == Diffs(prev, next)
  {
    var diffs: seq<Diff> := [];
    if prev.reasoning != next.reasoning {
      var d := StringDiff(prev.reasoning, next.reasoning);
      if d.InvalidDiff? { return InvalidDiff; }
      diffs := [Diff(d.value, "", None, NO_CALL)];
    }
    assert ReasoningDiffs(prev, next) == Ok(diffs);
    if prev.content != next.content {
      var d := StringDiff(prev.content, next.content);
      if d.InvalidDiff? { return InvalidDiff; }
      diffs := diffs + [Diff("", d.value, None, NO_CALL)];
    } else {
      assert diffs + [] == diffs;
    }
    assert ContentDiffs(prev, next).Ok? && diffs == ReasoningDiffs(prev, next).value + ContentDiffs(prev, next).value;
    if |next.calls| < |prev.calls| { return InvalidDiff; }
    if prev.calls != [] {
      var i := |prev.calls| - 1;
      var d := CallDiffs(i, prev.calls[i], next.calls[i]);
      if d.InvalidDiff? { return InvalidDiff; }
      diffs := diffs + d.value;
    } else {
      assert diffs + [] == diffs;
    }
    ghost var known := diffs;
    var i := |prev.calls|;
    assert NewCallDiffs(next.calls, |next.calls|) == [];
    while i < |next.calls|
      invariant |prev.calls| <= i <= |next.calls|
      invariant diffs + NewCallDiffs(next.calls, i) == known + NewCallDiffs(next.calls, |prev.calls|)
    {
      diffs := diffs + [Diff("", "", Some(i), next.calls[i])];
      i := i + 1;
    }
    assert diffs + [] == diffs;
    return Ok(diffs);
  }

  // ----- the client -----

  function Padded(calls: seq<ToolCall>, n: nat): (r: seq<ToolCall>)
    ensures |r| >= n && calls <= r
    ensures n <= |calls| ==> r == calls
    decreases n - |calls|
  {
    if n <= |calls| then calls else Padded(calls + [NO_CALL], n)
  }

  function Update(call: ToolCall, delta: ToolCall): ToolCall {
    ToolCall(if delta.name != "" then delta.name else call.name,
             call.arguments + delta.arguments,
             if delta.id != "" then delta.id else call.id)
  }

  /** A client adds one delta to the message it has (tests/test-chat.cpp:893-917). */
  function Apply(m: Message, d: Diff): Message {
    var texts := m.(reasoning := m.reasoning + d.reasoningDelta, content := m.content + d.contentDelta);
    if d.index.None? then texts
    else
      var i := d.index.value;
      var calls := Padded(m.calls, i + 1);
      texts.(calls := calls[i := Update(calls[i], d.delta)])
  }

  function ApplyAll(m: Message, ds: seq<Diff>): Message
    decreases ds
  {
    if ds == [] then m else ApplyAll(Apply(m, ds[0]), ds[1..])
  }

  lemma {:induction false} ApplyAppend(m: Message, a: seq<Diff>, b: seq<Diff>)
    ensures ApplyAll(m, a + b) == ApplyAll(ApplyAll(m, a), b)
    decreases a
  {
    if a == [] {
      assert a + b == b;
    } else {
      assert (a + b)[1..] == a[1..] + b;
      ApplyAppend(Apply(m, a[0]), a[1..], b);
    }
  }

  lemma ApplyOne(m: Message, d: Diff)
    ensures ApplyAll(m, [d]) == Apply(m, d)
  {
    assert [d][1..] == [];
    assert ApplyAll(Apply(m, d), []) == Apply(m, d);
  }

  // ----- when the deltas rebuild the message -----

  ghost predicate CallExtends(was: ToolCall, now: ToolCall) {
    && was.name <= now.name
    && was.arguments <= now.arguments
    && (was.id == now.id || now.id != "")
  }

  /** `next` continues `prev`: texts grow, only the last known call may still grow. */
  ghost predicate Extends(prev: Message, next: Message) {
    && prev.reasoning <= next.reasoning
    && prev.content <= next.content
    && |prev.calls| <= |next.calls|
    && (forall i :: 0 <= i < |prev.calls| - 1 ==> next.calls[i] == prev.calls[i])
    && (prev.calls != [] ==> CallExtends(prev.calls[|prev.calls| - 1], next.calls[|prev.calls| - 1]))
  }

  /** The deltas are computed without an error and give the client the new message. */
  ghost predicate Rebuilds(prev: Message, next: Message) {
    Diffs(prev, next).Ok? && ApplyAll(prev, Diffs(prev, next).value) == next
  }

  lemma {:induction false} NewCallsApply(m: Message, calls: seq<ToolCall>)
    requires |m.calls| <= |calls|
    ensures ApplyAll(m, NewCallDiffs(calls, |m.calls|)) == m.(calls := m.calls + calls[|m.calls|..])
    decreases |calls| - |m.calls|
  {
    var k := |m.calls|;
    if k == |calls| {
      assert m.calls + calls[k..] == m.calls;
    } else {
      var d := Diff("", "", Some(k), calls[k]);
      assert Padded(m.calls, k + 1) == m.calls + [NO_CALL];
      var m' := Apply(m, d);
      assert "" + calls[k].arguments == calls[k].arguments;
      assert Update(NO_CALL, calls[k]) == calls[k];
      assert m'.calls == m.calls + [calls[k]];
      assert m.reasoning + "" == m.reasoning && m.content + "" == m.content;
      NewCallsApply(m', calls);
      assert NewCallDiffs(calls, k)[1..] == NewCallDiffs(calls, k + 1);
      assert m'.calls + calls[k + 1..] == m.calls + calls[k..];
    }
  }

  lemma StringDiffExact(last: string, current: string)
    ensures last != current ==>
              (StringDiff(last, current).Ok? && last + StringDiff(last, current).value == current <==> last <= current)
    ensures last == current ==> StringDiff(last, current) == Ok("")
  {
    if last <= current {
      assert last + current[|last|..] == current;
      assert "" + current == current;
    }
  }

  lemma ReasoningApplies(prev: Message, next: Message)
    requires ReasoningDiffs(prev, next).Ok?
    ensures var m := ApplyAll(prev, ReasoningDiffs(prev, next).value);
            && m.calls == prev.calls && m.content == prev.content
            && (m.reasoning == next.reasoning <==> prev.reasoning <= next.reasoning)
  {
    StringDiffExact(prev.reasoning, next.reasoning);
    var ds := ReasoningDiffs(prev, next).value;
    if ds != [] {
      ApplyOne(prev, ds[0]);
      assert prev.content + "" == prev.content;
    }
  }

  lemma ContentApplies(m: Message, prev: Message, next: Message)
    requires ContentDiffs(prev, next).Ok? && m.content == prev.content
    ensures var m' := ApplyAll(m, ContentDiffs(prev, next).value);
            && m'.calls == m.calls && m'.reasoning == m.reasoning
            && (m'.content == next.content <==> prev.content <= next.content)
  {
    StringDiffExact(prev.content, next.content);
    var ds := ContentDiffs(prev, next).value;
    if ds != [] {
      ApplyOne(m, ds[0]);
      assert m.reasoning + "" == m.reasoning;
    }
  }

  lemma CallDiffsApply(m: Message, index: nat, now: ToolCall)
    requires index < |m.calls| && CallDiffs(index, m.calls[index], now).Ok?
    ensures var m' := ApplyAll(m, CallDiffs(index, m.calls[index], now).value);
            && |m'.calls| == |m.calls|
            && m' == m.(calls := m.calls[index := m'.calls[index]])
            && (m'.calls[index] == now <==> CallExtends(m.calls[index], now))
  {
    var was := m.calls[index];
    StringDiffExact(was.arguments, now.arguments);
    var ds := CallDiffs(index, was, now).value;
    if ds != [] {
      ApplyOne(m, ds[0]);
      assert m.reasoning + "" == m.reasoning && m.content + "" == m.content;
    } else {
      assert m.calls[index := m.calls[index]] == m.calls;
    }
  }

  lemma ExtendsIsValid(prev: Message, next: Message)
    requires Extends(prev, next)
    ensures Diffs(prev, next).Ok?
  {
    StringDiffExact(prev.reasoning, next.reasoning);
    StringDiffExact(prev.content, next.content);
    if prev.calls != [] {
      var i := |prev.calls| - 1;
      StringDiffExact(prev.calls[i].arguments, next.calls[i].arguments);
    }
  }

  lemma LastCallApplies(m: Message, prev: Message, next: Message)
    requires |prev.calls| <= |next.calls| && LastCallDiffs(prev, next).Ok? && m.calls == prev.calls
    ensures var m' := ApplyAll(m, LastCallDiffs(prev, next).value);
            && m' == m.(calls := m'.calls) && |m'.calls| == |prev.calls|
            && (forall i :: 0 <= i < |prev.calls| - 1 ==> m'.calls[i] == prev.calls[i])
            && (prev.calls != [] ==>
                  var i := |prev.calls| - 1; (m'.calls[i] == next.calls[i] <==> CallExtends(prev.calls[i], next.calls[i])))
  {
    if prev.calls != [] {
      CallDiffsApply(m, |prev.calls| - 1, next.calls[|prev.calls| - 1]);
    }
  }

  /** The message a client has after the deltas: its known calls, updated, then the new ones. */
  lemma DiffsApply(prev: Message, next: Message) returns (known: seq<ToolCall>)
    requires Diffs(prev, next).Ok?
    ensures |known| == |prev.calls| <= |next.calls|
    ensures forall i :: 0 <= i < |known| - 1 ==> known[i] == prev.calls[i]
    ensures known != [] ==>
              var i := |known| - 1; (known[i] == next.calls[i] <==> CallExtends(prev.calls[i], next.calls[i]))
    ensures var m := ApplyAll(prev, Diffs(prev, next).value);
            && (m.reasoning == next.reasoning <==> prev.reasoning <= next.reasoning)
            && (m.content == next.content <==> prev.content <= next.content)
            && m.calls == known + next.calls[|known|..]
  {
    var r, c := ReasoningDiffs(prev, next).value, ContentDiffs(prev, next).value;
    var last, added := LastCallDiffs(prev, next).value, NewCallDiffs(next.calls, |prev.calls|);
    ApplyAppend(prev, r + c + last, added);
    ApplyAppend(prev, r + c, last);
    ApplyAppend(prev, r, c);
    ReasoningApplies(prev, next);
    var m1 := ApplyAll(prev, r);
    ContentApplies(m1, prev, next);
    var m2 := ApplyAll(m1, c);
    LastCallApplies(m2, prev, next);
    var m3 := ApplyAll(m2, last);
    NewCallsApply(m3, next.calls);
    known := m3.calls;
  }

  /** The deltas rebuild the new message if and only if it continues the previous one. */
  lemma DiffsRebuildExactly(prev: Message, next: Message)
    ensures Rebuilds(prev, next) <==> Extends(prev, next)
  {
    if Extends(prev, next) {
      ExtendsIsValid(prev, next);
    }
    if Diffs(prev, next).Ok? {
      var known := DiffsApply(prev, next);
      KnownCallsExact(prev, next, known);
      SameBeyond(ApplyAll(prev, Diffs(prev, next).value).calls, known, next.calls);
    }
  }

  /** Calls that agree behind the known ones are the same if the known ones are. */
  lemma SameBeyond(calls: seq<ToolCall>, known: seq<ToolCall>, all: seq<ToolCall>)
    requires |known| <= |all| && calls == known + all[|known|..]
    ensures calls == all <==> known == all[..|known|]
  {
    assert calls[..|known|] == known && all == all[..|known|] + all[|known|..];
  }

  /** A message that gets shorter: the only delta is empty and the client keeps the longer text. */
  lemma ShrinkExample()
    ensures var prev, next := EMPTY.(content := "ab"), EMPTY.(content := "a");
            && Diffs(prev, next) == Ok([Diff("", "", None, NO_CALL)])
            && !Extends(prev, next) && !Rebuilds(prev, next)
  {
    var prev, next := EMPTY.(content := "ab"), EMPTY.(content := "a");
    DiffsRebuildExactly(prev, next);
    assert prev.content[..1] == next.content;
    var d := [Diff("", "", None, NO_CALL)];
    assert ContentDiffs(prev, next) == Ok(d);
    assert [] + d + [] + [] == d && NewCallDiffs(next.calls, 0) == [];
  }

  lemma KnownCallsExact(prev: Message, next: Message, calls: seq<ToolCall>)
    requires |calls| == |prev.calls| <= |next.calls|
    requires forall i :: 0 <= i < |calls| - 1 ==> calls[i] == prev.calls[i]
    requires calls != [] ==>
               var i := |calls| - 1; (calls[i] == next.calls[i] <==> CallExtends(prev.calls[i], next.calls[i]))
    ensures calls == next.calls[..|calls|] <==>
              && (forall i :: 0 <= i < |calls| - 1 ==> next.calls[i] == prev.calls[i])
              && (calls != [] ==> CallExtends(prev.calls[|calls| - 1], next.calls[|calls| - 1]))
  {
    var n := |calls|;
    if calls == next.calls[..n] {
      assert forall i :: 0 <= i < n ==> calls[i] == next.calls[i];
    }
  }

  // ----- which deltas there are -----

  /** Neither text continues the other. */
  predicate Clash(a: string, b: string) { !(a <= b) && !(b <= a) }

  /** `compute_diffs` throws exactly for texts that clash, for calls that are gone, and for a name that does not grow. */
  lemma DiffsThrowExactly(prev: Message, next: Message)
    ensures Diffs(prev, next).InvalidDiff? <==>
              || Clash(prev.reasoning, next.reasoning) || Clash(prev.content, next.content)
              || |next.calls| < |prev.calls|
              || (prev.calls != [] &&
                    var was, now := prev.calls[|prev.calls| - 1], next.calls[|prev.calls| - 1];
                    Clash(was.arguments, now.arguments) || (now.name != "" && !(was.name <= now.name)))
  {
  }

  lemma {:induction false} NewCallDeltas(calls: seq<ToolCall>, from: nat, d: Diff)
    requires from <= |calls| && d in NewCallDiffs(calls, from)
    ensures d.index.Some? && from <= d.index.value < |calls| && d == Diff("", "", d.index, calls[d.index.value])
    decreases |calls| - from
  {
    if d in NewCallDiffs(calls, from + 1) {
      NewCallDeltas(calls, from + 1, d);
    }
  }

  /** A delta of a text belongs to a text that changed. */
  predicate TextDelta(d: Diff, prev: Message, next: Message) {
    && d.index.None? && d.delta == NO_CALL
    && ((prev.reasoning != next.reasoning && d.contentDelta == "") || (prev.content != next.content && d.reasoningDelta == ""))
  }

  /** A delta of a call is that of a new call, or of the last known one: without name and id when neither changed. */
  predicate CallDelta(d: Diff, prev: Message, next: Message) {
    && d.index.Some? && d.reasoningDelta == "" && d.contentDelta == ""
    && var i := d.index.value;
       && i < |next.calls|
       && if i >= |prev.calls| then d.delta == next.calls[i]
          else
            var was, now := prev.calls[i], next.calls[i];
            && i == |prev.calls| - 1 && was != now
            && (was.name == now.name && was.id == now.id ==> d.delta.name == "" && d.delta.id == "")
  }

  /** No delta says anything that did not change. */
  lemma DeltasAreNeeded(prev: Message, next: Message, d: Diff)
    requires Diffs(prev, next).Ok? && d in Diffs(prev, next).value
    ensures TextDelta(d, prev, next) || CallDelta(d, prev, next)
  {
    if d in NewCallDiffs(next.calls, |prev.calls|) {
      NewCallDeltas(next.calls, |prev.calls|, d);
    }
  }

  // ----- runs -----

  /** All deltas of a run of messages, or the error of the first pair that has one. */
  function RunDiffs(msgs: seq<Message>): Result<seq<Diff>> {
    if |msgs| < 2 then Ok([])
    else
      var before := RunDiffs(msgs[..|msgs| - 1]);
      var last := Diffs(msgs[|msgs| - 2], msgs[|msgs| - 1]);
      if before.InvalidDiff? || last.InvalidDiff? then InvalidDiff else Ok(before.value + last.value)
  }

  /** Every message of the run continues the one before it. */
  ghost predicate Growing(msgs: seq<Message>) {
    |msgs| < 2 || (Growing(msgs[..|msgs| - 1]) && Extends(msgs[|msgs| - 2], msgs[|msgs| - 1]))
  }

  /** Over a growing run no error occurs and the concatenated deltas lead from the first message to the last. */
  lemma {:induction false} DeltasTelescope(msgs: seq<Message>)
    requires msgs != [] && Growing(msgs)
    ensures RunDiffs(msgs).Ok? && ApplyAll(msgs[0], RunDiffs(msgs).value) == msgs[|msgs| - 1]
  {
    var n := |msgs| - 1;
    if n > 0 {
      DeltasTelescope(msgs[..n]);
      DiffsRebuildExactly(msgs[n - 1], msgs[n]);
      ApplyAppend(msgs[0], RunDiffs(msgs[..n]).value, Diffs(msgs[n - 1], msgs[n]).value);
    }
  }

  // ----- ids -----

  /** The ids after one message: known ones are kept, a new slot takes the call's own id or a generated one. */
  function IdsFor(calls: seq<ToolCall>, cache: seq<string>, gen: nat -> string): (r: seq<string>)
    ensures cache <= r && |r| == if |cache| < |calls| then |calls| else |cache|
    decreases |calls| - |cache|
  {
    if |calls| <= |cache| then cache
    else
      var id := calls[|cache|].id;
      IdsFor(calls, cache + [if id == "" then gen(|cache|) else id], gen)
  }

  /** The id of a slot that is new: the call's own, and a generated one only where it has none. */
  function OwnId(call: ToolCall, k: nat, gen: nat -> string): string {
    if call.id == "" then gen(k) else call.id
  }

  lemma {:induction false} NewIds(calls: seq<ToolCall>, cache: seq<string>, gen: nat -> string)
    ensures forall k :: |cache| <= k < |calls| ==> IdsFor(calls, cache, gen)[k] == OwnId(calls[k], k, gen)
    decreases |calls| - |cache|
  {
    if |cache| < |calls| {
      var longer := cache + [OwnId(calls[|cache|], |cache|, gen)];
      NewIds(calls, longer, gen);
      assert IdsFor(calls, cache, gen) == IdsFor(calls, longer, gen) && longer[|cache|] == IdsFor(calls, longer, gen)[|cache|];
    }
  }

  function WithIds(calls: seq<ToolCall>, ids: seq<string>): (r: seq<ToolCall>)
    requires |calls| <= |ids|
    ensures |r| == |calls| && forall i :: 0 <= i < |r| ==> r[i] == calls[i].(id := ids[i])
  {
    seq(|calls|, i requires 0 <= i < |calls| => calls[i].(id := ids[i]))
  }

  /** `set_tool_call_ids` (common/chat.h:131-143); `gen(i)` is what the generator returns for slot i. */
  method SetToolCallIds(calls: seq<ToolCall>, cache: seq<string>, gen: nat -> string)
    returns (calls': seq<ToolCall>, cache': seq<string>)
    ensures cache' == IdsFor(calls, cache, gen)
    ensures calls' == WithIds(calls, cache')
    ensures |cache'| == (if |cache| < |calls| then |calls| else |cache|) && cache <= cache'
    ensures forall k :: 0 <= k < |calls| ==> calls'[k].id == cache'[k]
    ensures forall k :: |cache| <= k < |calls| ==> cache'[k] == if calls[k].id != "" then calls[k].id else gen(k)
  {
    calls', cache' := calls, cache;
    NewIds(calls, cache, gen);
    var i := 0;
    while i < |calls|
      invariant 0 <= i <= |calls| == |calls'|
      invariant IdsFor(calls, cache', gen) == IdsFor(calls, cache, gen)
      invariant |cache'| >= i && (|cache'| > |cache| ==> |cache'| == i) && cache <= cache'
      invariant forall j :: 0 <= j < i ==> calls'[j] == calls[j].(id := cache'[j])
      invariant forall j :: i <= j < |calls| ==> calls'[j] == calls[j]
    {
      if |cache'| <= i {
        var id := calls'[i].id;
        if id == "" {
          id := gen(i);
        }
        cache' := cache' + [id];
      }
      calls' := calls'[i := calls'[i].(id := cache'[i])];
      i := i + 1;
    }
  }

  /** The cache after a whole run of parser results. */
  function RunIds(raws: seq<Message>, gen: nat -> string): seq<string> {
    if raws == [] then []
    else var n := |raws| - 1; IdsFor(raws[n].calls, RunIds(raws[..n], gen), gen)
  }

  /** The first message of a run that has a call in slot `k`. */
  function FirstWith(raws: seq<Message>, k: nat): (i: nat)
    ensures i <= |raws| && (i < |raws| ==> k < |raws[i].calls|)
    ensures forall j :: 0 <= j < i ==> |raws[j].calls| <= k
  {
    if raws == [] || k < |raws[0].calls| then 0
    else
      var i := FirstWith(raws[1..], k);
      assert forall j :: 0 < j < |raws| ==> raws[j] == raws[1..][j - 1];
      i + 1
  }

  /** A slot has the id that came with its first call, or the one generated for it when that call had none. */
  lemma {:induction false} SlotId(raws: seq<Message>, k: nat, gen: nat -> string)
    ensures var i, ids := FirstWith(raws, k), RunIds(raws, gen);
            && (k < |ids| <==> i < |raws|)
            && (i < |raws| ==> ids[k] == if raws[i].calls[k].id != "" then raws[i].calls[k].id else gen(k))
    decreases |raws|
  {
    if raws != [] {
      var n := |raws| - 1;
      SlotId(raws[..n], k, gen);
      NewIds(raws[n].calls, RunIds(raws[..n], gen), gen);
      FirstIsFirst(raws, k, n);
    }
  }

  /** The first such message of a run is the one of its beginning, or else the last. */
  lemma FirstIsFirst(raws: seq<Message>, k: nat, n: nat)
    requires raws != [] && n == |raws| - 1
    ensures var i := FirstWith(raws[..n], k);
            FirstWith(raws, k) == if i < n then i else if k < |raws[n].calls| then n else |raws|
  {
    assert forall j :: 0 <= j < n ==> raws[..n][j] == raws[j];
  }

  /** The messages that are diffed: each parser result with the ids of the cache at that point. */
  function Assigned(raws: seq<Message>, gen: nat -> string): (r: seq<Message>)
    ensures |r| == |raws|
  {
    if raws == [] then []
    else
      var n := |raws| - 1;
      Assigned(raws[..n], gen) + [raws[n].(calls := WithIds(raws[n].calls, RunIds(raws, gen)))]
  }

  /** The cache only grows, so a slot keeps its id for the rest of the run. */
  lemma {:induction false} IdsAreStable(raws: seq<Message>, n: nat, gen: nat -> string)
    requires n <= |raws|
    ensures RunIds(raws[..n], gen) <= RunIds(raws, gen)
    decreases |raws|
  {
    if n == |raws| {
      assert raws[..n] == raws;
    } else {
      var k := |raws| - 1;
      IdsAreStable(raws[..k], n, gen);
      assert raws[..k][..n] == raws[..n];
    }
  }

  lemma {:induction false} AssignedAt(raws: seq<Message>, i: nat, gen: nat -> string)
    requires i < |raws|
    ensures |raws[i].calls| <= |RunIds(raws, gen)|
    ensures Assigned(raws, gen)[i] == raws[i].(calls := WithIds(raws[i].calls, RunIds(raws, gen)))
    decreases |raws|
  {
    var n := |raws| - 1;
    if i < n {
      AssignedAt(raws[..n], i, gen);
      IdsAreStable(raws, n, gen);
      var ids := RunIds(raws[..n], gen);
      assert WithIds(raws[i].calls, ids) == WithIds(raws[i].calls, RunIds(raws, gen));
    }
  }

  /** `next` continues `prev` except that the parser may still change ids. */
  ghost predicate Grows(prev: Message, next: Message) {
    && prev.reasoning <= next.reasoning
    && prev.content <= next.content
    && |prev.calls| <= |next.calls|
    && (forall i :: 0 <= i < |prev.calls| - 1 ==>
          next.calls[i].name == prev.calls[i].name && next.calls[i].arguments == prev.calls[i].arguments)
    && (prev.calls != [] ==>
          var i := |prev.calls| - 1;
          prev.calls[i].name <= next.calls[i].name && prev.calls[i].arguments <= next.calls[i].arguments)
  }

  ghost predicate RawGrowing(raws: seq<Message>) {
    |raws| < 2 || (RawGrowing(raws[..|raws| - 1]) && Grows(raws[|raws| - 2], raws[|raws| - 1]))
  }

  lemma GrowsWithIds(prev: Message, next: Message, ids: seq<string>)
    requires Grows(prev, next) && |next.calls| <= |ids|
    ensures Extends(prev.(calls := WithIds(prev.calls, ids)), next.(calls := WithIds(next.calls, ids)))
  {
  }

  lemma {:induction false} AssignedGrows(raws: seq<Message>, gen: nat -> string)
    requires RawGrowing(raws)
    ensures Growing([EMPTY] + Assigned(raws, gen))
  {
    var msgs := [EMPTY] + Assigned(raws, gen);
    if raws != [] {
      var n := |raws| - 1;
      AssignedGrows(raws[..n], gen);
      assert msgs[..|msgs| - 1] == [EMPTY] + Assigned(raws[..n], gen);
      if n > 0 {
        LastAssignedGrows(raws, gen);
        assert msgs[|msgs| - 2] == Assigned(raws, gen)[n - 1] && msgs[|msgs| - 1] == Assigned(raws, gen)[n];
      }
    }
  }

  lemma LastAssignedGrows(raws: seq<Message>, gen: nat -> string)
    requires RawGrowing(raws) && |raws| >= 2
    ensures var n := |raws| - 1; Extends(Assigned(raws, gen)[n - 1], Assigned(raws, gen)[n])
  {
    var n := |raws| - 1;
    AssignedAt(raws, n - 1, gen);
    AssignedAt(raws, n, gen);
    GrowsWithIds(raws[n - 1], raws[n], RunIds(raws, gen));
  }

  /**
    Streaming is faithful: when the parser's results grow, with ids set from one cache, no delta fails
    and a client that starts empty ends with the last message; every id a delta carries for slot k is
    the one id of that slot.
    */
  lemma StreamingRebuilds(raws: seq<Message>, gen: nat -> string)
    requires RawGrowing(raws)
    ensures var msgs := [EMPTY] + Assigned(raws, gen);
            && RunDiffs(msgs).Ok?
            && ApplyAll(EMPTY, RunDiffs(msgs).value) == msgs[|raws|]
            && forall d :: d in RunDiffs(msgs).value ==> IdIsFixed(d, RunIds(raws, gen))
  {
    var msgs, ids := [EMPTY] + Assigned(raws, gen), RunIds(raws, gen);
    AssignedGrows(raws, gen);
    DeltasTelescope(msgs);
    forall i | 0 <= i < |msgs| ensures IdsFrom(msgs[i], ids) {
      AssignedIds(raws, i, gen);
    }
    RunCarriesIds(msgs, ids);
  }

  lemma AssignedIds(raws: seq<Message>, i: nat, gen: nat -> string)
    requires i <= |raws|
    ensures IdsFrom(([EMPTY] + Assigned(raws, gen))[i], RunIds(raws, gen))
  {
    if i > 0 {
      AssignedAt(raws, i - 1, gen);
    }
  }

  /** A delta leaves the id out or carries the id of its slot. */
  ghost predicate IdIsFixed(d: Diff, ids: seq<string>) {
    d.index.Some? ==> d.index.value < |ids| && (d.delta.id == "" || d.delta.id == ids[d.index.value])
  }

  ghost predicate IdsFrom(m: Message, ids: seq<string>) {
    |m.calls| <= |ids| && forall i :: 0 <= i < |m.calls| ==> m.calls[i].id == ids[i]
  }

  lemma {:induction false} NewCallsCarryIds(calls: seq<ToolCall>, from: nat, ids: seq<string>)
    requires from <= |calls| <= |ids| && forall i :: 0 <= i < |calls| ==> calls[i].id == ids[i]
    ensures forall d :: d in NewCallDiffs(calls, from) ==> IdIsFixed(d, ids)
    decreases |calls| - from
  {
    if from < |calls| {
      NewCallsCarryIds(calls, from + 1, ids);
    }
  }

  lemma DiffsCarryIds(prev: Message, next: Message, ids: seq<string>)
    requires Diffs(prev, next).Ok? && IdsFrom(next, ids)
    ensures forall d :: d in Diffs(prev, next).value ==> IdIsFixed(d, ids)
  {
    NewCallsCarryIds(next.calls, |prev.calls|, ids);
  }

  lemma {:induction false} RunCarriesIds(msgs: seq<Message>, ids: seq<string>)
    requires RunDiffs(msgs).Ok? && forall i :: 0 <= i < |msgs| ==> IdsFrom(msgs[i], ids)
    ensures forall d :: d in RunDiffs(msgs).value ==> IdIsFixed(d, ids)
  {
    if |msgs| >= 2 {
      var n := |msgs| - 1;
      RunCarriesIds(msgs[..n], ids);
      DiffsCarryIds(msgs[n - 1], msgs[n], ids);
    }
  }
}
