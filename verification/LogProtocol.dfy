/**
  common/log.cpp as a protocol: producers that add, one worker that takes under the lock and prints
  outside it, and one controller that pauses, resumes, flushes and changes the log file.  Each locked
  region is one step; so is the worker's print, and so are the parts of the controller's calls.
  */
module LogProtocol {
  import opened Basics
  import opened LogRing

  type File = nat  // 0 stands for no file

  /** A message together with a file. */
  datatype Line = Line(msg: string, file: File)

  /** `Holding` is between taking an entry and having printed it. */
  datatype Worker = Joined | Waiting | Holding(msg: string) | Exited

  /** What the controller does once `pause` has returned. */
  datatype Then = Return | Reopen(file: File) | JustResume

  datatype Controller = Idle | Joining(then': Then) | Paused(then': Then)

  /** The log, with the history of accepted messages (and the file open at that moment) and of printed ones. */
  datatype Sys = Sys(
    ring: Ring,
    running: bool,
    worker: Worker,
    controller: Controller,
    file: File,
    accepted: seq<Line>,
    printed: seq<Line>)

  datatype Action =
    | Add(msg: string)         // add
    | Take                     // the worker's locked region
    | Print                    // the worker's print, without the lock
    | Pause(then': Then)       // the locked region of pause, called by pause, set_file or flush
    | Join                     // thrd.join() returns
    | Resume                   // resume, called directly or at the end of set_file or flush

  function Initial(capacity: nat): Sys
    requires capacity > 0
  {
    Sys(Ring(seq(capacity, _ => BLANK), 0, 0), true, Waiting, Idle, 0, [], [])
  }

  predicate Enabled(s: Sys, a: Action) {
    LogRing.Valid(s.ring) &&
    match a
    case Add(_) => true
    case Take => s.worker == Waiting && s.ring.head != s.ring.tail
    case Print => s.worker.Holding?
    case Pause(_) => s.controller == Idle
    case Join => s.controller.Joining? && s.worker == Exited
    case Resume => s.controller == Idle || (s.controller.Paused? && !s.controller.then'.Return?)
  }

  /** After a pause has returned: plain pause is done, set_file changes the file before it resumes. */
  function AfterPause(s: Sys, t: Then): Sys {
    match t
    case Return => s.(controller := Idle)
    case Reopen(f) => s.(file := f, controller := Paused(t))
    case JustResume => s.(controller := Paused(t))
  }

  function Do(s: Sys, a: Action): Sys
    requires Enabled(s, a)
  {
    match a
    case Add(msg) =>
      if !s.running then s
      else s.(ring := Added(s.ring, Entry(msg, false)), accepted := s.accepted + [Line(msg, s.file)])
    case Take =>
      var e := s.ring.slots[s.ring.head];
      s.(ring := Taken(s.ring), worker := if e.isEnd then Exited else Holding(e.msg))
    case Print => s.(printed := s.printed + [Line(s.worker.msg, s.file)], worker := Waiting)
    case Pause(t) =>
      if !s.running then AfterPause(s, t)
      else s.(running := false, ring := Push(s.ring, EndEntry(s.ring)), controller := Joining(t))
    case Join => AfterPause(s.(worker := Joined), s.controller.then')
    case Resume =>
      if s.running then s.(controller := Idle)
      else s.(running := true, worker := Waiting, controller := Idle)
  }

  // ----- what every step keeps -----

  function Lines(es: seq<Entry>, file: File): (r: seq<Line>)
    ensures |r| == |es| && forall i :: 0 <= i < |es| ==> r[i] == Line(es[i].msg, file)
  {
    seq(|es|, i requires 0 <= i < |es| => Line(es[i].msg, file))
  }

  ghost predicate NoEnd(es: seq<Entry>) { forall i :: 0 <= i < |es| ==> !es[i].isEnd }

  /** The messages still waiting: the ring without the end entry of a pause. */
  function Pending(s: Sys): seq<Entry>
    requires LogRing.Valid(s.ring)
  {
    var live := Live(s.ring);
    if live != [] && live[|live| - 1].isEnd then live[..|live| - 1] else live
  }

  function InHand(s: Sys): seq<Line> {
    if s.worker.Holding? then [Line(s.worker.msg, s.file)] else []
  }

  /** Every accepted message is printed, in hand or waiting: in order, once, and for the file it was accepted under. */
  ghost predicate Conserved(s: Sys)
    requires LogRing.Valid(s.ring)
  {
    s.accepted == s.printed + InHand(s) + Lines(Pending(s), s.file)
  }

  ghost predicate EndIsLast(live: seq<Entry>) {
    live != [] && live[|live| - 1].isEnd && NoEnd(live[..|live| - 1])
  }

  /** Who is where, and what the ring holds then. */
  ghost predicate Phase(s: Sys)
    requires LogRing.Valid(s.ring)
  {
    var live := Live(s.ring);
    if s.running then s.controller == Idle && (s.worker.Waiting? || s.worker.Holding?) && NoEnd(live)
    else if s.controller.Joining? then
      if s.worker == Exited then live == []
      else (s.worker.Waiting? || s.worker.Holding?) && EndIsLast(live)
    else s.worker == Joined && live == []
  }

  ghost predicate Inv(s: Sys) {
    LogRing.Valid(s.ring) && Phase(s) && Conserved(s)
  }

  /** The end entry of a pause finds room: two slots are free. */
  ghost predicate Roomy(s: Sys, a: Action)
    requires LogRing.Valid(s.ring)
  {
    a.Pause? && s.running ==> Free(s.ring) >= 2
  }

  lemma AddKeeps(s: Sys, msg: string)
    requires Inv(s)
    ensures Inv(Do(s, Add(msg)))
  {
    if s.running {
      var e, t := Entry(msg, false), Do(s, Add(msg));
      AddedKeeps(s.ring, e);
      NoEndSnoc(Live(s.ring), e);
      PendingIsLive(s);
      PendingIsLive(t);
      LinesSnoc(Live(s.ring), e, s.file);
      Regrouped(s.printed + InHand(s), Lines(Live(s.ring), s.file), [Line(msg, s.file)]);
    }
  }

  lemma NoEndSnoc(es: seq<Entry>, e: Entry)
    requires NoEnd(es) && !e.isEnd
    ensures NoEnd(es + [e])
  {
  }

  lemma PendingIsLive(s: Sys)
    requires LogRing.Valid(s.ring) && NoEnd(Live(s.ring))
    ensures Pending(s) == Live(s.ring)
  {
  }

  lemma LinesSnoc(es: seq<Entry>, e: Entry, file: File)
    ensures Lines(es + [e], file) == Lines(es, file) + [Line(e.msg, file)]
  {
  }

  lemma PhaseAtTake(s: Sys)
    requires Inv(s) && Enabled(s, Take)
    ensures var live := Live(s.ring);
            && live != [] && live[0] == s.ring.slots[s.ring.head] && Live(Taken(s.ring)) == live[1..]
            && (live[0].isEnd <==> Pending(s) == [] && !s.running)
            && (!live[0].isEnd ==> Pending(s) != [] && Pending(s)[0] == live[0])
  {
    TakenDropsOldest(s.ring);
    var live := Live(s.ring);
    if !s.running {
      assert |live| > 1 ==> live[..|live| - 1][0] == live[0];
    }
  }

  lemma TakeEndKeeps(s: Sys)
    requires Inv(s) && Enabled(s, Take) && s.ring.slots[s.ring.head].isEnd
    ensures Inv(Do(s, Take))
  {
    PhaseAtTake(s);
    var live := Live(s.ring);
    assert |live| == 1 && live[1..] == [];
    assert Pending(s) == [] && Pending(Do(s, Take)) == [];
  }

  lemma TakeMessageKeeps(s: Sys)
    requires Inv(s) && Enabled(s, Take) && !s.ring.slots[s.ring.head].isEnd
    ensures Inv(Do(s, Take))
  {
    PhaseAtTake(s);
    var t, live := Do(s, Take), Live(s.ring);
    var pending := Pending(s);
    if s.running {
      assert pending == live && NoEnd(live[1..]);
    } else {
      assert pending == live[..|live| - 1] && live[1..][..|live| - 2] == pending[1..];
      assert live[1..][|live| - 2] == live[|live| - 1];
      assert EndIsLast(live[1..]);
    }
    assert Pending(t) == pending[1..];
    TakenLines(s.printed, pending, s.file);
  }

  lemma TakenLines(printed: seq<Line>, pending: seq<Entry>, file: File)
    requires pending != []
    ensures printed + [] + Lines(pending, file) == printed + [Line(pending[0].msg, file)] + Lines(pending[1..], file)
  {
    assert Lines(pending, file) == [Line(pending[0].msg, file)] + Lines(pending[1..], file);
  }

  lemma TakeKeeps(s: Sys)
    requires Inv(s) && Enabled(s, Take)
    ensures Inv(Do(s, Take))
  {
    if s.ring.slots[s.ring.head].isEnd { TakeEndKeeps(s); } else { TakeMessageKeeps(s); }
  }

  lemma PauseKeeps(s: Sys, t: Then)
    requires Inv(s) && Enabled(s, Pause(t)) && Roomy(s, Pause(t))
    ensures Inv(Do(s, Pause(t)))
  {
    if s.running {
      PushKeepsExactly(s.ring, EndEntry(s.ring));
      var u := Do(s, Pause(t));
      var live := Live(s.ring);
      assert Live(u.ring)[..|live|] == live;
      assert Pending(u) == Pending(s) == live;
    } else {
      assert Lines([], s.file) == [] && s.printed + [] + [] == s.printed;
    }
  }

  lemma PrintKeeps(s: Sys)
    requires Inv(s) && Enabled(s, Print)
    ensures Inv(Do(s, Print))
  {
    var t := Do(s, Print);
    assert s.printed + InHand(s) == t.printed && t.printed + [] == t.printed;
  }

  /** Every step keeps the invariant, if the pauses find room. */
  lemma StepKeeps(s: Sys, a: Action)
    requires Inv(s) && Enabled(s, a) && Roomy(s, a)
    ensures Inv(Do(s, a))
  {
    match a {
      case Add(msg) => AddKeeps(s, msg);
      case Take => TakeKeeps(s);
      case Print => PrintKeeps(s);
      case Pause(t) => PauseKeeps(s, t);
      case Join => assert Lines([], s.file) == [] && Lines([], Do(s, a).file) == [];
      case Resume =>
    }
  }

  // ----- runs -----

  /** The state after a run, where every action was enabled; None when one was not. */
  datatype Outcome = Blocked | Reached(s: Sys)

  ghost function Exec(s: Sys, actions: seq<Action>): Outcome {
    if actions == [] then Reached(s)
    else
      var n := |actions| - 1;
      var before := Exec(s, actions[..n]);
      if before.Reached? && Enabled(before.s, actions[n]) then Reached(Do(before.s, actions[n])) else Blocked
  }

  ghost predicate AlwaysRoomy(s: Sys, actions: seq<Action>) {
    actions == [] ||
    var n := |actions| - 1;
    var before := Exec(s, actions[..n]);
    AlwaysRoomy(s, actions[..n]) &&
    (before.Reached? && LogRing.Valid(before.s.ring) ==> Roomy(before.s, actions[n]))
  }

  lemma InitialInv(capacity: nat)
    requires capacity > 0
    ensures Inv(Initial(capacity))
  {
    assert Lines([], 0) == [];
  }

  /** For every interleaving: nothing is lost, repeated, reordered or sent to another file. */
  lemma {:induction false} RunConserves(capacity: nat, actions: seq<Action>)
    requires capacity > 0 && AlwaysRoomy(Initial(capacity), actions)
    ensures var r := Exec(Initial(capacity), actions); r.Reached? ==> Inv(r.s)
  {
    if actions == [] {
      InitialInv(capacity);
    } else {
      var n := |actions| - 1;
      RunConserves(capacity, actions[..n]);
      var before := Exec(Initial(capacity), actions[..n]);
      if before.Reached? && Enabled(before.s, actions[n]) {
        StepKeeps(before.s, actions[n]);
      }
    }
  }

  /** Once a pause has returned, the worker is gone, the ring is empty and all accepted messages are printed. */
  lemma PauseHasDrained(s: Sys)
    requires Inv(s) && Enabled(s, Join)
    ensures var t := Do(s, Join);
            && t.worker == Joined && !t.running && Live(t.ring) == []
            && t.printed == t.accepted == s.accepted
  {
    assert Lines([], s.file) == [] && s.printed + [] + [] == s.printed;
  }

  // ----- what the actions say, whatever the ring does -----

  /** The log runs unless a pause came after the last resume. */
  function RunningAfter(actions: seq<Action>): bool {
    if actions == [] then true
    else
      var n := |actions| - 1;
      match actions[n]
      case Pause(_) => false
      case Resume => true
      case _ => RunningAfter(actions[..n])
  }

  /** What the last pause was called for. */
  function LastPause(actions: seq<Action>): Option<Then> {
    if actions == [] then None
    else var n := |actions| - 1; if actions[n].Pause? then Some(actions[n].then') else LastPause(actions[..n])
  }

  /** A pause returns when the worker is joined, or at once when the log does not run. */
  predicate Returns(before: seq<Action>, a: Action) { a.Join? || (a.Pause? && !RunningAfter(before)) }

  /** The file of the last set_file whose pause has returned. */
  function FileAfter(actions: seq<Action>): File {
    if actions == [] then 0
    else
      var n := |actions| - 1;
      var pause := LastPause(actions);
      if Returns(actions[..n], actions[n]) && pause.Some? && pause.value.Reopen? then pause.value.file
      else FileAfter(actions[..n])
  }

  /** The messages added while the log ran, each with the file that was open. */
  function AddedLines(actions: seq<Action>): seq<Line> {
    if actions == [] then []
    else
      var n := |actions| - 1;
      AddedLines(actions[..n]) +
        if actions[n].Add? && RunningAfter(actions[..n]) then [Line(actions[n].msg, FileAfter(actions[..n]))] else []
  }

  ghost predicate Follows(s: Sys, actions: seq<Action>) {
    && s.running == RunningAfter(actions) && s.file == FileAfter(actions) && s.accepted == AddedLines(actions)
    && (s.controller.Joining? ==> LastPause(actions) == Some(s.controller.then'))
  }

  lemma StepFollows(s: Sys, init: seq<Action>, a: Action)
    requires Follows(s, init) && Enabled(s, a)
    ensures Follows(Do(s, a), init + [a])
  {
    assert (init + [a])[..|init|] == init;
  }

  /** After any run the file, and what has been accepted for which file, are what the actions say. */
  lemma {:induction false} RunFollowsActions(capacity: nat, actions: seq<Action>)
    requires capacity > 0
    ensures var r := Exec(Initial(capacity), actions); r.Reached? ==> Follows(r.s, actions)
  {
    if actions != [] {
      var n := |actions| - 1;
      RunFollowsActions(capacity, actions[..n]);
      var before := Exec(Initial(capacity), actions[..n]);
      if before.Reached? && Enabled(before.s, actions[n]) {
        StepFollows(before.s, actions[..n], actions[n]);
        assert actions == actions[..n] + [actions[n]];
      }
    }
  }

  /**
    Every printed message was added while the log ran and went to the file that was open then, in order and once,
    whatever set_file calls came between.
    */
  lemma PrintedForItsFile(capacity: nat, actions: seq<Action>)
    requires capacity > 0 && AlwaysRoomy(Initial(capacity), actions)
    ensures var r := Exec(Initial(capacity), actions);
            r.Reached? ==> r.s.printed <= AddedLines(actions) && r.s.file == FileAfter(actions)
  {
    RunConserves(capacity, actions);
    RunFollowsActions(capacity, actions);
    var r := Exec(Initial(capacity), actions);
    if r.Reached? {
      PrintedIsPrefix(r.s);
    }
  }

  lemma PrintedIsPrefix(s: Sys)
    requires Inv(s)
    ensures s.printed <= s.accepted
  {
    var rest := InHand(s) + Lines(Pending(s), s.file);
    assert s.accepted == s.printed + rest;
  }

  /** No end entry is left for the next worker. */
  lemma NoStaleEnd(s: Sys)
    requires Inv(s) && Enabled(s, Resume) && !s.running
    ensures Live(Do(s, Resume).ring) == [] && Do(s, Resume).worker == Waiting
  {
  }

  // ----- pause returns, and exactly when -----

  /** What the worker still has to do before it exits. */
  function Work(s: Sys): nat
    requires LogRing.Valid(s.ring)
  {
    2 * |Live(s.ring)| + (if s.worker.Holding? then 1 else 0)
  }

  /** While a pause is joining, the worker can always go on until the join returns. */
  lemma PauseMakesProgress(s: Sys)
    requires Inv(s) && s.controller.Joining?
    ensures Enabled(s, Join) || Enabled(s, Take) || Enabled(s, Print)
    ensures Enabled(s, Take) ==> Work(Do(s, Take)) < Work(s)
    ensures Enabled(s, Print) ==> Work(Do(s, Print)) < Work(s)
  {
    EmptyIffMet(s.ring);
    if Enabled(s, Take) {
      TakenDropsOldest(s.ring);
    }
  }

  /** A schedule of worker steps that lets the pause return. */
  lemma {:induction false} PauseReturns(s: Sys) returns (actions: seq<Action>)
    requires Inv(s) && s.controller.Joining?
    ensures var r := Exec(s, actions); r.Reached? && Inv(r.s) && Enabled(r.s, Join) && r.s.accepted == s.accepted
    decreases Work(s)
  {
    PauseMakesProgress(s);
    if Enabled(s, Join) {
      actions := [];
    } else {
      var a := if Enabled(s, Take) then Take else Print;
      StepKeeps(s, a);
      var rest := PauseReturns(Do(s, a));
      actions := [a] + rest;
      ExecCons(s, a, rest);
    }
  }

  lemma {:induction false} ExecCons(s: Sys, a: Action, rest: seq<Action>)
    requires Enabled(s, a)
    ensures Exec(s, [a] + rest) == Exec(Do(s, a), rest)
    decreases |rest|
  {
    if rest == [] {
      assert [a] + rest == [] + [a];
      ExecSnoc(s, [], a);
    } else {
      var init, last := rest[..|rest| - 1], rest[|rest| - 1];
      assert rest == init + [last];
      assert [a] + rest == ([a] + init) + [last];
      ExecCons(s, a, init);
      ExecSnoc(s, [a] + init, last);
      ExecSnoc(Do(s, a), init, last);
    }
  }

  lemma ExecSnoc(s: Sys, init: seq<Action>, a: Action)
    ensures Exec(s, init + [a]) ==
              var before := Exec(s, init);
              if before.Reached? && Enabled(before.s, a) then Reached(Do(before.s, a)) else Blocked
  {
    assert (init + [a])[..|init|] == init;
  }

  /** A pause that found no room: the ring looks empty, so the worker waits for ever. */
  ghost predicate Stuck(s: Sys) {
    && LogRing.Valid(s.ring) && s.ring.head == s.ring.tail
    && !s.running && s.controller.Joining? && (s.worker.Waiting? || s.worker.Holding?)
  }

  lemma {:induction false} StuckForEver(s: Sys, actions: seq<Action>)
    requires Stuck(s)
    ensures var r := Exec(s, actions);
            r.Reached? ==>
              && Stuck(r.s) && r.s.accepted == s.accepted
              && |r.s.printed| <= |s.printed| + |InHand(s)| - |InHand(r.s)|
  {
    if actions != [] {
      StuckForEver(s, actions[..|actions| - 1]);
    }
  }

  /** The join of a pause can return if and only if the pause found two free slots. */
  lemma PauseReturnsExactly(s: Sys, t: Then)
    requires Inv(s) && s.running && Enabled(s, Pause(t))
    ensures (exists actions :: CanJoin(Do(s, Pause(t)), actions)) <==> Free(s.ring) >= 2
  {
    var u := Do(s, Pause(t));
    if Free(s.ring) >= 2 {
      PauseKeeps(s, t);
      var actions := PauseReturns(u);
      assert CanJoin(u, actions);
    } else {
      PushKeepsExactly(s.ring, EndEntry(s.ring));
      forall actions ensures !CanJoin(u, actions) {
        StuckForEver(u, actions);
      }
    }
  }

  ghost predicate CanJoin(s: Sys, actions: seq<Action>) {
    Exec(s, actions).Reached? && Enabled(Exec(s, actions).s, Join)
  }

  /** The waiting messages of such a pause are lost: the run goes on without ever printing them. */
  lemma CrowdedPauseLosesMessages(s: Sys, t: Then, actions: seq<Action>)
    requires Inv(s) && s.running && Enabled(s, Pause(t)) && Free(s.ring) < 2 && Live(s.ring) != []
    ensures var r := Exec(Do(s, Pause(t)), actions); r.Reached? ==> |r.s.printed| < |r.s.accepted|
  {
    PushKeepsExactly(s.ring, EndEntry(s.ring));
    StuckForEver(Do(s, Pause(t)), actions);
    assert |s.accepted| == |s.printed| + |InHand(s)| + |Live(s.ring)|;
  }

  // ----- a crowded pause can be reached -----

  function Adds(msgs: seq<string>): (r: seq<Action>)
    ensures |r| == |msgs|
  {
    seq(|msgs|, i requires 0 <= i < |msgs| => Add(msgs[i]))
  }

  /** Adding fewer messages than there are slots fills that many, without growth, and never lacks room. */
  lemma {:induction false} AddsFill(capacity: nat, msgs: seq<string>)
    requires |msgs| < capacity
    ensures AlwaysRoomy(Initial(capacity), Adds(msgs))
    ensures var r := Exec(Initial(capacity), Adds(msgs));
            && r.Reached? && LogRing.Valid(r.s.ring) && r.s.running && r.s.controller == Idle
            && Capacity(r.s.ring) == capacity && |Live(r.s.ring)| == |msgs|
  {
    if msgs != [] {
      var n := |msgs| - 1;
      AddsFill(capacity, msgs[..n]);
      assert Adds(msgs)[..n] == Adds(msgs[..n]);
      OneMoreAdd(Exec(Initial(capacity), Adds(msgs[..n])).s, msgs[n], n);
    }
  }

  lemma OneMoreAdd(s: Sys, msg: string, n: nat)
    requires LogRing.Valid(s.ring) && s.running && |Live(s.ring)| == n && n + 1 < Capacity(s.ring)
    ensures var t := Do(s, Add(msg));
            && LogRing.Valid(t.ring) && t.running && t.controller == s.controller
            && Capacity(t.ring) == Capacity(s.ring) && |Live(t.ring)| == n + 1
  {
    PushKeepsExactly(s.ring, Entry(msg, false));
    EmptyIffMet(Push(s.ring, Entry(msg, false)));
  }

  /**
    For every capacity of at least two there is a run, with room at every step, after which a pause never
    returns and some accepted message is never printed: one message less than there are slots is added
    while the worker does not get its turn.
    */
  lemma CrowdedPauseExists(capacity: nat, msgs: seq<string>, t: Then, actions: seq<Action>)
    requires capacity >= 2 && |msgs| == capacity - 1
    ensures AlwaysRoomy(Initial(capacity), Adds(msgs))
    ensures var r := Exec(Initial(capacity), Adds(msgs));
            && r.Reached? && Enabled(r.s, Pause(t)) && Free(r.s.ring) == 1
            && var u := Do(r.s, Pause(t));
               && !CanJoin(u, actions)
               && (Exec(u, actions).Reached? ==> |Exec(u, actions).s.printed| < |Exec(u, actions).s.accepted|)
  {
    AddsFill(capacity, msgs);
    RunConserves(capacity, Adds(msgs));
    var s := Exec(Initial(capacity), Adds(msgs)).s;
    PauseReturnsExactly(s, t);
    CrowdedPauseLosesMessages(s, t, actions);
  }
}
