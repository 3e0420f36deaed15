/**
  The ring buffer of common/log.cpp: entries between head and tail are waiting for the worker; the
  ring doubles when an added entry would make it look empty.
  */
module LogRing {

  datatype Entry = Entry(msg: string, isEnd: bool)

  const BLANK := Entry("", false)

  datatype Ring = Ring(slots: seq<Entry>, head: nat, tail: nat)

  predicate Valid(r: Ring) { r.head < |r.slots| && r.tail < |r.slots| }

  function Capacity(r: Ring): nat { |r.slots| }

  function Next(i: nat, n: nat): (j: nat)
    requires i < n
    ensures j < n
  {
    if i + 1 == n then 0 else i + 1
  }

  lemma NextIsModulo(i: nat, n: nat)
    requires i < n
    ensures Next(i, n) == (i + 1) % n
  {
  }

  /** The entries waiting in the ring, oldest first. */
  function Live(r: Ring): seq<Entry>
    requires Valid(r)
  {
    if r.head <= r.tail then r.slots[r.head..r.tail] else r.slots[r.head..] + r.slots[..r.tail]
  }

  function Free(r: Ring): (n: nat)
    requires Valid(r)
    ensures n > 0
  {
    Capacity(r) - |Live(r)|
  }

  /** Writing at the tail without looking whether the ring is full, as `pause` does. */
  function Push(r: Ring, e: Entry): (r': Ring)
    requires Valid(r)
    ensures Valid(r')
  {
    Ring(r.slots[r.tail := e], r.head, Next(r.tail, |r.slots|))
  }

  /** The entry `pause` writes: the slot at the tail with its end flag set. */
  function EndEntry(r: Ring): Entry
    requires Valid(r)
  {
    r.slots[r.tail].(isEnd := true)
  }

  /** A full ring, whose head and tail have met, moved into twice the space. */
  function Grow(r: Ring): (r': Ring)
    requires Valid(r)
    ensures Valid(r')
  {
    var n := |r.slots|;
    Ring(r.slots[r.head..] + r.slots[..r.head] + seq(n, _ => BLANK), 0, n)
  }

  function Added(r: Ring, e: Entry): (r': Ring)
    requires Valid(r)
    ensures Valid(r')
  {
    var p := Push(r, e);
    if p.head == p.tail then Grow(p) else p
  }

  function Taken(r: Ring): (r': Ring)
    requires Valid(r)
    ensures Valid(r')
  {
    r.(head := Next(r.head, |r.slots|))
  }

  /** Pushing keeps every waiting entry exactly when two slots are free; otherwise the ring looks empty. */
  lemma PushKeepsExactly(r: Ring, e: Entry)
    requires Valid(r)
    ensures Free(r) >= 2 ==> Live(Push(r, e)) == Live(r) + [e]
    ensures Free(r) < 2 ==> Live(Push(r, e)) == [] && Push(r, e).head == Push(r, e).tail
    ensures Live(Push(r, e)) == Live(r) + [e] <==> Free(r) >= 2
  {
    var n := |r.slots|;
    if r.head <= r.tail {
      PushBehindHead(r, e);
    } else {
      PushBeforeHead(r, e);
    }
  }

  lemma PushBehindHead(r: Ring, e: Entry)
    requires Valid(r) && r.head <= r.tail
    ensures var p := Push(r, e); if r.head == 0 && r.tail + 1 == |r.slots| then p.head == p.tail else Live(p) == Live(r) + [e]
  {
    var p, n := Push(r, e), |r.slots|;
    if r.tail + 1 < n {
      assert p.slots[r.head..r.tail + 1] == r.slots[r.head..r.tail] + [e];
    } else if r.head > 0 {
      assert p.slots[r.head..] == r.slots[r.head..r.tail] + [e];
      assert p.slots[..0] == [];
    }
  }

  lemma PushBeforeHead(r: Ring, e: Entry)
    requires Valid(r) && r.tail < r.head
    ensures var p := Push(r, e); if r.tail + 1 == r.head then p.head == p.tail else Live(p) == Live(r) + [e]
  {
    var p := Push(r, e);
    if r.tail + 1 < r.head {
      assert p.slots[r.head..] == r.slots[r.head..];
      assert p.slots[..r.tail + 1] == r.slots[..r.tail] + [e];
      assert Live(p) == Live(r) + [e];
    }
  }

  /** An added entry is always kept behind the waiting ones, across every growth of the ring. */
  lemma AddedKeeps(r: Ring, e: Entry)
    requires Valid(r)
    ensures Live(Added(r, e)) == Live(r) + [e] && Capacity(r) <= Capacity(Added(r, e))
  {
    var p := Push(r, e);
    if p.head == p.tail {
      FullRing(r, e);
    } else {
      PushKeepsExactly(r, e);
    }
  }

  lemma FullRing(r: Ring, e: Entry)
    requires Valid(r) && Push(r, e).head == Push(r, e).tail
    ensures Live(Grow(Push(r, e))) == Live(r) + [e]
  {
    var p := Push(r, e);
    if r.head == 0 {
      FullFromStart(r, e);
    } else {
      FullFromMiddle(r, e);
    }
    var order := p.slots[p.head..] + p.slots[..p.head];
    var g := Grow(p);
    assert g.slots[0..|r.slots|] == order;
  }

  lemma FullFromStart(r: Ring, e: Entry)
    requires Valid(r) && r.head == 0 && r.tail + 1 == |r.slots|
    ensures var p := Push(r, e); p.slots[p.head..] + p.slots[..p.head] == Live(r) + [e]
  {
    var p := Push(r, e);
    assert p.slots == r.slots[0..r.tail] + [e];
    assert p.slots[0..] + p.slots[..0] == p.slots;
  }

  lemma FullFromMiddle(r: Ring, e: Entry)
    requires Valid(r) && r.head == r.tail + 1
    ensures var p := Push(r, e); p.slots[p.head..] + p.slots[..p.head] == Live(r) + [e]
  {
    var p := Push(r, e);
    assert p.slots[r.head..] == r.slots[r.head..];
    assert p.slots[..r.head] == r.slots[..r.tail] + [e];
    assert (r.slots[r.head..] + r.slots[..r.tail]) + [e] == r.slots[r.head..] + (r.slots[..r.tail] + [e]);
  }

  lemma TakenDropsOldest(r: Ring)
    requires Valid(r) && r.head != r.tail
    ensures Live(r) != [] && r.slots[r.head] == Live(r)[0] && Live(Taken(r)) == Live(r)[1..]
  {
    var n := |r.slots|;
    if r.head < r.tail {
      assert r.slots[r.head..r.tail][1..] == r.slots[r.head + 1..r.tail];
    } else if r.head + 1 == n {
      assert r.slots[r.head..] == [r.slots[r.head]];
      assert ([r.slots[r.head]] + r.slots[..r.tail])[1..] == r.slots[..r.tail] == r.slots[0..r.tail];
    } else {
      assert (r.slots[r.head..] + r.slots[..r.tail])[1..] == r.slots[r.head + 1..] + r.slots[..r.tail];
    }
  }

  lemma EmptyIffMet(r: Ring)
    requires Valid(r)
    ensures Live(r) == [] <==> r.head == r.tail
  {
    if r.head > r.tail {
      assert |r.slots[r.head..]| > 0;
    }
  }

  /** The slots in the order in which the copy loop meets them. */
  lemma RotatedAt(slots: seq<Entry>, h: nat, k: nat, at: nat)
    requires h < |slots| && k < |slots| && at == if h + k < |slots| then h + k else h + k - |slots|
    ensures (slots[h..] + slots[..h])[k] == slots[at]
  {
  }

  lemma CopiedIsGrown(full: Ring, slots: seq<Entry>)
    requires Valid(full) && var n := |full.slots|;
             && |slots| == 2 * n && slots[..n] == full.slots[full.head..] + full.slots[..full.head]
             && forall i :: n <= i < 2 * n ==> slots[i] == BLANK
    ensures Grow(full) == Ring(slots, 0, |full.slots|)
  {
    var n := |full.slots|;
    assert slots == slots[..n] + seq(n, _ => BLANK);
  }

  /** The fields of `common_log` that the lock protects. */
  class CommonLog {
    var entries: array<Entry>
    var head: nat
    var tail: nat
    var running: bool

    ghost predicate Inv()
      reads this
    {
      head < entries.Length && tail < entries.Length
    }

    ghost function Abstract(): Ring
      reads this, entries
    {
      Ring(entries[..], head, tail)
    }

    constructor (capacity: nat)
      requires capacity > 0
      ensures Inv() && fresh(entries) && entries.Length == capacity && running && Live(Abstract()) == []
    {
      entries := new Entry[capacity](_ => BLANK);
      head, tail, running := 0, 0, true;
    }

    /** `add` (common/log.cpp:172-248). */
    method Add(msg: string)
      requires Inv()
      modifies this, entries
      ensures Inv() && running == old(running) && (entries == old(entries) || fresh(entries))
      ensures Abstract() == if old(running) then Added(old(Abstract()), Entry(msg, false)) else old(Abstract())
      ensures Live(Abstract()) == Live(old(Abstract())) + if running then [Entry(msg, false)] else []
    {
      AddedKeeps(Abstract(), Entry(msg, false));
      if !running {
        return;
      }
      NextIsModulo(tail, entries.Length);
      entries[tail] := Entry(msg, false);
      tail := (tail + 1) % entries.Length;
      ghost var pushed := Push(old(Abstract()), Entry(msg, false));
      assert Abstract() == pushed;
      if tail == head {
        Expand(pushed);
      }
    }

    /** The growth of the ring: a do-while copy from head round to tail. */
    method Expand(ghost full: Ring)
      requires Inv() && head == tail && full == Abstract()
      modifies this`entries, this`head, this`tail
      ensures Inv() && fresh(entries) && Abstract() == Grow(full)
    {
      var n := entries.Length;
      var newEntries := new Entry[2 * n](_ => BLANK);
      var newTail := 0;
      var more := true;
      ghost var h0 := head;
      ghost var order := full.slots[h0..] + full.slots[..h0];
      while more
        invariant 0 <= newTail <= n && entries.Length == n && newEntries.Length == 2 * n && fresh(newEntries)
        invariant head < n && tail == h0 && entries[..] == full.slots
        invariant head == if h0 + newTail < n then h0 + newTail else h0 + newTail - n
        invariant forall i :: 0 <= i < newTail ==> newEntries[i] == order[i]
        invariant forall i :: newTail <= i < 2 * n ==> newEntries[i] == BLANK
        invariant more <==> newTail < n
        decreases n - newTail
      {
        RotatedAt(full.slots, h0, newTail, head);
        NextIsModulo(head, n);
        newEntries[newTail] := entries[head];
        head := (head + 1) % n;
        newTail := newTail + 1;
        more := head != tail;
      }
      assert newEntries[..][..n] == order;
      CopiedIsGrown(full, newEntries[..]);
      entries := newEntries;
      head := 0;
      tail := newTail;
    }

    /** The locked region of the worker loop (common/log.cpp:262-268), entered when something is waiting. */
    method Take() returns (cur: Entry)
      requires Inv() && head != tail
      modifies this`head
      ensures Inv() && Abstract() == Taken(old(Abstract()))
      ensures Live(old(Abstract())) == [cur] + Live(Abstract())
    {
      TakenDropsOldest(Abstract());
      NextIsModulo(head, entries.Length);
      cur := entries[head];
      head := (head + 1) % entries.Length;
    }

    /** The locked region of `pause` (common/log.cpp:285-302). */
    method BeginPause() returns (mustJoin: bool)
      requires Inv()
      modifies this`running, this`tail, entries
      ensures Inv() && mustJoin == old(running) && !running
      ensures Abstract() == if old(running) then Push(old(Abstract()), EndEntry(old(Abstract()))) else old(Abstract())
      ensures old(running) && Free(old(Abstract())) >= 2 ==>
                |Live(Abstract())| == |Live(old(Abstract()))| + 1 &&
                Live(old(Abstract())) <= Live(Abstract()) && Live(Abstract())[|Live(Abstract())| - 1].isEnd
    {
      if !running {
        return false;
      }
      running := false;
      PushKeepsExactly(Abstract(), EndEntry(Abstract()));
      NextIsModulo(tail, entries.Length);
      entries[tail] := entries[tail].(isEnd := true);
      tail := (tail + 1) % entries.Length;
      assert Abstract() == Push(old(Abstract()), EndEntry(old(Abstract())));
      return true;
    }
  }
}
