/** The process ring in memory: doubly linked process records, a table of stacks and the
    current process. Every method is proved to do to these records exactly what
    ProcessTable says is done to the ring as a sequence. */
module Scheduler {
  import opened Wrappers
  import opened ProcessRing
  import opened ProcessTable

  class Process {
    var pid: int
    var ppid: int
    var status: Status
    var runCount: int
    var slot: nat
    var sp: int
    var retval: int
    var waitTime: int
    var next: Process?
    var prev: Process?

    /** A new record; its return value and waiting time are whatever its memory held. */
    constructor (p: Pcb)
      requires p.slot >= 0
      ensures View() == p && fresh(this)
    {
      pid, ppid, status, runCount := p.pid, p.ppid, p.status, p.runCount;
      slot, sp, retval, waitTime := p.slot, p.sp, p.retval, p.waitTime;
      next, prev := null, null;
    }

    function View(): Pcb
      reads this`pid, this`ppid, this`status, this`runCount, this`slot, this`sp, this`retval, this`waitTime
    {
      Pcb(pid, ppid, status, runCount, slot, sp, retval, waitTime)
    }
  }

  ghost function Views(r: seq<Process>): (v: seq<Pcb>)
    reads r
    ensures |v| == |r| && forall i {:trigger v[i]} :: 0 <= i < |r| ==> v[i] == r[i].View()
  {
    seq(|r|, i requires 0 <= i < |r| reads r => r[i].View())
  }

  ghost function Next(i: nat, n: nat): nat { if i + 1 < n then i + 1 else 0 }

  ghost function Prev(i: nat, n: nat): int { if i > 0 then i - 1 else n - 1 }

  /** `r` lists the records of one doubly linked cycle, each once, in `next` order. */
  ghost predicate Linked(r: seq<Process>)
    reads r
  {
    && (forall i, j {:trigger r[i], r[j]} :: 0 <= i < j < |r| ==> r[i] != r[j])
    && (forall i {:trigger r[i].next} :: 0 <= i < |r| ==> r[i].next == r[Next(i, |r|)])
    && (forall i {:trigger r[i].prev} :: 0 <= i < |r| ==> r[i].prev == r[Prev(i, |r|)])
  }

  lemma FindsFirst(q: seq<Pcb>, pid: int, i: nat)
    requires i <= |q| && (i < |q| ==> q[i].pid == pid) && forall j :: 0 <= j < i ==> q[j].pid != pid
    ensures Find(q, pid) == i
  {
  }

  /** The same cycle, listed from its second record on. */
  lemma LinkedRotates(r: seq<Process>)
    requires Linked(r) && r != []
    ensures Linked(r[1..] + [r[0]]) && r[0].next == (r[1..] + [r[0]])[0]
  {
    var r', n := r[1..] + [r[0]], |r|;
    forall j | 0 <= j < n ensures r'[j].next == r'[Next(j, n)] && r'[j].prev == r'[Prev(j, n)] {
      assert r'[j] == r[Next(j, n)];
    }
    assert r[0].next == r[Next(0, n)];
  }

  lemma ViewsRotate(r: seq<Process>)
    requires r != []
    ensures Views(r[1..] + [r[0]]) == Rotate(Views(r))
  {
  }

  /** The cycle closes again over a record that its two neighbours skip. */
  lemma LinkedAfterUnlink(r: seq<Process>, i: nat)
    requires 0 < i < |r|
    requires forall j, k :: 0 <= j < k < |r| ==> r[j] != r[k]
    requires forall j {:trigger r[j].next} :: 0 <= j < |r| && j != i - 1 ==> r[j].next == r[Next(j, |r|)]
    requires forall j {:trigger r[j].prev} :: 0 <= j < |r| && j != Next(i, |r|) ==> r[j].prev == r[Prev(j, |r|)]
    requires r[i - 1].next == r[Next(i, |r|)] && r[Next(i, |r|)].prev == r[i - 1]
    ensures Linked(r[..i] + r[i + 1..])
  {
    var r', n := r[..i] + r[i + 1..], |r| - 1;
    forall j | 0 <= j < n ensures r'[j].next == r'[Next(j, n)] && r'[j].prev == r'[Prev(j, n)] {
      var k := if j < i then j else j + 1;
      assert r'[j] == r[k];
    }
  }

  lemma ViewsWithout(r: seq<Process>, i: nat)
    requires i < |r|
    ensures Views(r[..i] + r[i + 1..]) == Views(r)[..i] + Views(r)[i + 1..]
  {
  }

  lemma AheadIsNext(r: seq<Process>, nextPid: int)
    requires Linked(r) && r != [] && RingOk(Views(r), nextPid)
    ensures r[0].next == if |r| > 1 then r[1] else r[0]
    ensures |r| == 1 ==> r[0].status != TERM
    ensures |r| > 1 ==> r[1].View() == Views(r)[1]
  {
    assert Views(r)[0] == r[0].View();
  }

  /** Zeroing the slot of the removed process frees exactly what has no owner any more. */
  lemma FreedAfterRemoval(q: seq<Pcb>, q': seq<Pcb>, base: seq<int>)
    requires |q| >= 2 && Slots(q') == Slots(q) - {q[1].slot} && 0 <= q[1].slot < |base|
    ensures Freed(base, q)[q[1].slot := 0] == Freed(base, q')
  {
  }

  lemma TerminatedIsNotInit(q: seq<Pcb>, nextPid: int, i: nat)
    requires RingOk(q, nextPid) && i < |q| && q[i].status == TERM
    ensures q[i].pid != 1 && Unique(q)
    ensures forall j :: 0 <= j < |q| ==> 0 <= q[j].slot < NBMAX_PROC
    ensures i != 0 ==> q[0].pid != q[i].pid
  {
    var j :| 0 <= j < |q| && q[j].pid == 1 && q[j].status != TERM;
  }

  lemma SlotsAfterRemoval(q: seq<Pcb>, nextPid: int)
    requires |q| >= 2 && RingOk(q, nextPid) && q[1].status == TERM && Due(q[1])
    ensures Slots(Examine(q)) == Slots(q) - {q[1].slot} && 0 <= q[1].slot < NBMAX_PROC
  {
    var r := Examine(q);
    forall s | s in Slots(r) ensures s in Slots(q) && s != q[1].slot {
      var i :| 0 <= i < |r| && r[i].slot == s;
      assert q[if i == 0 then 0 else i + 1] in q;
    }
    forall s | s in Slots(q) && s != q[1].slot ensures s in Slots(r) {
      var i :| 0 <= i < |q| && q[i].slot == s;
      assert r[if i == 0 then 0 else i - 1].slot == s;
    }
  }

  /** The cycle closes again with `p` between the first record and its successor. */
  lemma LinkedAfterInsert(r: seq<Process>, p: Process)
    requires |r| >= 2 && p !in r
    requires forall j, k {:trigger r[j], r[k]} :: 0 <= j < k < |r| ==> r[j] != r[k]
    requires forall j {:trigger r[j].next} :: 0 < j < |r| ==> r[j].next == r[Next(j, |r|)]
    requires forall j {:trigger r[j].prev} :: 0 <= j < |r| && j != 1 ==> r[j].prev == r[Prev(j, |r|)]
    requires r[0].next == p && p.next == r[1] && r[1].prev == p && p.prev == r[0]
    ensures Linked([r[0], p] + r[1..])
  {
    var r', n := [r[0], p] + r[1..], |r| + 1;
    forall j | 0 <= j < n ensures r'[j].next == r'[Next(j, n)] && r'[j].prev == r'[Prev(j, n)] {
      if j != 1 { assert r'[j] == r[if j == 0 then 0 else j - 1]; }
    }
  }

  lemma ViewsInsert(r: seq<Process>, p: Process)
    requires r != []
    ensures Views([r[0], p] + r[1..]) == [Views(r)[0], p.View()] + Views(r)[1..]
  {
  }

  lemma FirstFreeIs(stacks: seq<int>, i: nat)
    requires i <= |stacks| && (i < |stacks| ==> stacks[i] == 0) && forall j :: 0 <= j < i ==> stacks[j] != 0
    ensures FirstFree(stacks) == i
  {
  }

  // What the walk needs at its start, at each step and at its end.

  lemma WalkStarts(k: Kernel, sp: int)
    requires Good(k) && k.procs != [] && CanSchedule(k.procs)
    ensures var y := Yield(k.procs, sp);
      && RingOk(y, k.nextPid) && NoneRuns(y) && HasInit(y) && Schedulable(y) && k.stacks == Freed(k.stacks, y)
  {
    hide RingOk, Schedulable, HasInit;
    YieldKeeps(k.procs, sp);
    YieldKeepsRing(k.procs, k.nextPid, sp);
    assert k.stacks == Freed(k.stacks, Yield(k.procs, sp));
  }

  lemma WalkUnfolds(q: seq<Pcb>, nextPid: int)
    requires RingOk(q, nextPid) && NoneRuns(q) && HasInit(q) && Schedulable(q)
    ensures var r := Tick(q);
      && RingOk(r, nextPid) && NoneRuns(r) && HasInit(r)
      && Walk(q) == (if r[0].status == WAIT then r else Walk(q))
      && (r[0].status != WAIT ==> Schedulable(r) && Walk(r) == Walk(q))
  {
    hide RingOk;
    TickKeepsRing(q, nextPid);
    TickKeepsInit(q);
    TickKeepsSchedulable(q);
  }

  lemma SlotsRotate(q: seq<Pcb>, base: seq<int>)
    requires q != []
    ensures Freed(base, Rotate(q)) == Freed(base, q)
  {
    assert forall p :: p in Rotate(q) <==> p in q;
    assert Slots(Rotate(q)) == Slots(q);
  }

  lemma FreedSame(q: seq<Pcb>, r: seq<Pcb>, base: seq<int>)
    requires Slots(q) == Slots(r)
    ensures Freed(base, q) == Freed(base, r)
  {
  }

  class ProcessManager {
    var current: Process?
    var nbprocs: int
    var realNbprocs: int
    const stacks: array<int>
    ghost var ring: seq<Process>

    ghost predicate Valid()
      reads this, ring
    {
      && stacks.Length == NBMAX_PROC
      && realNbprocs == |ring|
      && (if ring == [] then current == null else current == ring[0])
      && Linked(ring)
    }

    ghost function Table(): Kernel
      reads this, ring, stacks
    {
      Kernel(Views(ring), stacks[..], nbprocs)
    }

    constructor ()
      ensures Valid() && Table() == Empty()
      ensures fresh(stacks)
    {
      stacks := new int[NBMAX_PROC](i => 0);
      current, nbprocs, realNbprocs := null, 1, 0;
      ring := [];
    }

    /** Move on to the next record. */
    method StepOn()
      requires Valid() && ring != []
      modifies this`current, this`ring
      ensures Valid() && ring == old(ring)[1..] + [old(ring)[0]]
      ensures Table() == old(Table()).(procs := Rotate(old(Views(ring))))
    {
      LinkedRotates(ring);
      ViewsRotate(ring);
      current := current.next;
      ring := ring[1..] + [ring[0]];
    }

    /** The record with this pid, searched for from the current one; null if there is none. */
    method FindProcess(pid: int) returns (process: Process?, ghost i: nat)
      requires Valid() && ring != [] && Unique(Views(ring))
      ensures i == Find(Views(ring), pid)
      ensures var k := Find(Views(ring), pid); if k < |ring| then process == ring[k] else process == null
    {
      process := current;
      i := 0;
      var base := process.pid;
      while true
        invariant 0 <= i < |ring| && process == ring[i]
        invariant forall j :: 0 <= j < i ==> ring[j].pid != pid
        invariant base == ring[0].pid
        decreases |ring| - i
      {
        if process.pid == pid {
          FindsFirst(Views(ring), pid, i);
          return;
        }
        process := process.next;
        ghost var last := i;
        i := Next(i, |ring|);
        if process.pid == base {
          assert i == 0 by { FindIs(Views(ring), i); FindIs(Views(ring), 0); }
          assert last == |ring| - 1;
          FindsFirst(Views(ring), pid, |ring|);
          return null, |ring|;
        }
      }
    }

    method Kill(pid: int, status: Status) returns (r: Option<Status>)
      requires Valid() && Unique(Views(ring))
      modifies ring
      ensures Valid() && Table() == old(Table()).(procs := ProcessTable.Kill(old(Views(ring)), pid, status))
      ensures r == if Find(old(Views(ring)), pid) < |ring| then Some(status) else None
    {
      if current == null { return None; }
      ghost var q := Views(ring);
      var process, i := FindProcess(pid);
      if process == null { return None; }
      process.status := status;
      assert Views(ring) == q[i := q[i].(status := status)];
      return Some(process.status);
    }

    /** The marking done by `waitpid`; whether there is such a process. */
    method MarkAwaited(pid: int) returns (found: bool)
      requires Valid() && ring != [] && Unique(Views(ring))
      modifies ring
      ensures Valid() && Table() == old(Table()).(procs := Await(old(Views(ring)), pid))
      ensures found <==> Find(old(Views(ring)), pid) < |ring|
    {
      ghost var q := Views(ring);
      var process, i := FindProcess(pid);
      if process == null { return false; }
      process.waitTime := 1;
      assert Views(ring) == q[i := q[i].(waitTime := 1)];
      return true;
    }

    /** Take `process` off the ring and free its stack. */
    method Unlink(process: Process, ghost i: nat)
      requires Valid() && 0 < i < |ring| && process == ring[i]
      requires process.slot < NBMAX_PROC
      modifies this`ring, this`realNbprocs, ring, stacks
      ensures Valid() && ring == old(ring)[..i] + old(ring)[i + 1..]
      ensures Views(ring) == old(Views(ring))[..i] + old(Views(ring))[i + 1..]
      ensures stacks[..] == old(stacks[..])[old(process.slot) := 0]
    {
      ghost var r, n := ring, |ring|;
      stacks[process.slot] := 0;
      var before, after := process.prev, process.next;
      assert before == r[i - 1] && after == r[Next(i, n)];
      before.next := after;
      after.prev := before;
      realNbprocs := realNbprocs - 1;
      ring := r[..i] + r[i + 1..];
      assert forall j {:trigger r[j].next} :: 0 <= j < n && j != i - 1 ==> r[j].next == old(r[j].next);
      assert forall j {:trigger r[j].prev} :: 0 <= j < n && j != Next(i, n) ==> r[j].prev == old(r[j].prev);
      LinkedAfterUnlink(r, i);
      assert Views(r) == old(Views(r));
      ViewsWithout(r, i);
    }

    /** Remove the process with this pid, which is not the current one; -1 if there is none.
        When only one process is left it becomes ready. */
    method RemoveProcess(pid: int) returns (r: int)
      requires Valid() && Unique(Views(ring)) && pid != 1
      requires forall i :: 0 <= i < |ring| ==> Views(ring)[i].slot < NBMAX_PROC
      requires ring != [] ==> Views(ring)[0].pid != pid
      modifies this`ring, this`realNbprocs, ring, stacks
      ensures Valid() && (ring != [] ==> current == ring[0])
      ensures var q, i := old(Views(ring)), Find(old(Views(ring)), pid);
        if i == |q| then r == -1 && Table() == old(Table())
        else && r == pid && stacks[..] == old(stacks[..])[q[i].slot := 0]
             && ring == old(ring)[..i] + old(ring)[i + 1..]
             && Views(ring) == (if |q| == 2 then [q[0].(status := WAIT)] else q[..i] + q[i + 1..])
    {
      if current == null { return -1; }
      var process, i := FindProcess(pid);
      if process == null { return -1; }
      ghost var q := Views(ring);
      assert q[i] == process.View();
      Unlink(process, i);
      if realNbprocs == 1 {
        assert Views(ring)[0] == q[0];
        current.status := WAIT;
        assert Views(ring) == [q[0].(status := WAIT)];
      }
      return pid;
    }

    /** Remove the terminated process just ahead; `base` holds the stacks as they were
        before anything was removed. */
    method RemoveNext(ghost base: seq<int>)
      requires Valid() && |ring| > 1 && RingOk(Views(ring), nbprocs)
      requires |base| == NBMAX_PROC && stacks[..] == Freed(base, Views(ring))
      requires Views(ring)[1].status == TERM && Due(Views(ring)[1])
      modifies this`ring, this`realNbprocs, ring, stacks
      ensures Valid() && ring == [old(ring)[0]] + old(ring)[2..] && current == old(current)
      ensures Views(ring) == Examine(old(Views(ring))) && stacks[..] == Freed(base, Views(ring))
    {
      hide RingOk, Linked, Slots, Freed;
      ghost var q := Views(ring);
      TerminatedIsNotInit(q, nbprocs, 1);
      FindIs(q, 1);
      AheadIsNext(ring, nbprocs);
      var pid := RemoveProcess(current.next.pid);
      assert q[..1] + q[2..] == [q[0]] + q[2..];
      assert Views(ring) == Examine(q);
      SlotsAfterRemoval(q, nbprocs);
      FreedAfterRemoval(q, Views(ring), base);
    }

    /** Look at the process just ahead: remove it, let it grow older, or leave it. */
    method ExamineNext(ghost base: seq<int>)
      requires Valid() && ring != [] && RingOk(Views(ring), nbprocs)
      requires |base| == NBMAX_PROC && stacks[..] == Freed(base, Views(ring))
      modifies this`ring, this`realNbprocs, ring, stacks
      ensures Valid() && ring != [] && (forall i :: 0 <= i < |ring| ==> ring[i] in old(ring)) && current == old(current)
      ensures Views(ring) == Examine(old(Views(ring))) && stacks[..] == Freed(base, Views(ring))
    {
      ghost var q := Views(ring);
      var next := current.next;
      AheadIsNext(ring, nbprocs);
      if next.status == TERM {
        if next.waitTime == 0 || next.waitTime == USEC_PER_SEC {
          RemoveNext(base);
        } else {
          next.waitTime := next.waitTime + 1;
          assert Views(ring) == q[1 := Aged(q[1])];
          SameSlots(q, Views(ring));
        }
      }
    }

    method YieldCurrent(sp: int)
      requires Valid() && ring != []
      modifies ring
      ensures Valid() && Views(ring) == Yield(old(Views(ring)), sp)
    {
      ghost var q := Views(ring);
      assert q[0] == ring[0].View();
      current.sp := sp;
      if current.status == RUN { current.status := WAIT; }
      assert Views(ring) == Yield(q, sp);
    }

    method DispatchCurrent()
      requires Valid() && ring != []
      modifies ring
      ensures Valid() && Views(ring) == Dispatch(old(Views(ring)))
    {
      ghost var q := Views(ring);
      assert q[0] == ring[0].View();
      current.status := RUN;
      current.runCount := current.runCount + 1;
      assert Views(ring) == Dispatch(q);
    }

    /** One step of the walk; whether it has reached a ready process. */
    method WalkOn(ghost base: seq<int>) returns (ready: bool)
      requires Valid() && ring != [] && RingOk(Views(ring), nbprocs)
      requires |base| == NBMAX_PROC && stacks[..] == Freed(base, Views(ring))
      modifies this`current, this`ring, this`realNbprocs, ring, stacks
      ensures Valid() && ring != [] && (forall i :: 0 <= i < |ring| ==> ring[i] in old(ring))
      ensures Views(ring) == Tick(old(Views(ring))) && stacks[..] == Freed(base, Views(ring))
      ensures ready <==> Views(ring)[0].status == WAIT
    {
      hide Linked, RingOk, Slots, Freed, Examine;
      ghost var q := Views(ring);
      ExamineNext(base);
      StepOn();
      SlotsRotate(Examine(q), base);
      assert current.View() == Views(ring)[0];
      return current.status == WAIT;
    }

    /** Pass the processor on; `sp` is the stack pointer saved for the current process. */
    method Schedule(sp: int)
      requires Valid() && Good(Table()) && (ring != [] ==> CanSchedule(Views(ring)))
      modifies this`current, this`ring, this`realNbprocs, ring, stacks
      ensures Valid() && Good(Table())
      ensures if old(ring) == [] then Table() == old(Table())
              else var r := ProcessTable.Schedule(old(Views(ring)), sp);
                   Table() == old(Table()).(procs := r, stacks := Freed(old(stacks[..]), r))
    {
      hide Linked, RingOk, Slots, Freed, HasInit, Schedulable, Walk,
        Tick, NoneRuns, StacksOk, OneRuns, Views, Yield, Dispatch;
      if current != null && realNbprocs != 0 {
        ghost var k, r0, base := Table(), ring, stacks[..];
        ghost var y := Yield(k.procs, sp);
        YieldCurrent(sp);
        WalkStarts(k, sp);
        while true
          invariant Valid() && ring != [] && (forall i :: 0 <= i < |ring| ==> ring[i] in r0)
          invariant RingOk(Views(ring), nbprocs) && NoneRuns(Views(ring)) && stacks[..] == Freed(base, Views(ring))
          invariant HasInit(Views(ring)) && Schedulable(Views(ring)) && Walk(Views(ring)) == Walk(y)
          decreases if HasWait(Views(ring)) then 0 else 1,
                    if HasWait(Views(ring)) then Ahead(Views(ring)) else Looks(Views(ring)),
                    if |ring| >= 2 && Stays(Views(ring)[1]) then 1 else 0
        {
          ghost var q := Views(ring);
          WalkUnfolds(q, nbprocs);
          var ready := WalkOn(base);
          if ready { break; }
          WalkProgress(q);
        }
        ghost var w := Views(ring);
        DispatchCurrent();
        DispatchKeepsRing(w, nbprocs);
        FreedSame(w, Views(ring), base);
        ScheduleKeeps(k, sp);
      }
    }

    /** First free stack slot, or NBMAX_PROC. */
    method FindSlot() returns (i: nat)
      requires Valid()
      ensures i == FirstFree(stacks[..])
    {
      i := 0;
      while i < NBMAX_PROC
        invariant i <= NBMAX_PROC && forall j :: 0 <= j < i ==> stacks[j] != 0
      {
        if stacks[i] == 0 { break; }
        i := i + 1;
      }
      FirstFreeIs(stacks[..], i);
    }

    /** Link a new record in between the current one and its successor. */
    method InsertAmong(process: Process)
      requires Linked(ring) && |ring| >= 2 && current == ring[0] && process !in ring
      modifies this`ring, ring, process
      ensures process.View() == old(process.View()) && Linked(ring)
      ensures ring == [old(ring)[0], process] + old(ring)[1..]
      ensures Views(ring) == [old(Views(ring))[0], old(process.View())] + old(Views(ring))[1..]
    {
      ghost var r, p, q := ring, process.View(), Views(ring);
      var after := current.next;
      after.prev := process;
      process.next := after;
      current.next := process;
      process.prev := current;
      ring := [r[0], process] + r[1..];
      LinkedAfterInsert(r, process);
      assert Views(r) == q && process.View() == p;
      ViewsInsert(r, process);
    }

    /** Link a new record in behind the current one. */
    method Insert(process: Process)
      requires Valid() && process !in ring
      modifies this`current, this`ring, this`realNbprocs, ring, process
      ensures process.View() == old(process.View())
      ensures Valid() && ring == (if old(ring) == [] then [process] else [old(ring)[0], process] + old(ring)[1..])
      ensures Views(ring) ==
                var p, q := old(process.View()), old(Views(ring));
                if q == [] then [p] else [q[0], p] + q[1..]
    {
      ghost var r, p, q := ring, process.View(), Views(ring);
      if realNbprocs == 0 {
        current := process;
        current.next := process;
        current.prev := process;
        ring := [process];
      } else if realNbprocs == 1 {
        current.next := process;
        process.next := current;
        current.prev := process;
        process.prev := current;
        ring := [r[0], process];
      } else {
        InsertAmong(process);
      }
      realNbprocs := realNbprocs + 1;
    }

    /** Claim a stack for a new process: slot 0 for the first one, else the first free slot. */
    method TakeSlot(sp: int) returns (slot: nat)
      requires Valid()
      modifies stacks
      ensures Valid() && Views(ring) == old(Views(ring))
      ensures slot == SlotFor(old(stacks[..])) && slot <= NBMAX_PROC == stacks.Length
      ensures stacks[..] == if slot == NBMAX_PROC then old(stacks[..])
                            else old(stacks[..])[slot := StackFor(old(stacks[..]), sp)]
    {
      slot := 0;
      if stacks[0] == 0 {
        stacks[0] := sp;
      } else {
        slot := FindSlot();
        if slot < NBMAX_PROC { stacks[slot] := stacks[0] + slot * STACK_SIZE; }
      }
    }

    method ResetCurrent()
      requires Valid()
      modifies ring
      ensures Valid() && stacks[..] == old(stacks[..])
      ensures Views(ring) == Reset(old(Views(ring)))
    {
      if current != null {
        ghost var q := Views(ring);
        assert q[0] == ring[0].View();
        current.retval := 0;
        current.waitTime := 0;
        assert Views(ring) == Reset(q);
      }
    }

    /** Fill in a new record and link it in; the very first process counts as having run. */
    method Enlist(p: Pcb)
      requires Valid() && p.runCount == 0 && p.slot >= 0
      modifies this, ring
      ensures Valid() && nbprocs == old(nbprocs) + 1 && stacks[..] == old(stacks[..])
      ensures Views(ring) == Inserted(old(Views(ring)), p)
    {
      var process := new Process(p);
      Insert(process);
      nbprocs := nbprocs + 1;
      if realNbprocs == 1 {
        ghost var q := Views(ring);
        assert q[0] == ring[0].View();
        current.runCount := current.runCount + 1;
        assert Views(ring) == [q[0].(runCount := q[0].runCount + 1)];
      }
    }

    /** Add a process. `memory` says whether the allocator has room for its record, `sp` is
        the stack pointer at the time of the call, and `junk` is what the record's memory
        held before. */
    method AddProcess(status: Status, memory: bool, sp: int, junk: Junk) returns (pid: int)
      requires Valid()
      modifies this, ring, stacks
      ensures Valid() && (Table(), pid) == Add(old(Table()), status, memory, sp, junk)
    {
      if memory { pid := Admit(status, sp, junk); } else { pid := -1; }
    }

    /** Adding a process once there is memory for its record. */
    method Admit(status: Status, sp: int, junk: Junk) returns (pid: int)
      requires Valid()
      modifies this, ring, stacks
      ensures Valid() && (Table(), pid) == Add(old(Table()), status, true, sp, junk)
    {
      hide Linked, Views, FirstFree, Reset, Inserted, SlotFor, StackFor, ProcessTable.Parent, Valid;
      StacksLength();
      var ppid := Parent();
      ResetCurrent();
      var slot := TakeSlot(sp);
      pid := -1;
      if slot < NBMAX_PROC {
        pid := nbprocs;
        Enlist(Pcb(pid, ppid, status, 0, slot, stacks[slot], junk.retval, junk.waitTime));
      }
    }

    lemma StacksLength()
      requires Valid()
      ensures stacks.Length == NBMAX_PROC && (ring == [] <==> Views(ring) == [])
    {
    }

    method Parent() returns (ppid: int)
      requires Valid()
      ensures ppid == ProcessTable.Parent(Views(ring))
    {
      assert ring != [] ==> Views(ring)[0] == ring[0].View();
      return if current == null then -1 else current.pid;
    }
  }
}
