/** The whole process table: the ring, the stack slots and the next pid, and what each
    operation on it keeps over every run. */
module ProcessTable {
  import opened ProcessRing

  const NBMAX_PROC := 4096
  const STACK_SIZE := 2048

  datatype Kernel = Kernel(procs: seq<Pcb>, stacks: seq<int>, nextPid: int)

  // ----- invariants -----

  function Slots(q: seq<Pcb>): set<int> { set p | p in q :: p.slot }

  /** Process 1, on slot 0 and not terminated. */
  ghost predicate IsInit(p: Pcb) { p.pid == 1 && p.status != TERM && p.slot == 0 }

  /** Pids and stack slots are unique, and process 1, on slot 0, is there and not terminated. */
  ghost predicate RingOk(q: seq<Pcb>, nextPid: int) {
    && (forall i :: 0 <= i < |q| ==> 1 <= q[i].pid < nextPid && 0 <= q[i].slot < NBMAX_PROC)
    && (forall i, j :: 0 <= i < j < |q| ==> q[i].pid != q[j].pid && q[i].slot != q[j].slot)
    && (exists i :: 0 <= i < |q| && IsInit(q[i]))
  }

  /** A stack is in use exactly when a process on the ring owns its slot, and stack `i`
      starts `i` stack sizes above stack 0. */
  ghost predicate StacksOk(q: seq<Pcb>, stacks: seq<int>) {
    && |stacks| == NBMAX_PROC
    && (forall i :: 0 <= i < NBMAX_PROC ==> (stacks[i] != 0 <==> i in Slots(q)))
    && (forall i :: 0 <= i < NBMAX_PROC && stacks[i] != 0 ==> stacks[i] == stacks[0] + i * STACK_SIZE)
    && stacks[0] >= 0
  }

  /** At most one process is running, and it is the current one. */
  ghost predicate OneRuns(q: seq<Pcb>) {
    forall i :: 0 < i < |q| ==> q[i].status != RUN
  }

  ghost predicate Good(k: Kernel) {
    && StacksOk(k.procs, k.stacks) && OneRuns(k.procs)
    && if k.procs == [] then k.nextPid == 1 else RingOk(k.procs, k.nextPid)
  }

  function Empty(): Kernel { Kernel([], seq(NBMAX_PROC, i => 0), 1) }

  // ----- the operations -----

  function FirstFree(stacks: seq<int>): (r: nat)
    ensures r <= |stacks| && (r < |stacks| ==> stacks[r] == 0)
    ensures forall i :: 0 <= i < r ==> stacks[i] != 0
  {
    if stacks == [] || stacks[0] == 0 then 0 else 1 + FirstFree(stacks[1..])
  }

  /** What memory fresh from the allocator happens to hold. */
  datatype Junk = Junk(retval: int, waitTime: int)

  /** The current process's return value and waiting time start afresh. */
  function Reset(q: seq<Pcb>): seq<Pcb> {
    if q == [] then [] else q[0 := q[0].(retval := 0, waitTime := 0)]
  }

  /** A new process goes in behind the current one; the very first counts as having run. */
  function Inserted(q: seq<Pcb>, p: Pcb): seq<Pcb> {
    if q == [] then [p.(runCount := 1)] else [q[0], p] + q[1..]
  }

  /** The stack slot for a new process, and the stack that goes with it: the first process
      of all keeps the stack it is called on. */
  function SlotFor(stacks: seq<int>): nat
    requires stacks != []
  {
    if stacks[0] == 0 then 0 else FirstFree(stacks)
  }

  function StackFor(stacks: seq<int>, sp: int): int
    requires stacks != []
  {
    if stacks[0] == 0 then sp else stacks[0] + FirstFree(stacks) * STACK_SIZE
  }

  /** Adding a process: the table afterwards, and the new pid or -1. The current process is
      reset even when no slot is left. */
  function Add(k: Kernel, status: Status, memory: bool, sp: int, junk: Junk): (Kernel, int)
    requires |k.stacks| == NBMAX_PROC
  {
    var slot, stack := SlotFor(k.stacks), StackFor(k.stacks, sp);
    if !memory then (k, -1)
    else if slot >= NBMAX_PROC then (k.(procs := Reset(k.procs)), -1)
    else
      var p := Pcb(k.nextPid, Parent(k.procs), status, 0, slot, stack, junk.retval, junk.waitTime);
      (Kernel(Inserted(Reset(k.procs), p), k.stacks[slot := stack], k.nextPid + 1), k.nextPid)
  }

  function Parent(q: seq<Pcb>): int { if q == [] then -1 else q[0].pid }

  /** Index of the process with this pid; `|q|` if there is none. */
  function Find(q: seq<Pcb>, pid: int): (r: nat)
    ensures r <= |q| && (r < |q| ==> q[r].pid == pid)
    ensures forall i :: 0 <= i < r ==> q[i].pid != pid
  {
    if q == [] || q[0].pid == pid then 0 else 1 + Find(q[1..], pid)
  }

  ghost predicate Unique(q: seq<Pcb>) {
    forall i, j :: 0 <= i < j < |q| ==> q[i].pid != q[j].pid
  }

  lemma FindIs(q: seq<Pcb>, i: nat)
    requires Unique(q) && i < |q|
    ensures Find(q, q[i].pid) == i
  {
  }

  function Kill(q: seq<Pcb>, pid: int, status: Status): seq<Pcb> {
    var i := Find(q, pid);
    if i == |q| then q else q[i := q[i].(status := status)]
  }

  /** `waitpid` marks its target as waited for. */
  function Await(q: seq<Pcb>, pid: int): seq<Pcb> {
    var i := Find(q, pid);
    if i == |q| then q else q[i := q[i].(waitTime := 1)]
  }

  /** The current process gives up the processor; `sp` is its saved stack pointer. */
  function Yield(q: seq<Pcb>, sp: int): seq<Pcb>
    requires q != []
  {
    q[0 := q[0].(sp := sp, status := if q[0].status == RUN then WAIT else q[0].status)]
  }

  function Dispatch(q: seq<Pcb>): seq<Pcb>
    requires q != []
  {
    q[0 := q[0].(status := RUN, runCount := q[0].runCount + 1)]
  }

  ghost predicate CanSchedule(q: seq<Pcb>) {
    q != [] && HasInit(q) && Schedulable(Yield(q, 0))
  }

  lemma YieldKeeps(q: seq<Pcb>, sp: int)
    requires q != []
    ensures HasInit(q) <==> HasInit(Yield(q, sp))
    ensures Schedulable(Yield(q, 0)) <==> Schedulable(Yield(q, sp))
  {
    var y, z := Yield(q, sp), Yield(q, 0);
    assert forall i :: 0 <= i < |q| ==> y[i].pid == q[i].pid && (y[i].status == TERM <==> q[i].status == TERM);
    assert forall i :: 0 <= i < |q| ==> y[i].status == z[i].status;
    assert y[1..] == z[1..];
  }

  function Schedule(q: seq<Pcb>, sp: int): (r: seq<Pcb>)
    requires CanSchedule(q)
    ensures r != []
  {
    YieldKeeps(q, sp);
    Dispatch(Walk(Yield(q, sp)))
  }

  /** The stacks of processes that are gone are free again. */
  function Freed(stacks: seq<int>, q: seq<Pcb>): seq<int> {
    seq(|stacks|, i requires 0 <= i < |stacks| => if i in Slots(q) then stacks[i] else 0)
  }

  // ----- what the walk keeps -----

  /** Nobody is running while the walk is on. */
  ghost predicate NoneRuns(q: seq<Pcb>) {
    forall i :: 0 <= i < |q| ==> q[i].status != RUN
  }

  /** A step keeps pids and slots as they are and drops at most the process it looks at. */
  lemma TickIndex(q: seq<Pcb>, i: nat) returns (j: nat)
    requires q != [] && i < |Tick(q)|
    ensures j < |q| && |q| - 1 <= |Tick(q)| <= |q|
    ensures Tick(q)[i].pid == q[j].pid && Tick(q)[i].slot == q[j].slot
    ensures j == (if |Tick(q)| == |q| then if i + 1 < |q| then i + 1 else 0 else if i + 2 < |q| then i + 2 else 0)
    ensures (Tick(q)[i].status == q[j].status) || (Tick(q)[i].status == WAIT && |q| == 2)
  {
    j := if |Tick(q)| == |q| then if i + 1 < |q| then i + 1 else 0 else if i + 2 < |q| then i + 2 else 0;
  }

  lemma TickKeepsRing(q: seq<Pcb>, nextPid: int)
    requires RingOk(q, nextPid) && NoneRuns(q)
    ensures RingOk(Tick(q), nextPid) && NoneRuns(Tick(q)) && Slots(Tick(q)) <= Slots(q)
  {
    hide Tick, Slots;
    var r := Tick(q);
    forall i | 0 <= i < |r|
      ensures 1 <= r[i].pid < nextPid && 0 <= r[i].slot < NBMAX_PROC && r[i].status != RUN
    {
      var j := TickIndex(q, i);
    }
    forall i, j | 0 <= i < j < |r| ensures r[i].pid != r[j].pid && r[i].slot != r[j].slot {
      var i' := TickIndex(q, i);
      var j' := TickIndex(q, j);
      assert i' != j';
    }
    assert exists i :: 0 <= i < |q| && IsInit(q[i]);
    TickKeepsInit1(q);
    TickKeepsSlots(q);
  }

  lemma TickKeepsSlots(q: seq<Pcb>)
    requires q != []
    ensures Slots(Tick(q)) <= Slots(q)
  {
    forall s | s in Slots(Tick(q)) ensures s in Slots(q) {
      var i :| 0 <= i < |Tick(q)| && Tick(q)[i].slot == s;
      var j := TickIndex(q, i);
      assert q[j] in q;
    }
  }

  lemma TickKeepsInit1(q: seq<Pcb>)
    requires exists i :: 0 <= i < |q| && IsInit(q[i])
    ensures exists i :: 0 <= i < |Tick(q)| && IsInit(Tick(q)[i])
  {
    var i :| 0 <= i < |q| && IsInit(q[i]);
    var e := Examine(q);
    var j := if |e| < |q| && i > 1 then i - 1 else i;
    assert IsInit(e[j]);
    assert Tick(q)[if j == 0 then |e| - 1 else j - 1] == e[j];
  }

  lemma {:induction false} WalkKeepsRing(q: seq<Pcb>, nextPid: int)
    requires RingOk(q, nextPid) && NoneRuns(q) && HasInit(q) && Schedulable(q)
    ensures RingOk(Walk(q), nextPid) && NoneRuns(Walk(q)) && Slots(Walk(q)) <= Slots(q)
    decreases if HasWait(q) then 0 else 1, if HasWait(q) then Ahead(q) else Looks(q),
              if |q| >= 2 && Stays(q[1]) then 1 else 0
  {
    TickKeepsRing(q, nextPid);
    if Tick(q)[0].status != WAIT {
      TickKeepsInit(q);
      TickKeepsSchedulable(q);
      WalkProgress(q);
      WalkKeepsRing(Tick(q), nextPid);
    }
  }

  lemma YieldKeepsRing(q: seq<Pcb>, nextPid: int, sp: int)
    requires RingOk(q, nextPid) && OneRuns(q)
    ensures RingOk(Yield(q, sp), nextPid) && NoneRuns(Yield(q, sp)) && Slots(Yield(q, sp)) == Slots(q)
  {
    var y := Yield(q, sp);
    assert forall i :: 0 <= i < |q| ==> y[i].pid == q[i].pid && y[i].slot == q[i].slot;
    SameSlots(q, y);
    var i :| 0 <= i < |q| && IsInit(q[i]);
    assert IsInit(y[i]);
  }

  lemma SameSlots(q: seq<Pcb>, r: seq<Pcb>)
    requires |q| == |r| && forall i :: 0 <= i < |q| ==> q[i].slot == r[i].slot
    ensures Slots(q) == Slots(r)
  {
    forall s | s in Slots(q) ensures s in Slots(r) { var i :| 0 <= i < |q| && q[i].slot == s; assert r[i] in r; }
    forall s | s in Slots(r) ensures s in Slots(q) { var i :| 0 <= i < |r| && r[i].slot == s; assert q[i] in q; }
  }

  /** A call of the scheduler keeps the whole table in order and leaves exactly one process
      running, the current one. */
  lemma ScheduleKeeps(k: Kernel, sp: int)
    requires Good(k) && CanSchedule(k.procs)
    ensures var r := Schedule(k.procs, sp);
      Good(k.(procs := r, stacks := Freed(k.stacks, r))) && r[0].status == RUN && Slots(r) <= Slots(k.procs)
  {
    hide Walk, Schedulable, HasInit, Ahead;
    var y := Yield(k.procs, sp);
    YieldKeeps(k.procs, sp);
    YieldKeepsRing(k.procs, k.nextPid, sp);
    WalkKeepsRing(y, k.nextPid);
    DispatchKeepsRing(Walk(y), k.nextPid);
  }

  lemma DispatchKeepsRing(q: seq<Pcb>, nextPid: int)
    requires RingOk(q, nextPid) && NoneRuns(q)
    ensures RingOk(Dispatch(q), nextPid) && OneRuns(Dispatch(q)) && Slots(Dispatch(q)) == Slots(q)
  {
    var y := Dispatch(q);
    assert forall i :: 0 <= i < |q| ==> y[i].pid == q[i].pid && y[i].slot == q[i].slot;
    SameSlots(q, y);
    var i :| 0 <= i < |q| && IsInit(q[i]);
    assert IsInit(y[i]);
  }

  // ----- what the other operations keep -----

  lemma KillKeeps(k: Kernel, pid: int, status: Status)
    requires Good(k) && k.procs != []
    requires pid == 1 ==> status != TERM
    requires status == RUN ==> pid == k.procs[0].pid
    ensures Good(k.(procs := Kill(k.procs, pid, status)))
  {
    var q, r := k.procs, Kill(k.procs, pid, status);
    SameSlots(q, r);
    var i :| 0 <= i < |q| && IsInit(q[i]);
    assert IsInit(r[i]);
  }

  lemma AwaitKeeps(k: Kernel, pid: int)
    requires Good(k) && k.procs != []
    ensures Good(k.(procs := Await(k.procs, pid)))
  {
    var q, r := k.procs, Await(k.procs, pid);
    SameSlots(q, r);
    var i :| 0 <= i < |q| && IsInit(q[i]);
    assert IsInit(r[i]);
  }

  lemma AddKeeps(k: Kernel, status: Status, memory: bool, sp: int, junk: Junk)
    requires Good(k) && status != RUN
    requires k.procs == [] ==> status != TERM && sp > 0
    ensures Good(Add(k, status, memory, sp, junk).0)
  {
    var k' := Add(k, status, memory, sp, junk).0;
    if k.procs == [] {
      assert k.stacks[0] == 0;
      if memory { assert Slots(k'.procs) == {0}; }
    } else if |k'.procs| == |k.procs| {
      ResetKeeps(k);
    } else {
      ResetKeeps(k);
      ZeroInUse(k);
      InsertKeeps(k.(procs := Reset(k.procs)), k'.procs[1], k'.procs[1].slot);
    }
  }

  lemma ResetKeeps(k: Kernel)
    requires Good(k) && k.procs != []
    ensures Good(k.(procs := Reset(k.procs)))
  {
    var q, r := k.procs, Reset(k.procs);
    SameSlots(q, r);
    var i :| 0 <= i < |q| && IsInit(q[i]);
    assert IsInit(r[i]);
  }

  lemma ZeroInUse(k: Kernel)
    requires Good(k) && k.procs != []
    ensures k.stacks[0] != 0
  {
    var i :| 0 <= i < |k.procs| && k.procs[i].pid == 1 && k.procs[i].slot == 0;
    assert k.procs[i] in k.procs;
  }

  /** A process with a new pid on a free slot goes in behind the current one. */
  lemma InsertKeeps(k: Kernel, p: Pcb, slot: nat)
    requires Good(k) && k.procs != [] && k.stacks[0] != 0
    requires p.pid == k.nextPid && p.status != RUN && p.slot == slot < NBMAX_PROC && k.stacks[slot] == 0
    ensures Good(Kernel([k.procs[0], p] + k.procs[1..],
                        k.stacks[slot := k.stacks[0] + slot * STACK_SIZE], k.nextPid + 1))
  {
    hide Slots, RingOk, OneRuns;
    var q, r := k.procs, [k.procs[0], p] + k.procs[1..];
    assert slot !in Slots(q);
    NoOwner(q, slot);
    InsertKeepsRing(k, p, slot);
    AddedSlots(q, r);
    InsertKeepsStacks(q, r, k.stacks, slot);
  }

  lemma InsertKeepsStacks(q: seq<Pcb>, r: seq<Pcb>, stacks: seq<int>, slot: nat)
    requires StacksOk(q, stacks) && stacks[0] != 0 && slot < NBMAX_PROC && stacks[slot] == 0
    requires Slots(r) == Slots(q) + {slot}
    ensures StacksOk(r, stacks[slot := stacks[0] + slot * STACK_SIZE])
  {
  }

  lemma NoOwner(q: seq<Pcb>, slot: int)
    requires slot !in Slots(q)
    ensures forall i :: 0 <= i < |q| ==> q[i].slot != slot
  {
    forall i | 0 <= i < |q| ensures q[i].slot != slot { assert q[i] in q; }
  }

  lemma InsertKeepsRing(k: Kernel, p: Pcb, slot: nat)
    requires k.procs != [] && RingOk(k.procs, k.nextPid) && OneRuns(k.procs)
    requires p.pid == k.nextPid && p.status != RUN && p.slot == slot < NBMAX_PROC
    requires forall i :: 0 <= i < |k.procs| ==> k.procs[i].slot != slot
    ensures RingOk([k.procs[0], p] + k.procs[1..], k.nextPid + 1) && OneRuns([k.procs[0], p] + k.procs[1..])
  {
    var q, r := k.procs, [k.procs[0], p] + k.procs[1..];
    assert forall j :: 0 <= j < |r| ==> r[j] == if j == 0 then q[0] else if j == 1 then p else q[j - 1];
    var i :| 0 <= i < |q| && IsInit(q[i]);
    assert r[if i > 0 then i + 1 else i] == q[i];
  }

  lemma AddedSlots(q: seq<Pcb>, r: seq<Pcb>)
    requires q != [] && |r| == |q| + 1 && r[0].slot == q[0].slot
    requires forall i :: 1 <= i < |q| ==> r[i + 1].slot == q[i].slot
    ensures Slots(r) == Slots(q) + {r[1].slot}
  {
    forall s | s in Slots(q) ensures s in Slots(r) {
      var i :| 0 <= i < |q| && q[i].slot == s;
      assert r[if i == 0 then 0 else i + 1] in r;
    }
    assert r[1] in r;
    forall s | s in Slots(r) && s != r[1].slot ensures s in Slots(q) {
      var i :| 0 <= i < |r| && r[i].slot == s;
      assert q[if i == 0 then 0 else i - 1] in q;
    }
  }

  // ----- stack slots -----

  lemma {:induction false} SlotsCount(q: seq<Pcb>)
    requires forall i, j :: 0 <= i < j < |q| ==> q[i].slot != q[j].slot
    ensures |Slots(q)| == |q|
  {
    if q == [] {
      assert Slots(q) == {};
    } else {
      SlotsCount(q[1..]);
      forall p | p in q[1..] ensures p.slot != q[0].slot {
        var i :| 0 <= i < |q| - 1 && q[1..][i] == p;
        assert q[i + 1] == p;
      }
      assert forall p :: p in q <==> p == q[0] || p in q[1..];
      assert Slots(q) == Slots(q[1..]) + {q[0].slot};
    }
  }

  lemma {:induction false} RangeCount(n: nat, s: set<int>)
    requires forall i :: i in s ==> 0 <= i < n
    ensures |s| <= n
    ensures |s| == n <==> forall i :: 0 <= i < n ==> i in s
  {
    if n == 0 {
      assert forall i :: i !in s;
      assert s == {};
    } else {
      var s' := s - {n - 1};
      RangeCount(n - 1, s');
      if n - 1 in s { assert s == s' + {n - 1}; } else { assert s == s'; }
      if forall i :: 0 <= i < n ==> i in s { assert forall i :: 0 <= i < n - 1 ==> i in s'; }
      if forall i :: 0 <= i < n - 1 ==> i in s' { assert forall i :: 0 <= i < n - 1 ==> i in s; }
    }
  }

  /** A process can be added if and only if there is memory for it and fewer than the
      maximal number of processes are on the ring; a failure leaves ring order, stacks and
      pids alone, and only resets what the current process returns and how long it waits. */
  lemma AddFailsIff(k: Kernel, status: Status, memory: bool, sp: int, junk: Junk)
    requires Good(k)
    ensures var (k', pid) := Add(k, status, memory, sp, junk);
      && (pid == -1 <==> !memory || |k.procs| == NBMAX_PROC)
      && (pid == -1 ==> k'.stacks == k.stacks && k'.nextPid == k.nextPid && |k'.procs| == |k.procs|
                        && forall i :: 0 <= i < |k.procs| ==>
                             k'.procs[i] == k.procs[i] ||
                             (i == 0 && memory && k'.procs[0] == k.procs[0].(retval := 0, waitTime := 0)))
      && (pid != -1 ==> |k'.procs| == |k.procs| + 1 && pid == k.nextPid && Find(k.procs, pid) == |k.procs|)
  {
    SlotsCount(k.procs);
    forall s | s in Slots(k.procs) ensures 0 <= s < NBMAX_PROC {
      var i :| 0 <= i < |k.procs| && k.procs[i].slot == s;
    }
    RangeCount(NBMAX_PROC, Slots(k.procs));
  }

  /** The stacks of two processes lie at least one stack size apart. */
  lemma StacksApart(k: Kernel, i: nat, j: nat)
    requires Good(k) && i < j < |k.procs|
    ensures var a, b := k.stacks[k.procs[i].slot], k.stacks[k.procs[j].slot];
            a != 0 && b != 0 && (a + STACK_SIZE <= b || b + STACK_SIZE <= a)
  {
    assert k.procs[i] in k.procs && k.procs[j] in k.procs;
    var s, t := k.procs[i].slot, k.procs[j].slot;
    assert s < t || t < s;
  }

  /** Adding a process wipes the current process's own mark, also when no slot is left, and
      leaves the new one with whatever its memory held: it starts unmarked if and only if
      that was zero. */
  lemma AddMarksTheWrongProcess(k: Kernel, status: Status, memory: bool, sp: int, junk: Junk)
    requires Good(k)
    ensures var (k', pid) := Add(k, status, memory, sp, junk);
      && (memory && k.procs != [] ==>
            k'.procs[0].pid == k.procs[0].pid && k'.procs[0].waitTime == 0 && k'.procs[0].retval == 0)
      && (pid != -1 ==>
            var i := Find(k'.procs, pid);
            i < |k'.procs| && i == (if k.procs == [] then 0 else 1) && k'.procs[i].status == status
            && (k'.procs[i].waitTime == 0 <==> junk.waitTime == 0) && k'.procs[i].retval == junk.retval)
  {
    var (k', pid) := Add(k, status, memory, sp, junk);
    if pid != -1 && k.procs != [] { assert k'.procs[0].pid != pid && k'.procs[1].pid == pid; }
  }
}
