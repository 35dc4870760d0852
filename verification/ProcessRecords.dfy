/** What becomes of each process's record, field by field. */
module ProcessRecords {
  import opened ProcessRing
  import opened ProcessTable
  import opened ProcessRuns

  // ----- scheduling -----

  /** The walk leaves a record alone, but for the waiting time of a terminated process, which
      grows, and for a process left alone on the ring, which becomes ready. */
  ghost predicate PassedBy(p: Pcb, p': Pcb, alone: bool) {
    && p' == p.(status := p'.status, waitTime := p'.waitTime)
    && (p'.status == p.status || (alone && p'.status == WAIT))
    && (p.status == TERM ==> p'.waitTime >= p.waitTime)
    && (p.status != TERM ==> p'.waitTime == p.waitTime)
  }

  lemma TickPassesBy(q: seq<Pcb>, pid: int)
    requires Unique(q) && q != [] && Has(Tick(q), pid)
    ensures Unique(Tick(q)) && Has(q, pid)
    ensures PassedBy(q[Find(q, pid)], Tick(q)[Find(Tick(q), pid)], |Tick(q)| == 1)
  {
    TickAddsNobody(q, pid);
    TickUnique(q);
    var i := Find(q, pid);
    if i == 1 && q[1].status == TERM && Due(q[1]) {
      TickRemoves(q);
      assert false;
    } else {
      TickPlace(q, i);
    }
  }

  lemma {:induction false} WalkPassesBy(q: seq<Pcb>, pid: int)
    requires q != [] && Unique(q) && HasInit(q) && Schedulable(q) && Has(Walk(q), pid)
    ensures Unique(Walk(q)) && Has(q, pid)
    ensures PassedBy(q[Find(q, pid)], Walk(q)[Find(Walk(q), pid)], |Walk(q)| == 1)
    decreases if HasWait(q) then 0 else 1, if HasWait(q) then Ahead(q) else Looks(q),
              if |q| >= 2 && Stays(q[1]) then 1 else 0
  {
    hide Tick, Examine, Looks, Stayers, Ahead, HasInit, HasWait, Schedulable, Unique, Find;
    var r := Tick(q);
    if r[0].status != WAIT {
      TickUnique(q);
      TickKeepsInit(q);
      TickKeepsSchedulable(q);
      WalkProgress(q);
      WalkPassesBy(r, pid);
    }
    TickPassesBy(q, pid);
  }

  /** A scheduler call saves the stack pointer in the record of the process that was current,
      which is ready again if it ran, counts one more run for the process it selects, which
      runs, and changes nothing else in the records of those that stay, except that dead
      processes grow older. */
  lemma ScheduleRecords(q: seq<Pcb>, sp: int, pid: int)
    requires Unique(q) && CanSchedule(q) && Has(Schedule(q, sp), pid)
    ensures Has(q, pid)
    ensures var r := Schedule(q, sp); var p, p' := q[Find(q, pid)], r[Find(r, pid)];
            && p'.pid == p.pid && p'.ppid == p.ppid && p'.slot == p.slot && p'.retval == p.retval
            && p'.sp == (if q[0].pid == pid then sp else p.sp)
            && p'.runCount == (if r[0].pid == pid then p.runCount + 1 else p.runCount)
            && p'.status == (if r[0].pid == pid then RUN
                             else if q[0].pid == pid && p.status == RUN then WAIT else p.status)
            && (if p.status == TERM then p'.waitTime >= p.waitTime else p'.waitTime == p.waitTime)
  {
    hide HasInit, Schedulable, Walk;
    var y := Yield(q, sp);
    YieldKeeps(q, sp);
    var v, r := Walk(y), Schedule(q, sp);
    assert Unique(y);
    assert v[Find(r, pid)].pid == pid;
    WalkPassesBy(y, pid);
    FindIs(v, Find(r, pid));
    assert q[Find(y, pid)].pid == pid;
    FindIs(q, Find(y, pid));
  }

  // ----- killing and waiting -----

  /** Exactly the process with the pid given changes its status, wherever it is on the ring. */
  lemma KillChanges(q: seq<Pcb>, pid: int, status: Status)
    requires Unique(q)
    ensures var r := Kill(q, pid, status);
            |r| == |q| && forall i :: 0 <= i < |q| ==> r[i] == if q[i].pid == pid then q[i].(status := status) else q[i]
  {
  }

  /** Exactly the process with the pid given is marked, with a waiting time of 1. */
  lemma AwaitChanges(q: seq<Pcb>, pid: int)
    requires Unique(q)
    ensures var r := Await(q, pid);
            |r| == |q| && forall i :: 0 <= i < |q| ==> r[i] == if q[i].pid == pid then q[i].(waitTime := 1) else q[i]
  {
  }

  // ----- adding -----

  /** A new process starts on the stack of its own slot, the lowest free one, which lies that
      many stack sizes above the stack of slot 0; the first process of all keeps the stack it
      is added on and counts as having run. The table changes nowhere else, but for the reset
      of the current process. */
  lemma AddedRecord(k: Kernel, status: Status, memory: bool, sp: int, junk: Junk)
    requires Good(k) && Add(k, status, memory, sp, junk).1 != -1
    ensures var (k', pid) := Add(k, status, memory, sp, junk);
            var q, first := k.procs, k.procs == [];
            var i := if first then 0 else 1;
            |k'.procs| == |q| + 1 && 0 <= k'.procs[i].slot < |k.stacks| == |k'.stacks| &&
            var p := k'.procs[i];
            && p.pid == pid == k.nextPid && k'.nextPid == pid + 1 && p.status == status
            && p.ppid == (if first then -1 else q[0].pid) && p.runCount == (if first then 1 else 0)
            && p.retval == junk.retval && p.waitTime == junk.waitTime
            && k.stacks[p.slot] == 0 && (forall s :: 0 <= s < p.slot ==> k.stacks[s] != 0)
            && p.sp == k'.stacks[p.slot] == (if first then sp else k.stacks[0] + 2048 * p.slot)
            && (forall s :: 0 <= s < |k.stacks| && s != p.slot ==> k'.stacks[s] == k.stacks[s])
            && (!first ==> k'.procs[0] == q[0].(retval := 0, waitTime := 0) && k'.procs[2..] == q[1..])
  {
    if k.procs != [] { ZeroInUse(k); }
  }

  /** A process that has never run has its stack pointer where its slot's stack is, and the
      current process has run. */
  ghost predicate Unstarted(k: Kernel) {
    && (forall i :: 0 <= i < |k.procs| ==> k.procs[i].runCount >= 0)
    && (forall i :: 0 <= i < |k.procs| && k.procs[i].runCount == 0 ==>
          0 <= k.procs[i].slot < |k.stacks| && k.procs[i].sp == k.stacks[k.procs[i].slot])
    && (k.procs != [] ==> k.procs[0].runCount > 0)
  }

  /** The stack of a process that stays is not freed. */
  lemma StackIsKept(k: Kernel, r: seq<Pcb>, i: nat, j: nat)
    requires Good(k) && i < |k.procs| && j < |r| && r[j].slot == k.procs[i].slot
    ensures 0 <= r[j].slot < |k.stacks| && Freed(k.stacks, r)[r[j].slot] == k.stacks[r[j].slot]
  {
    assert r[j].slot in Slots(r);
  }

  lemma ScheduleKeepsUnstarted(k: Kernel, sp: int)
    requires Good(k) && k.procs != [] && CanSchedule(k.procs) && Unstarted(k)
    ensures Unstarted(Step(k, SchedOp(sp)))
  {
    hide HasInit, Schedulable, CanSchedule, Good, Schedule, Freed;
    var q, r := k.procs, Schedule(k.procs, sp);
    var k' := Step(k, SchedOp(sp));
    GoodIsUnique(k);
    GoodIsUnique(k');
    forall i | 0 <= i < |r|
      ensures r[i].runCount >= 0 && (i == 0 ==> r[i].runCount > 0)
      ensures r[i].runCount == 0 ==> 0 <= r[i].slot < |k'.stacks| && r[i].sp == k'.stacks[r[i].slot]
    {
      FindIs(r, i);
      ScheduleRecords(q, sp, r[i].pid);
      StackIsKept(k, r, Find(q, r[i].pid), i);
    }
  }

  lemma AddKeepsUnstarted(k: Kernel, status: Status, memory: bool, sp: int, junk: Junk)
    requires Good(k) && Unstarted(k)
    ensures Unstarted(Add(k, status, memory, sp, junk).0)
  {
    hide Add, Good;
    GoodIsUnique(k);
    var (k', pid) := Add(k, status, memory, sp, junk);
    if pid == -1 {
      AddFailsIff(k, status, memory, sp, junk);
    } else {
      AddedRecord(k, status, memory, sp, junk);
      SlotsAreUnique(k);
      forall i | 0 <= i < |k'.procs|
        ensures k'.procs[i].runCount >= 0 && (i == 0 ==> k'.procs[i].runCount > 0)
        ensures k'.procs[i].runCount == 0 ==>
                  0 <= k'.procs[i].slot < |k'.stacks| && k'.procs[i].sp == k'.stacks[k'.procs[i].slot]
      {
        if i >= 2 { assert k'.procs[i] == k'.procs[2..][i - 2] == k.procs[i - 1]; }
      }
    }
  }

  lemma OthersKeepUnstarted(k: Kernel, op: Op)
    requires Good(k) && Legal(k, op) && !op.SchedOp? && Unstarted(k)
    ensures Unstarted(Step(k, op))
  {
    hide Add, Good;
    GoodIsUnique(k);
    match op
    case AddOp(status, memory, sp, junk) => AddKeepsUnstarted(k, status, memory, sp, junk);
    case KillOp(pid, status) => KillChanges(k.procs, pid, status);
    case AwaitOp(pid) => AwaitChanges(k.procs, pid);
  }

  /** A slot in use belongs to a process on the ring, so a new one's slot is nobody's. */
  lemma SlotsAreUnique(k: Kernel)
    requires Good(k)
    ensures forall i :: 0 <= i < |k.procs| ==> 0 <= k.procs[i].slot < |k.stacks| && k.stacks[k.procs[i].slot] != 0
  {
    forall i | 0 <= i < |k.procs|
      ensures 0 <= k.procs[i].slot < |k.stacks| && k.stacks[k.procs[i].slot] != 0
    {
      assert k.procs[i].slot in Slots(k.procs);
    }
  }

  lemma {:induction false} RunKeepsUnstarted(k: Kernel, ops: seq<Op>)
    requires Good(k) && LegalRun(k, ops) && Unstarted(k)
    ensures Unstarted(Run(k, ops))
    decreases |ops|
  {
    hide Good, CanSchedule, Unstarted;
    if ops != [] {
      if ops[0].SchedOp? {
        if k.procs != [] { ScheduleKeepsUnstarted(k, ops[0].sp); }
      } else {
        OthersKeepUnstarted(k, ops[0]);
      }
      RunKeepsUnstarted(Step(k, ops[0]), ops[1..]);
    }
  }

  /** Over every legal run from the empty table, two processes that have not run yet are to
      start at least one stack size apart. */
  lemma StartsApart(ops: seq<Op>, i: nat, j: nat)
    requires Good(Empty()) && LegalRun(Empty(), ops) && i < j < |Run(Empty(), ops).procs|
    requires Run(Empty(), ops).procs[i].runCount == 0 && Run(Empty(), ops).procs[j].runCount == 0
    ensures var a, b := Run(Empty(), ops).procs[i].sp, Run(Empty(), ops).procs[j].sp;
            a + 2048 <= b || b + 2048 <= a
  {
    RunKeepsUnstarted(Empty(), ops);
    RunKeepsTable(Empty(), ops);
    StacksApart(Run(Empty(), ops), i, j);
  }
}
