/** Runs of the process table: every mix of adding, killing, waiting and scheduling. */
module ProcessRuns {
  import opened ProcessRing
  import opened ProcessTable

  datatype Op =
    | AddOp(status: Status, memory: bool, sp: int, junk: Junk)
    | KillOp(pid: int, status: Status)
    | AwaitOp(pid: int)
    | SchedOp(sp: int)

  /** Nobody terminates process 1, makes another process run, or schedules with nothing
      that could ever become ready. */
  ghost predicate Legal(k: Kernel, op: Op) {
    match op
    case AddOp(status, _, sp, _) => status != RUN && (k.procs == [] ==> status != TERM && sp > 0)
    case KillOp(pid, status) => k.procs != [] && (pid == 1 ==> status != TERM)
      && (status == RUN ==> pid == k.procs[0].pid)
    case AwaitOp(_) => k.procs != []
    case SchedOp(_) => k.procs == [] || CanSchedule(k.procs)
  }

  function Step(k: Kernel, op: Op): (k': Kernel)
    requires Good(k) && Legal(k, op)
    ensures Good(k')
  {
    match op
    case AddOp(status, memory, sp, junk) =>
      AddKeeps(k, status, memory, sp, junk);
      Add(k, status, memory, sp, junk).0
    case KillOp(pid, status) =>
      KillKeeps(k, pid, status);
      k.(procs := Kill(k.procs, pid, status))
    case AwaitOp(pid) =>
      AwaitKeeps(k, pid);
      k.(procs := Await(k.procs, pid))
    case SchedOp(sp) =>
      if k.procs == [] then k
      else
        ScheduleKeeps(k, sp);
        var r := Schedule(k.procs, sp);
        k.(procs := r, stacks := Freed(k.stacks, r))
  }

  ghost predicate LegalRun(k: Kernel, ops: seq<Op>)
    requires Good(k)
    decreases |ops|
  {
    ops == [] || (Legal(k, ops[0]) && LegalRun(Step(k, ops[0]), ops[1..]))
  }

  function Run(k: Kernel, ops: seq<Op>): Kernel
    requires Good(k) && LegalRun(k, ops)
    decreases |ops|
  {
    if ops == [] then k else Run(Step(k, ops[0]), ops[1..])
  }

  /** Over every legal run from the empty table: pids and slots stay unique, a stack is in
      use exactly when a process owns it, process 1 stays, and at most the current process
      runs. */
  lemma {:induction false} RunKeepsTable(k: Kernel, ops: seq<Op>)
    requires Good(k) && LegalRun(k, ops)
    ensures Good(Run(k, ops)) && Good(Empty())
    decreases |ops|
  {
    if ops != [] { RunKeepsTable(Step(k, ops[0]), ops[1..]); }
  }

  // ----- bounded waiting -----

  predicate Has(q: seq<Pcb>, pid: int) { Find(q, pid) < |q| }

  /** Steps ahead of the current process on the ring; the whole ring for that process itself. */
  function Distance(q: seq<Pcb>, pid: int): nat {
    if Find(q, pid) == 0 then |q| else Find(q, pid)
  }

  ghost predicate IsReady(q: seq<Pcb>, pid: int) {
    Has(q, pid) && q[Find(q, pid)].status == WAIT
  }

  /** A call of the scheduler selects a ready process or brings it nearer. */
  lemma ScheduleAdvances(q: seq<Pcb>, pid: int, sp: int)
    requires Unique(q) && IsReady(q, pid) && CanSchedule(q) && Unique(Schedule(q, sp))
    ensures var r := Schedule(q, sp);
            r[0].pid == pid || (IsReady(r, pid) && Distance(r, pid) < Distance(q, pid))
  {
    var y, d := Yield(q, sp), Find(q, pid);
    YieldKeeps(q, sp);
    assert y[d].status == WAIT && y[d].pid == pid;
    var a := Ahead(y);
    WalkReaps(y);
    var w, r := Walk(y), Schedule(q, sp);
    var i := if d == 0 then |q| - a else d - a;
    assert w[i] == y[d];
    if i > 0 {
      assert r[i] == w[i];
      FindIs(r, i);
    }
  }

  function Scheds(ops: seq<Op>): nat {
    if ops == [] then 0 else (if ops[0].SchedOp? then 1 else 0) + Scheds(ops[1..])
  }

  function Adds(ops: seq<Op>): nat {
    if ops == [] then 0 else (if ops[0].AddOp? then 1 else 0) + Adds(ops[1..])
  }

  /** How many of the run's scheduler calls select `pid`. */
  function Selections(k: Kernel, ops: seq<Op>, pid: int): nat
    requires Good(k) && LegalRun(k, ops)
    decreases |ops|
  {
    if ops == [] then 0
    else
      var k' := Step(k, ops[0]);
      (if ops[0].SchedOp? && k'.procs != [] && k'.procs[0].pid == pid then 1 else 0) + Selections(k', ops[1..], pid)
  }

  ghost predicate NeverKilled(ops: seq<Op>, pid: int) {
    forall i :: 0 <= i < |ops| && ops[i].KillOp? ==> ops[i].pid != pid
  }

  lemma GoodIsUnique(k: Kernel)
    requires Good(k)
    ensures Unique(k.procs) && |k.stacks| == NBMAX_PROC
  {
  }

  /** Everything but the scheduler leaves a ready process ready, and only a new process can
      put it one step further away. */
  lemma OthersKeepReady(k: Kernel, op: Op, pid: int)
    requires Good(k) && Legal(k, op) && IsReady(k.procs, pid) && !op.SchedOp?
    requires op.KillOp? ==> op.pid != pid
    ensures var r := Step(k, op).procs;
            IsReady(r, pid) && Distance(r, pid) <= Distance(k.procs, pid) + (if op.AddOp? then 1 else 0)
  {
    hide Good;
    var q, k' := k.procs, Step(k, op);
    var r, d := k'.procs, Find(q, pid);
    GoodIsUnique(k);
    GoodIsUnique(k');
    var d' := if |r| > |q| && d > 0 then d + 1 else d;
    assert r[d'].pid == pid && r[d'].status == WAIT;
    FindIs(r, d');
  }

  /** Bounded waiting: a ready process that nobody kills is selected within as many
      scheduler calls as it is steps away, plus one for each process added meanwhile. */
  lemma {:induction false} BoundedWaiting(k: Kernel, ops: seq<Op>, pid: int)
    requires Good(k) && LegalRun(k, ops)
    requires IsReady(k.procs, pid) && NeverKilled(ops, pid)
    requires Scheds(ops) >= Distance(k.procs, pid) + Adds(ops)
    ensures Selections(k, ops, pid) >= 1
    decreases |ops|
  {
    hide Good, Schedulable, HasInit;
    if ops != [] {
      var k' := Step(k, ops[0]);
      assert NeverKilled(ops[1..], pid) by { assert forall i :: 0 <= i < |ops| - 1 ==> ops[1..][i] == ops[i + 1]; }
      GoodIsUnique(k);
      GoodIsUnique(k');
      if ops[0].SchedOp? {
        ScheduleAdvances(k.procs, pid, ops[0].sp);
        if k'.procs[0].pid != pid { BoundedWaiting(k', ops[1..], pid); }
      } else {
        OthersKeepReady(k, ops[0], pid);
        BoundedWaiting(k', ops[1..], pid);
      }
    }
  }

  // ----- how long an awaited process survives -----

  /** Since the terminated process `t` was last looked at, the walk has not come past `w`:
      it still lies ahead, before `t`. */
  predicate Owed(q: seq<Pcb>, t: int, w: int) {
    Find(q, t) == 0 || 0 < Find(q, w) < Find(q, t)
  }

  /** Each look at `t` after the first has been paid for by a selection of `w`. */
  ghost predicate Paid(q: seq<Pcb>, t: int, w: int, selections: nat) {
    && t != w && Unique(q) && Has(q, t) && Has(q, w)
    && var p := q[Find(q, t)];
    && p.status == TERM && 1 <= p.waitTime <= USEC_PER_SEC
    && selections + (if Owed(q, t, w) then 1 else 0) >= p.waitTime - 1
  }

  /** Where a process that is not removed ends up after a step. */
  lemma TickPlace(q: seq<Pcb>, i: nat)
    requires Unique(q) && i < |q| && !(i == 1 && q[1].status == TERM && Due(q[1]))
    ensures var r := Tick(q);
      && Unique(r) && |q| - 1 <= |r| <= |q| && (|r| == |q| <==> !(|q| > 1 && q[1].status == TERM && Due(q[1])))
      && Find(q, q[i].pid) == i && Has(r, q[i].pid)
      && Find(r, q[i].pid) == (if i == 0 then |r| - 1 else if |r| < |q| then i - 2 else i - 1)
      && (i == 1 && q[1].status == TERM ==> r[Find(r, q[i].pid)] == Aged(q[1]))
      && (i != 1 || q[1].status != TERM ==> r[Find(r, q[i].pid)] == q[i] || (|r| == 1 && r[0] == q[i].(status := WAIT)))
  {
    var r, e := Tick(q), Examine(q);
    FindIs(q, i);
    TickUnique(q);
    var i' := if i == 0 then |r| - 1 else if |r| < |q| then i - 2 else i - 1;
    assert r[i'].pid == q[i].pid;
    FindIs(r, i');
  }

  lemma TickUnique(q: seq<Pcb>)
    requires Unique(q) && q != []
    ensures Unique(Tick(q))
  {
    forall i, j | 0 <= i < j < |Tick(q)| ensures Tick(q)[i].pid != Tick(q)[j].pid {
      var i' := TickIndex(q, i);
      var j' := TickIndex(q, j);
    }
  }

  lemma TickAddsNobody(q: seq<Pcb>, pid: int)
    requires q != [] && Has(Tick(q), pid)
    ensures Has(q, pid)
  {
    var j := TickIndex(q, Find(Tick(q), pid));
  }

  lemma TickRemoves(q: seq<Pcb>)
    requires Unique(q) && |q| > 1 && q[1].status == TERM && Due(q[1])
    ensures !Has(Tick(q), q[1].pid)
  {
    forall i | 0 <= i < |Tick(q)| ensures Tick(q)[i].pid != q[1].pid { var j := TickIndex(q, i); }
  }

  /** One step of the walk: `t` is removed only when a million looks, less one, are paid
      for, and reaching `w` is a selection. */
  lemma TickPays(q: seq<Pcb>, t: int, w: int, selections: nat)
    requires Paid(q, t, w, selections) && IsReady(q, w)
    ensures var r := Tick(q);
      && IsReady(r, w)
      && (if Has(r, t) then Paid(r, t, w, selections + (if r[0].pid == w then 1 else 0))
          else selections >= USEC_PER_SEC - 1)
  {
    hide Tick, Examine;
    var a, b := Find(q, t), Find(q, w);
    TickPlace(q, b);
    if a == 1 && Due(q[1]) {
      TickRemoves(q);
    } else {
      TickPlace(q, a);
    }
  }

  lemma {:induction false} WalkAddsNobody(q: seq<Pcb>, pid: int)
    requires HasInit(q) && Schedulable(q) && Has(Walk(q), pid)
    ensures Has(q, pid)
    decreases if HasWait(q) then 0 else 1, if HasWait(q) then Ahead(q) else Looks(q),
              if |q| >= 2 && Stays(q[1]) then 1 else 0
  {
    if Tick(q)[0].status != WAIT {
      TickKeepsInit(q);
      TickKeepsSchedulable(q);
      WalkProgress(q);
      WalkAddsNobody(Tick(q), pid);
    }
    TickAddsNobody(q, pid);
  }

  lemma ReadyIsWait(q: seq<Pcb>, pid: int)
    requires IsReady(q, pid)
    ensures HasWait(q)
  {
  }

  lemma {:induction false} WalkPays(q: seq<Pcb>, t: int, w: int, selections: nat)
    requires Paid(q, t, w, selections) && IsReady(q, w) && HasInit(q) && Schedulable(q)
    ensures var r := Walk(q);
      if Has(r, t) then IsReady(r, w) && Paid(r, t, w, selections + (if r[0].pid == w then 1 else 0))
      else selections >= USEC_PER_SEC - 1
    decreases Ahead(q)
  {
    hide Tick, Examine, Paid, HasInit, Stayers;
    var r := Tick(q);
    ReadyIsWait(q, w);
    TickPays(q, t, w, selections);
    if r[0].status != WAIT {
      WalkStep(q);
      TickAhead(q);
      assert r[0].pid != w by { assert Find(r, w) != 0; }
      if Has(r, t) {
        WalkPays(r, t, w, selections);
      } else {
        if Has(Walk(r), t) { WalkAddsNobody(r, t); }
      }
    } else {
      WalkStep(q);
    }
  }

  /** `w` keeps taking its turns: it is ready, or it is the current process and running. */
  ghost predicate TakesTurns(q: seq<Pcb>, w: int) {
    Has(q, w) && (q[Find(q, w)].status == WAIT || (q[Find(q, w)].status == RUN && Find(q, w) == 0))
  }

  /** The run leaves both processes alone: it kills neither, and the terminated one does not
      itself add processes, which would reset its own mark. */
  ghost predicate LeavesAlone(k: Kernel, op: Op, t: int, w: int) {
    && (op.KillOp? ==> op.pid != t && op.pid != w)
    && (op.AddOp? && k.procs != [] ==> k.procs[0].pid != t)
  }

  lemma YieldPays(q: seq<Pcb>, t: int, w: int, selections: nat, sp: int)
    requires Paid(q, t, w, selections) && TakesTurns(q, w)
    ensures Paid(Yield(q, sp), t, w, selections) && IsReady(Yield(q, sp), w)
  {
    var y := Yield(q, sp);
    assert y[Find(q, t)].pid == t && y[Find(q, w)].pid == w;
    FindIs(y, Find(q, t));
    FindIs(y, Find(q, w));
  }

  lemma DispatchPays(q: seq<Pcb>, t: int, w: int, selections: nat)
    requires Paid(q, t, w, selections) && IsReady(q, w) && q[0].status == WAIT
    ensures Paid(Dispatch(q), t, w, selections) && TakesTurns(Dispatch(q), w)
  {
    var y := Dispatch(q);
    assert y[Find(q, t)].pid == t && y[Find(q, w)].pid == w;
    FindIs(y, Find(q, t));
    FindIs(y, Find(q, w));
  }

  lemma DispatchHas(q: seq<Pcb>, pid: int)
    requires q != [] && Has(Dispatch(q), pid)
    ensures Has(q, pid)
  {
    assert q[Find(Dispatch(q), pid)].pid == pid;
  }

  lemma SchedulePays(q: seq<Pcb>, t: int, w: int, selections: nat, sp: int)
    requires Paid(q, t, w, selections) && TakesTurns(q, w) && CanSchedule(q)
    ensures var r := Schedule(q, sp);
      if Has(r, t) then TakesTurns(r, w) && Paid(r, t, w, selections + (if r[0].pid == w then 1 else 0))
      else selections >= USEC_PER_SEC - 1
  {
    hide Paid, Walk, Yield, Dispatch, HasInit, Schedulable;
    YieldKeeps(q, sp);
    YieldPays(q, t, w, selections, sp);
    var y := Yield(q, sp);
    var v := Walk(y);
    WalkPays(y, t, w, selections);
    DispatchFirst(v);
    if Has(v, t) {
      DispatchPays(v, t, w, selections + (if v[0].pid == w then 1 else 0));
    }
    if Has(Dispatch(v), t) { DispatchHas(v, t); }
  }

  lemma DispatchFirst(q: seq<Pcb>)
    requires q != []
    ensures Dispatch(q) != [] && Dispatch(q)[0].pid == q[0].pid
  {
  }

  /** The same processes in the same places; `t` may only have had its wait start afresh. */
  lemma SamePlacesPay(q: seq<Pcb>, r: seq<Pcb>, t: int, w: int, selections: nat)
    requires Paid(q, t, w, selections) && TakesTurns(q, w)
    requires |r| == |q| && forall i :: 0 <= i < |q| ==> r[i].pid == q[i].pid
    requires r[Find(q, w)].status == q[Find(q, w)].status
    requires r[Find(q, t)].status == TERM
             && (r[Find(q, t)].waitTime == 1 || r[Find(q, t)].waitTime == q[Find(q, t)].waitTime)
    ensures Paid(r, t, w, selections) && TakesTurns(r, w)
  {
    FindIs(r, Find(q, t));
    FindIs(r, Find(q, w));
  }

  lemma InsertPlace(q: seq<Pcb>, p: Pcb, i: nat)
    requires Unique(q) && i < |q| && forall j :: 0 <= j < |q| ==> q[j].pid != p.pid
    ensures var r := [q[0], p] + q[1..];
      Unique(r) && Has(r, q[i].pid) && Find(r, q[i].pid) == (if i > 0 then i + 1 else 0) && r[Find(r, q[i].pid)] == q[i]
  {
    var r := [q[0], p] + q[1..];
    assert forall j :: 0 <= j < |r| ==> r[j] == if j == 0 then q[0] else if j == 1 then p else q[j - 1];
    FindIs(r, if i > 0 then i + 1 else 0);
  }

  /** One more process right behind the current one changes nothing between `t` and `w`. */
  lemma InsertPays(q: seq<Pcb>, p: Pcb, t: int, w: int, selections: nat)
    requires Paid(q, t, w, selections) && TakesTurns(q, w)
    requires forall i :: 0 <= i < |q| ==> q[i].pid != p.pid
    ensures Paid([q[0], p] + q[1..], t, w, selections) && TakesTurns([q[0], p] + q[1..], w)
  {
    hide Unique;
    InsertPlace(q, p, Find(q, t));
    InsertPlace(q, p, Find(q, w));
  }

  lemma AddPays(k: Kernel, op: Op, t: int, w: int, selections: nat)
    requires Good(k) && Legal(k, op) && op.AddOp? && k.procs != [] && k.procs[0].pid != t
    requires Paid(k.procs, t, w, selections) && TakesTurns(k.procs, w)
    ensures var r := Step(k, op).procs; Paid(r, t, w, selections) && TakesTurns(r, w)
  {
    hide Paid, TakesTurns, StacksOk, OneRuns;
    var q, r := k.procs, Step(k, op).procs;
    assert Paid(Reset(q), t, w, selections) && TakesTurns(Reset(q), w) by { ResetPays(q, t, w, selections); }
    if |r| > |q| {
      assert r == [Reset(q)[0], r[1]] + Reset(q)[1..];
      InsertPays(Reset(q), r[1], t, w, selections);
    }
  }

  lemma ResetPays(q: seq<Pcb>, t: int, w: int, selections: nat)
    requires Paid(q, t, w, selections) && TakesTurns(q, w) && q[0].pid != t
    ensures Paid(Reset(q), t, w, selections) && TakesTurns(Reset(q), w)
  {
    SamePlacesPay(q, Reset(q), t, w, selections);
  }

  lemma OthersPay(k: Kernel, op: Op, t: int, w: int, selections: nat)
    requires Good(k) && Legal(k, op) && !op.SchedOp? && LeavesAlone(k, op, t, w)
    requires Paid(k.procs, t, w, selections) && TakesTurns(k.procs, w)
    ensures var r := Step(k, op).procs; Paid(r, t, w, selections) && TakesTurns(r, w)
  {
    hide StacksOk, OneRuns, RingOk;
    if op.AddOp? {
      AddPays(k, op, t, w, selections);
    } else {
      SamePlacesPay(k.procs, Step(k, op).procs, t, w, selections);
    }
  }

  ghost predicate LeftAlone(k: Kernel, ops: seq<Op>, t: int, w: int)
    requires Good(k) && LegalRun(k, ops)
    decreases |ops|
  {
    ops == [] || (LeavesAlone(k, ops[0], t, w) && LeftAlone(Step(k, ops[0]), ops[1..], t, w))
  }

  lemma {:induction false} PaidInAdvance(k: Kernel, ops: seq<Op>, t: int, w: int, selections: nat)
    requires Good(k) && LegalRun(k, ops) && LeftAlone(k, ops, t, w)
    requires Paid(k.procs, t, w, selections) && TakesTurns(k.procs, w)
    ensures !Has(Run(k, ops).procs, t) ==> selections + Selections(k, ops, w) >= USEC_PER_SEC - 1
    decreases |ops|
  {
    hide Good, Schedulable, HasInit, Paid, TakesTurns;
    if ops == [] {
      assert Has(k.procs, t) by { PaidIsThere(k.procs, t, w, selections); }
    } else {
      var k' := Step(k, ops[0]);
      assert k.procs != [] by { PaidIsThere(k.procs, t, w, selections); }
      if ops[0].SchedOp? {
        SchedulePays(k.procs, t, w, selections, ops[0].sp);
        if Has(k'.procs, t) {
          PaidInAdvance(k', ops[1..], t, w, selections + (if k'.procs[0].pid == w then 1 else 0));
        }
      } else {
        OthersPay(k, ops[0], t, w, selections);
        PaidInAdvance(k', ops[1..], t, w, selections);
      }
    }
  }

  lemma PaidIsThere(q: seq<Pcb>, t: int, w: int, selections: nat)
    requires Paid(q, t, w, selections)
    ensures q != [] && Has(q, t)
  {
  }

  /** A terminated process that is waited for is still on the ring until the waiter, or any
      process that keeps taking its turns, has been selected 999,999 times. */
  lemma AwaitedSurvives(k: Kernel, ops: seq<Op>, t: int, w: int)
    requires Good(k) && LegalRun(k, ops) && LeftAlone(k, ops, t, w)
    requires t != w && Has(k.procs, t) && TakesTurns(k.procs, w)
    requires k.procs[Find(k.procs, t)].status == TERM && k.procs[Find(k.procs, t)].waitTime == 1
    requires Selections(k, ops, w) < USEC_PER_SEC - 1
    ensures Has(Run(k, ops).procs, t)
  {
    GoodIsUnique(k);
    PaidInAdvance(k, ops, t, w, 0);
  }
}
