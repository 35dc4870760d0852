/** How fast terminated processes that nobody waits for leave the ring. */
module ProcessReaping {
  import opened Arithmetic
  import opened ProcessRing
  import opened ProcessTable
  import opened ProcessRuns

  // ----- one scheduler call -----

  predicate IsDue(p: Pcb) { p.status == TERM && Due(p) }

  ghost predicate AllDue(q: seq<Pcb>) {
    forall p :: p in q ==> IsDue(p)
  }

  /** Passing over terminated processes nobody waits for removes every other one, the first
      included: half of them, rounded up. */
  lemma {:induction false} ReapHalves(dead: seq<Pcb>)
    requires AllDue(dead)
    ensures |Reap(dead)| == |dead| / 2 && AllDue(Reap(dead))
    ensures forall i :: 0 <= i < |Reap(dead)| ==> Reap(dead)[i] == dead[2 * i + 1]
  {
    if dead != [] { assert dead[0] in dead; }
    if |dead| >= 2 {
      assert forall p :: p in dead[2..] ==> p in dead;
      assert dead[1] in dead;
      ReapHalves(dead[2..]);
    }
  }

  /** One scheduler call that crosses `dead` to reach the ready process `w`. */
  lemma ScheduleReapsHalf(c: Pcb, dead: seq<Pcb>, w: Pcb, rest: seq<Pcb>, sp: int)
    requires AllDue(dead) && w.status == WAIT && CanSchedule([c] + dead + [w] + rest)
    ensures var r := Schedule([c] + dead + [w] + rest, sp);
      && r == Dispatch([w]) + rest + Yield([c], sp) + Reap(dead)
      && |r| == |rest| + 2 + |dead| / 2
  {
    hide Walk, Schedulable, HasInit, Reap;
    var q := [c] + dead + [w] + rest;
    var c' := Yield([c], sp)[0];
    YieldKeeps(q, sp);
    assert Yield(q, sp) == [c'] + dead + ([w] + rest);
    WalkApproaches(c', dead, [w] + rest);
    ReapHalves(dead);
    DispatchInFront(w, rest + [c'] + Reap(dead));
    assert [w] + (rest + [c'] + Reap(dead)) == [w] + rest + [c'] + Reap(dead);
  }

  lemma DispatchInFront(w: Pcb, others: seq<Pcb>)
    ensures Dispatch([w] + others) == Dispatch([w]) + others
  {
  }

  // ----- any ring, over any run -----

  /** How many processes wait to be removed. */
  function Dues(q: seq<Pcb>): nat {
    if q == [] then 0 else (if IsDue(q[0]) then 1 else 0) + Dues(q[1..])
  }

  /** No look at a terminated process that is waited for makes it due: none has its waiting
      time run out just now. */
  ghost predicate Settled(q: seq<Pcb>) {
    forall i :: 0 <= i < |q| && q[i].status == TERM ==> q[i].waitTime != USEC_PER_SEC - 1 && q[i].waitTime != -1
  }

  lemma {:induction false} DuesConcat(a: seq<Pcb>, b: seq<Pcb>)
    ensures Dues(a + b) == Dues(a) + Dues(b)
  {
    if a == [] {
      assert a + b == b;
    } else {
      assert (a + b)[0] == a[0] && (a + b)[1..] == a[1..] + b;
      DuesConcat(a[1..], b);
    }
  }

  /** Whatever else stands in between, passing over a stretch of the ring removes at least
      half of those that are due. */
  lemma {:induction false} ReapHalvesDues(s: seq<Pcb>)
    requires Settled(s)
    ensures 2 * Dues(Reap(s)) <= Dues(s)
  {
    if s == [] {
    } else if !IsDue(s[0]) {
      ReapHalvesDues(s[1..]);
    } else if |s| > 1 {
      assert s[1..][1..] == s[2..];
      ReapHalvesDues(s[2..]);
    }
  }

  /** `d` bounds the processes due, those the walk has passed since `w` was last selected
      counted twice: they lie behind `w`, and the current one is passed already. */
  ghost predicate Within(q: seq<Pcb>, w: int, d: nat) {
    var i := Find(q, w);
    i < |q| && (if i == 0 then Dues(q) else Dues(q[1..i]) + 2 * Dues([q[0]] + q[i + 1..])) <= d
  }

  lemma AroundIs(q: seq<Pcb>, i: nat)
    requires 0 < i < |q| && q[i].status != TERM
    ensures Dues(q) == Dues(q[1..i]) + Dues([q[0]] + q[i + 1..])
  {
    assert q == [q[0]] + q[1..i] + [q[i]] + q[i + 1..];
    DuesConcat([q[0]] + q[1..i] + [q[i]], q[i + 1..]);
    DuesConcat([q[0]] + q[1..i], [q[i]]);
    DuesConcat([q[0]], q[1..i]);
    DuesConcat([q[0]], q[i + 1..]);
  }

  lemma WithinBounds(q: seq<Pcb>, w: int, d: nat)
    requires TakesTurns(q, w) && Within(q, w, d)
    ensures Dues(q) <= d
  {
    if Find(q, w) > 0 { AroundIs(q, Find(q, w)); }
  }

  lemma {:induction false} SameDues(a: seq<Pcb>, b: seq<Pcb>)
    requires |a| == |b| && forall i :: 0 <= i < |a| ==> IsDue(b[i]) ==> IsDue(a[i])
    ensures Dues(b) <= Dues(a)
  {
    if a != [] { SameDues(a[1..], b[1..]); }
  }

  /** The walk reaches `w` itself: everything else has been passed. */
  lemma ReachesW(x: Pcb, ahead: seq<Pcb>, w: Pcb, behind: seq<Pcb>)
    requires Settled(ahead) && !IsDue(w)
    ensures 2 * Dues([w] + behind + [x] + Reap(ahead)) <= Dues(ahead) + 2 * Dues([x] + behind)
    ensures 2 * Dues([w] + Reap(ahead)) <= Dues(ahead)
  {
    hide Reap;
    ReapHalvesDues(ahead);
    DuesConcat([w] + behind + [x], Reap(ahead));
    DuesConcat([w] + behind, [x]);
    DuesConcat([w], behind);
    DuesConcat([x], behind);
    DuesConcat([w], Reap(ahead));
  }

  /** The walk stops at `c`, in front of `w`. */
  lemma StopsBeforeW(x: Pcb, ahead: seq<Pcb>, c: Pcb, between: seq<Pcb>, behind: seq<Pcb>)
    requires Settled(ahead) && !IsDue(c)
    ensures Dues(between) + 2 * Dues([c] + (behind + [x] + Reap(ahead))) <= Dues(ahead + [c] + between)
            + 2 * Dues([x] + behind)
    ensures Dues(between) + 2 * Dues([c] + Reap(ahead)) <= Dues(ahead + [c] + between)
  {
    hide Reap;
    ReapHalvesDues(ahead);
    DuesConcat(ahead + [c], between);
    DuesConcat(ahead, [c]);
    DuesConcat([c], behind + [x] + Reap(ahead));
    DuesConcat(behind + [x], Reap(ahead));
    DuesConcat(behind, [x]);
    DuesConcat([x], behind);
    DuesConcat([c], Reap(ahead));
  }

  /** The bound only depends on who is due, and on the place of `w`. */
  lemma WithinKept(q: seq<Pcb>, r: seq<Pcb>, w: int, d: nat)
    requires Within(q, w, d) && |r| == |q| && Find(r, w) == Find(q, w)
    requires forall i :: 0 <= i < |q| ==> IsDue(r[i]) ==> IsDue(q[i])
    ensures Within(r, w, d)
  {
    hide Dues;
    var i := Find(q, w);
    if i == 0 {
      SameDues(q, r);
    } else {
      SameDues(q[1..i], r[1..i]);
      SameDues([q[0]] + q[i + 1..], [r[0]] + r[i + 1..]);
    }
  }

  /** A ring cut open around index `j`. */
  lemma Pieces(tail: seq<Pcb>, x: Pcb, reaped: seq<Pcb>, j: nat)
    requires 0 < j <= |tail|
    ensures var r := tail + [x] + reaped;
            && r[0] == tail[0] && r[1..j] == tail[1..j]
            && r[j + 1..] == if j < |tail| then tail[j + 1..] + [x] + reaped else reaped
  {
  }

  lemma WalkFromW(q: seq<Pcb>, w: int, d: nat)
    requires IsReady(q, w) && Find(q, w) == 0 && Settled(q) && Within(q, w, d)
    requires Unique(q[Ahead(q)..] + [q[0]] + Reap(q[1..Ahead(q)]))
    ensures var r := q[Ahead(q)..] + [q[0]] + Reap(q[1..Ahead(q)]);
            Find(r, w) == |q| - Ahead(q) && Within(r, w, if r[0].pid == w then d / 2 else d)
  {
    hide Reap, Dues, Unique;
    var a := Ahead(q);
    var x, ahead := q[0], q[1..a];
    var r := q[a..] + [x] + Reap(ahead);
    var j := |q| - a;
    FindIs(r, j);
    if j == 0 {
      assert q[a..] == [] && ahead == q[1..];
      assert r == [x] + Reap(ahead) && q == [x] + ahead;
      DuesConcat([x], ahead);
      ReachesW(x, ahead, x, []);
    } else {
      assert r[1..j] == q[a + 1..] && r[0] == q[a] && r[j + 1..] == Reap(ahead) by {
        Pieces(q[a..], x, Reap(ahead), j);
      }
      assert q == [x] + (ahead + [q[a]] + q[a + 1..]);
      DuesConcat([x], ahead + [q[a]] + q[a + 1..]);
      StopsBeforeW(x, ahead, q[a], q[a + 1..], []);
    }
  }

  /** The walk passes `ahead` and stops at the head of `tail`, where `w` is at index `j`. */
  lemma StopsAtTail(x: Pcb, ahead: seq<Pcb>, tail: seq<Pcb>, j: nat, d: nat)
    requires Settled(ahead) && j < |tail| && !IsDue(tail[0]) && !IsDue(tail[j])
    requires Dues(ahead + tail[..j]) + 2 * Dues([x] + tail[j + 1..]) <= d
    ensures var r := tail + [x] + Reap(ahead);
            (if j == 0 then 2 * Dues(r) else Dues(r[1..j]) + 2 * Dues([r[0]] + r[j + 1..])) <= d
  {
    hide Reap, Dues;
    var r := tail + [x] + Reap(ahead);
    if j == 0 {
      assert ahead + tail[..0] == ahead && r == [tail[0]] + tail[1..] + [x] + Reap(ahead);
      ReachesW(x, ahead, tail[0], tail[1..]);
    } else {
      Pieces(tail, x, Reap(ahead), j);
      assert ahead + tail[..j] == ahead + [tail[0]] + tail[1..j];
      StopsBeforeW(x, ahead, tail[0], tail[1..j], tail[j + 1..]);
      assert j + 1 == |tail| ==> [] + [x] + Reap(ahead) == [x] + Reap(ahead);
    }
  }

  lemma WalkTowardsW(q: seq<Pcb>, w: int, d: nat)
    requires IsReady(q, w) && Find(q, w) > 0 && Settled(q) && Within(q, w, d)
    requires Unique(q[Ahead(q)..] + [q[0]] + Reap(q[1..Ahead(q)]))
    ensures var r := q[Ahead(q)..] + [q[0]] + Reap(q[1..Ahead(q)]);
            Find(r, w) == Find(q, w) - Ahead(q) && Within(r, w, if r[0].pid == w then d / 2 else d)
  {
    hide Reap, Dues, Unique;
    var i, a := Find(q, w), Ahead(q);
    var x, ahead, tail := q[0], q[1..a], q[a..];
    var r := tail + [x] + Reap(ahead);
    FindIs(r, i - a);
    assert q[1..i] == ahead + tail[..i - a] && q[i + 1..] == tail[i - a + 1..];
    StopsAtTail(x, ahead, tail, i - a, d);
  }

  /** The walk keeps the bound, and halves it when it reaches `w`. */
  lemma WalkHalves(q: seq<Pcb>, w: int, d: nat)
    requires Unique(q) && IsReady(q, w) && Settled(q) && HasInit(q) && Schedulable(q) && Within(q, w, d)
    requires Unique(Walk(q))
    ensures var r := Walk(q);
            IsReady(r, w) && Within(r, w, if r[0].pid == w then d / 2 else d)
  {
    hide HasInit, Schedulable, Walk, Reap, Within, Unique;
    WalkReaps(q);
    ReapHalvesDues(q[1..Ahead(q)]);
    if Find(q, w) == 0 { WalkFromW(q, w, d); } else { WalkTowardsW(q, w, d); }
  }

  /** A scheduler call keeps the bound, and halves it when it selects `w`. */
  lemma ScheduleHalves(q: seq<Pcb>, w: int, d: nat, sp: int)
    requires Unique(q) && TakesTurns(q, w) && Settled(q) && CanSchedule(q) && Within(q, w, d) && Unique(Schedule(q, sp))
    ensures var r := Schedule(q, sp);
            TakesTurns(r, w) && Within(r, w, if r[0].pid == w then d / 2 else d)
  {
    hide HasInit, Schedulable, Walk, Dues, Within;
    var y, i := Yield(q, sp), Find(q, w);
    YieldKeeps(q, sp);
    assert y[i].pid == w;
    FindIs(y, i);
    WithinKept(q, y, w, d);
    var v := Walk(y);
    assert Unique(v) by { assert forall j :: 0 <= j < |v| ==> v[j].pid == Dispatch(v)[j].pid; }
    WalkHalves(y, w, d);
    var r, j := Dispatch(v), Find(v, w);
    assert r[j].pid == w;
    FindIs(r, j);
    WithinKept(v, r, w, if v[0].pid == w then d / 2 else d);
  }

  /** The operation leaves `w` its turns and makes nobody due: nobody dies, no mark runs out,
      and a dead process that is waited for does not reset its own. */
  ghost predicate Spares(k: Kernel, op: Op, w: int) {
    match op
    case AddOp(status, _, _, _) =>
      status != TERM && (k.procs != [] && k.procs[0].status == TERM ==> Due(k.procs[0]))
    case KillOp(pid, status) => status != TERM && pid != w
    case AwaitOp(_) => true
    case SchedOp(_) => Settled(k.procs)
  }

  ghost predicate NobodyDies(k: Kernel, ops: seq<Op>, w: int)
    requires Good(k) && LegalRun(k, ops)
    decreases |ops|
  {
    ops == [] || (Spares(k, ops[0], w) && NobodyDies(Step(k, ops[0]), ops[1..], w))
  }

  /** Same places, nobody newly due, and `w` as it was. */
  lemma PlacesKept(q: seq<Pcb>, r: seq<Pcb>, w: int, d: nat)
    requires Unique(q) && TakesTurns(q, w) && Within(q, w, d)
    requires |r| == |q| && forall i :: 0 <= i < |q| ==> r[i].pid == q[i].pid
    requires forall i :: 0 <= i < |q| && IsDue(r[i]) ==> IsDue(q[i])
    requires r[Find(q, w)].status == q[Find(q, w)].status
    ensures TakesTurns(r, w) && Within(r, w, d)
  {
    FindIs(r, Find(q, w));
    WithinKept(q, r, w, d);
  }

  /** A process that is not terminated goes in behind the current one. */
  lemma InsertKeepsBound(q: seq<Pcb>, p: Pcb, w: int, d: nat)
    requires Unique(q) && TakesTurns(q, w) && Within(q, w, d) && p.status != TERM
    requires forall i :: 0 <= i < |q| ==> q[i].pid != p.pid
    ensures var r := [q[0], p] + q[1..]; TakesTurns(r, w) && Within(r, w, d)
  {
    hide Dues;
    var r, i := [q[0], p] + q[1..], Find(q, w);
    InsertPlace(q, p, i);
    DuesConcat([q[0], p], q[1..]);
    DuesConcat([q[0]], [p]);
    DuesConcat([q[0]], q[1..]);
    DuesOfOne(p);
    assert q == [q[0]] + q[1..] && [q[0], p] == [q[0]] + [p];
    if i > 0 {
      assert r[1..i + 1] == [p] + q[1..i] && r[i + 2..] == q[i + 1..];
      DuesConcat([p], q[1..i]);
    }
  }

  lemma DuesOfOne(p: Pcb)
    ensures Dues([p]) == if IsDue(p) then 1 else 0
  {
  }

  lemma AddKeepsBound(k: Kernel, op: Op, w: int, d: nat)
    requires Good(k) && Legal(k, op) && op.AddOp? && Spares(k, op, w)
    requires TakesTurns(k.procs, w) && Within(k.procs, w, d)
    ensures var r := Step(k, op).procs; TakesTurns(r, w) && Within(r, w, d)
  {
    hide Dues, Within;
    var q := k.procs;
    GoodIsUnique(k);
    if op.memory {
      PlacesKept(q, Reset(q), w, d);
      if SlotFor(k.stacks) < NBMAX_PROC { InsertKeepsBound(Reset(q), Step(k, op).procs[1], w, d); }
    }
  }

  lemma OthersKeepBound(k: Kernel, op: Op, w: int, d: nat)
    requires Good(k) && Legal(k, op) && !op.SchedOp? && Spares(k, op, w)
    requires TakesTurns(k.procs, w) && Within(k.procs, w, d)
    ensures var r := Step(k, op).procs; TakesTurns(r, w) && Within(r, w, d)
  {
    hide Dues, Within, Add, Good;
    GoodIsUnique(k);
    match op
    case AddOp(status, memory, sp, junk) => AddKeepsBound(k, op, w, d);
    case KillOp(pid, status) => PlacesKept(k.procs, Kill(k.procs, pid, status), w, d);
    case AwaitOp(pid) => PlacesKept(k.procs, Await(k.procs, pid), w, d);
  }

  lemma HalfOf(x: nat, p: nat, d: nat)
    requires x * p <= d / 2
    ensures x * (2 * p) <= d
  {
    assert x * (2 * p) == 2 * (x * p);
  }

  lemma {:induction false} BoundHalves(k: Kernel, ops: seq<Op>, w: int, d: nat)
    requires Good(k) && LegalRun(k, ops) && NobodyDies(k, ops, w)
    requires TakesTurns(k.procs, w) && Within(k.procs, w, d)
    ensures Dues(Run(k, ops).procs) * Pow2(Selections(k, ops, w)) <= d
    decreases |ops|
  {
    hide Good, Dues, Within, TakesTurns, Settled, CanSchedule;
    if ops == [] {
      WithinBounds(k.procs, w, d);
    } else {
      var k' := Step(k, ops[0]);
      GoodIsUnique(k);
      GoodIsUnique(k');
      assert k.procs != [] by { WithinBounds(k.procs, w, d); TurnsExist(k.procs, w); }
      if ops[0].SchedOp? {
        ScheduleHalves(k.procs, w, d, ops[0].sp);
        var selected := k'.procs[0].pid == w;
        BoundHalves(k', ops[1..], w, if selected then d / 2 else d);
        if selected { HalfOf(Dues(Run(k, ops).procs), Pow2(Selections(k', ops[1..], w)), d); }
      } else {
        OthersKeepBound(k, ops[0], w, d);
        BoundHalves(k', ops[1..], w, d);
      }
    }
  }

  lemma TurnsExist(q: seq<Pcb>, w: int)
    requires TakesTurns(q, w)
    ensures q != []
  {
  }

  /** Whatever the ring looks like, the processes due halve, at least, with every return of a
      process `w` that keeps taking its turns, while nobody else dies: from one of its turns
      on, `n` more leave at most 1/2^n of them, and from anywhere else one turn more is
      needed. */
  lemma ReturnsHalveDead(k: Kernel, ops: seq<Op>, w: int)
    requires Good(k) && LegalRun(k, ops) && NobodyDies(k, ops, w)
    requires TakesTurns(k.procs, w)
    ensures var left, n := Dues(Run(k, ops).procs), Selections(k, ops, w);
            && left * Pow2(n) <= 2 * Dues(k.procs)
            && (k.procs[0].pid == w ==> left * Pow2(n) <= Dues(k.procs))
  {
    hide Good, Dues;
    var q, i := k.procs, Find(k.procs, w);
    if i > 0 {
      AroundIs(q, i);
      assert q[0].pid != w;
      BoundHalves(k, ops, w, 2 * Dues(q));
    } else {
      BoundHalves(k, ops, w, Dues(q));
    }
  }

  /** So all of them go in the end. */
  lemma LapsReapAll(k: Kernel, ops: seq<Op>, w: int)
    requires Good(k) && LegalRun(k, ops) && NobodyDies(k, ops, w)
    requires TakesTurns(k.procs, w)
    requires (if k.procs[0].pid == w then Dues(k.procs) else 2 * Dues(k.procs)) < Pow2(Selections(k, ops, w))
    ensures forall p :: p in Run(k, ops).procs ==> !IsDue(p)
  {
    hide Good, NobodyDies;
    ReturnsHalveDead(k, ops, w);
    var r := Run(k, ops).procs;
    AtLeastOnce(Dues(r), Pow2(Selections(k, ops, w)));
    NobodyDue(r);
  }

  lemma AtLeastOnce(x: nat, p: nat)
    ensures x > 0 ==> x * p >= p
  {
    if x > 0 { assert x * p == p + (x - 1) * p; }
  }

  lemma {:induction false} NobodyDue(q: seq<Pcb>)
    requires Dues(q) == 0
    ensures forall p :: p in q ==> !IsDue(p)
  {
    if q != [] { NobodyDue(q[1..]); }
  }

  // ----- a process that is never removed -----

  /** Terminated with a waiting time past the limit, as when its memory held a large number
      there from the start. */
  ghost predicate Stuck(q: seq<Pcb>, t: int) {
    Has(q, t) && q[Find(q, t)].status == TERM && q[Find(q, t)].waitTime > USEC_PER_SEC
  }

  lemma TickKeepsStuck(q: seq<Pcb>, t: int)
    requires Unique(q) && HasInit(q) && Stuck(q, t)
    ensures Unique(Tick(q)) && Stuck(Tick(q), t)
  {
    TickPlace(q, Find(q, t));
    TickKeepsInit(q);
  }

  lemma {:induction false} WalkKeepsStuck(q: seq<Pcb>, t: int)
    requires Unique(q) && HasInit(q) && Schedulable(q) && Stuck(q, t)
    ensures Unique(Walk(q)) && Stuck(Walk(q), t)
    decreases if HasWait(q) then 0 else 1, if HasWait(q) then Ahead(q) else Looks(q),
              if |q| >= 2 && Stays(q[1]) then 1 else 0
  {
    TickKeepsStuck(q, t);
    if Tick(q)[0].status != WAIT {
      TickKeepsInit(q);
      TickKeepsSchedulable(q);
      WalkProgress(q);
      WalkKeepsStuck(Tick(q), t);
    }
  }

  lemma SamePlacesStuck(q: seq<Pcb>, r: seq<Pcb>, t: int)
    requires Unique(q) && Stuck(q, t) && |r| == |q| && forall i :: 0 <= i < |q| ==> r[i].pid == q[i].pid
    requires r[Find(q, t)].status == TERM && r[Find(q, t)].waitTime == q[Find(q, t)].waitTime
    ensures Unique(r) && Stuck(r, t)
  {
    FindIs(r, Find(q, t));
  }

  lemma ScheduleKeepsStuck(q: seq<Pcb>, t: int, sp: int)
    requires Unique(q) && CanSchedule(q) && Stuck(q, t)
    ensures Stuck(Schedule(q, sp), t)
  {
    hide Walk, HasInit, Schedulable, Stuck;
    YieldKeeps(q, sp);
    var y := Yield(q, sp);
    SamePlacesStuck(q, y, t) by { StuckIs(q, t); }
    WalkKeepsStuck(y, t);
    var v := Walk(y);
    StuckIs(v, t);
    SamePlacesStuck(v, Dispatch(v), t);
  }

  lemma StuckIs(q: seq<Pcb>, t: int)
    requires Stuck(q, t)
    ensures Find(q, t) < |q| && q[Find(q, t)].status == TERM
  {
  }

  /** Nobody else changes the status or the mark of `t`, and `t` does not reset its own. */
  ghost predicate LeavesStuck(k: Kernel, op: Op, t: int) {
    && (op.KillOp? || op.AwaitOp? ==> op.pid != t)
    && (op.AddOp? && k.procs != [] ==> k.procs[0].pid != t)
  }

  ghost predicate LeftStuck(k: Kernel, ops: seq<Op>, t: int)
    requires Good(k) && LegalRun(k, ops)
    decreases |ops|
  {
    ops == [] || (LeavesStuck(k, ops[0], t) && LeftStuck(Step(k, ops[0]), ops[1..], t))
  }

  lemma OthersKeepStuck(k: Kernel, op: Op, t: int)
    requires Good(k) && Legal(k, op) && !op.SchedOp? && LeavesStuck(k, op, t) && Stuck(k.procs, t)
    ensures Stuck(Step(k, op).procs, t)
  {
    hide StacksOk, OneRuns, RingOk;
    var q, r := k.procs, Step(k, op).procs;
    GoodIsUnique(k);
    match op
    case AddOp(status, memory, sp, junk) =>
      if memory {
        SamePlacesStuck(q, Reset(q), t);
        if SlotFor(k.stacks) < NBMAX_PROC { NewPidIsNew(k); InsertPlace(Reset(q), r[1], Find(Reset(q), t)); }
      }
    case KillOp(pid, status) => SamePlacesStuck(q, r, t);
    case AwaitOp(pid) => SamePlacesStuck(q, r, t);
  }

  lemma NewPidIsNew(k: Kernel)
    requires Good(k)
    ensures forall i :: 0 <= i < |k.procs| ==> k.procs[i].pid != k.nextPid
  {
  }

  /** Over any run that leaves it alone such a process stays on the ring, terminated: nothing
      ever removes it. */
  lemma {:induction false} StuckForEver(k: Kernel, ops: seq<Op>, t: int)
    requires Good(k) && LegalRun(k, ops) && LeftStuck(k, ops, t) && Stuck(k.procs, t)
    ensures Stuck(Run(k, ops).procs, t)
    decreases |ops|
  {
    hide Good, Stuck, CanSchedule, LeavesStuck;
    if ops != [] {
      GoodIsUnique(k);
      if ops[0].SchedOp? {
        if k.procs != [] { ScheduleKeepsStuck(k.procs, t, ops[0].sp); }
      } else {
        OthersKeepStuck(k, ops[0], t);
      }
      StuckForEver(Step(k, ops[0]), ops[1..], t);
    }
  }

  /** A new process that is terminated is never removed if and only if its memory held more
      than the limit where its waiting time lies. */
  lemma BornStuckIff(k: Kernel, status: Status, sp: int, junk: Junk)
    requires Good(k) && Add(k, status, true, sp, junk).1 != -1
    ensures var (k', pid) := Add(k, status, true, sp, junk);
            Stuck(Kill(k'.procs, pid, TERM), pid) <==> junk.waitTime > USEC_PER_SEC
  {
    AddMarksTheWrongProcess(k, status, true, sp, junk);
    var (k', pid) := Add(k, status, true, sp, junk);
    var i := Find(k'.procs, pid);
    var r := Kill(k'.procs, pid, TERM);
    assert forall j :: 0 <= j < i ==> r[j].pid != pid;
    assert r[i].pid == pid;
  }
}
