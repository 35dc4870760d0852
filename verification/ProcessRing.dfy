/** The process ring as a sequence that starts at the current process, and one call of
    the round-robin scheduler on it. The scheduler walks the ring looking for a process
    to run and, as it goes, removes or ages the terminated processes it looks at. */
module ProcessRing {

  const USEC_PER_SEC := 1_000_000

  datatype Status = RUN | WAIT | ZOMBIE | TERM | SLEEP

  datatype Pcb = Pcb(pid: int, ppid: int, status: Status, runCount: int, slot: int, sp: int, retval: int, waitTime: int)

  // ----- one step of the walk -----

  /** The terminated process just ahead of the current one is removed if nobody waits for
      it, or its waiting time is up; otherwise its waiting time goes up by one. Removing
      the last but one process makes the remaining one ready. */
  function Examine(q: seq<Pcb>): seq<Pcb> {
    if |q| < 2 || q[1].status != TERM then q
    else if Due(q[1]) then (if |q| == 2 then [q[0].(status := WAIT)] else [q[0]] + q[2..])
    else q[1 := Aged(q[1])]
  }

  predicate Due(p: Pcb) { p.waitTime == 0 || p.waitTime == USEC_PER_SEC }

  function Aged(p: Pcb): Pcb { p.(waitTime := p.waitTime + 1) }

  function Rotate(q: seq<Pcb>): seq<Pcb>
    requires q != []
  {
    q[1..] + [q[0]]
  }

  function Tick(q: seq<Pcb>): (r: seq<Pcb>)
    requires q != []
    ensures r != []
  {
    Rotate(Examine(q))
  }

  function Ticks(q: seq<Pcb>, k: nat): (r: seq<Pcb>)
    requires q != []
    ensures r != []
    decreases k
  {
    if k == 0 then q else Ticks(Tick(q), k - 1)
  }

  // ----- which walks come to an end -----

  ghost predicate HasWait(q: seq<Pcb>) {
    exists i :: 0 <= i < |q| && q[i].status == WAIT
  }

  /** A process the walk will never remove: not terminated, or terminated with a waiting
      time already past the limit. */
  predicate Stays(p: Pcb) { p.status != TERM || p.waitTime > USEC_PER_SEC }

  function Stayers(q: seq<Pcb>): nat {
    if q == [] then 0 else (if Stays(q[0]) then 1 else 0) + Stayers(q[1..])
  }

  /** Process 1 is there and is not terminated. */
  ghost predicate HasInit(q: seq<Pcb>) {
    exists i :: 0 <= i < |q| && q[i].pid == 1 && q[i].status != TERM
  }

  /** Some process is ready, or all processes but one will be removed in time. */
  ghost predicate Schedulable(q: seq<Pcb>) {
    HasWait(q) || (|q| >= 2 && Stayers(q) == 1)
  }

  lemma {:induction false} StayersConcat(a: seq<Pcb>, b: seq<Pcb>)
    ensures Stayers(a + b) == Stayers(a) + Stayers(b)
  {
    if a == [] {
      assert a + b == b;
    } else {
      assert (a + b)[1..] == a[1..] + b;
      StayersConcat(a[1..], b);
    }
  }

  lemma {:induction false} StayerCounts(q: seq<Pcb>, i: nat)
    requires i < |q| && Stays(q[i])
    ensures Stayers(q) >= 1
    ensures forall j :: 0 <= j < |q| && j != i && Stays(q[j]) ==> Stayers(q) >= 2
  {
    if i > 0 {
      StayerCounts(q[1..], i - 1);
      forall j | 0 <= j < |q| && j != i && Stays(q[j]) ensures Stayers(q) >= 2 {
        if j > 0 { assert q[j] == q[1..][j - 1]; }
      }
    } else {
      forall j | 0 < j < |q| && Stays(q[j]) ensures Stayers(q) >= 2 { StayerCounts(q[1..], j - 1); }
    }
  }

  lemma StayersRotate(q: seq<Pcb>)
    requires q != []
    ensures Stayers(Rotate(q)) == Stayers(q)
  {
    StayersConcat(q[1..], [q[0]]);
    StayersConcat([q[0]], q[1..]);
    assert [q[0]] + q[1..] == q;
  }

  /** A step never changes the number of processes that are there to stay. */
  lemma TickKeepsStayers(q: seq<Pcb>)
    requires HasInit(q)
    ensures Stayers(Tick(q)) == Stayers(q)
  {
    var e := Examine(q);
    StayersRotate(e);
    if |q| >= 2 && q[1].status == TERM {
      assert q == [q[0]] + [q[1]] + q[2..];
      StayersConcat([q[0]] + [q[1]], q[2..]);
      StayersConcat([q[0]], [q[1]]);
      StayersConcat([q[0]], q[2..]);
      if |q| > 2 && !Due(q[1]) {
        assert e == [q[0]] + [e[1]] + q[2..];
        StayersConcat([q[0]] + [e[1]], q[2..]);
        StayersConcat([q[0]], [e[1]]);
      }
    }
  }

  lemma TickKeepsInit(q: seq<Pcb>)
    requires HasInit(q)
    ensures HasInit(Tick(q))
  {
    var i :| 0 <= i < |q| && q[i].pid == 1 && q[i].status != TERM;
    var e := Examine(q);
    var j := if |e| < |q| && i > 1 then i - 1 else i;
    assert e[j].pid == 1 && e[j].status != TERM;
    assert Tick(q)[if j == 0 then |e| - 1 else j - 1] == e[j];
  }

  lemma WaitRotates(q: seq<Pcb>)
    requires q != []
    ensures HasWait(Rotate(q)) <==> HasWait(q)
  {
    if HasWait(q) {
      var i :| 0 <= i < |q| && q[i].status == WAIT;
      assert Rotate(q)[if i == 0 then |q| - 1 else i - 1] == q[i];
    }
    if HasWait(Rotate(q)) {
      var i :| 0 <= i < |q| && Rotate(q)[i].status == WAIT;
      assert q[if i == |q| - 1 then 0 else i + 1] == Rotate(q)[i];
    }
  }

  /** A step never makes a process unready, and makes one ready only by leaving it alone
      on the ring. */
  lemma TickKeepsWait(q: seq<Pcb>)
    requires q != []
    ensures HasWait(q) ==> HasWait(Tick(q))
    ensures !HasWait(q) && HasWait(Tick(q)) ==> |Tick(q)| == 1 && |q| == 2 && !Stays(q[1])
  {
    var e := Examine(q);
    WaitRotates(e);
    if HasWait(q) {
      var i :| 0 <= i < |q| && q[i].status == WAIT;
      assert e[if |e| < |q| && i > 1 then i - 1 else i].status == WAIT;
    }
  }

  /** A step keeps the question whether the walk ends as it was, or ends it. */
  lemma TickKeepsSchedulable(q: seq<Pcb>)
    requires HasInit(q)
    ensures Schedulable(q) <==> Schedulable(Tick(q)) || Tick(q)[0].status == WAIT
  {
    TickKeepsWait(q);
    TickKeepsStayers(q);
    var init :| 0 <= init < |q| && q[init].pid == 1 && q[init].status != TERM;
    StayerCounts(q, init);
    if |q| == 2 && |Tick(q)| == 1 { assert init == 0; }
  }

  // ----- how long the walk can take -----

  /** Steps from the current process to the first ready one ahead; the whole ring if only
      the current one is ready. */
  function Ahead(q: seq<Pcb>): (d: nat)
    requires q != []
    ensures 1 <= d <= |q|
    ensures d < |q| ==> q[d].status == WAIT
    ensures forall i :: 1 <= i < d ==> q[i].status != WAIT
  {
    AheadFrom(q, 1)
  }

  function AheadFrom(q: seq<Pcb>, i: nat): (d: nat)
    requires 1 <= i <= |q|
    ensures i <= d <= |q|
    ensures d < |q| ==> q[d].status == WAIT
    ensures forall j :: i <= j < d ==> q[j].status != WAIT
    decreases |q| - i
  {
    if i == |q| || q[i].status == WAIT then i else AheadFrom(q, i + 1)
  }

  /** How often the processes that are not there to stay can still be looked at. */
  function Looks(q: seq<Pcb>): nat {
    if q == [] then 0 else (if Stays(q[0]) then 0 else USEC_PER_SEC + 1 - q[0].waitTime) + Looks(q[1..])
  }

  lemma {:induction false} LooksConcat(a: seq<Pcb>, b: seq<Pcb>)
    ensures Looks(a + b) == Looks(a) + Looks(b)
  {
    if a == [] {
      assert a + b == b;
    } else {
      assert (a + b)[1..] == a[1..] + b;
      LooksConcat(a[1..], b);
    }
  }

  lemma LooksParts(a: Pcb, b: Pcb, c: seq<Pcb>)
    ensures Looks([a, b] + c) == Looks([a]) + Looks([b]) + Looks(c)
    ensures Looks([a] + c) == Looks([a]) + Looks(c)
    ensures forall p: Pcb :: Looks([p]) == if Stays(p) then 0 else USEC_PER_SEC + 1 - p.waitTime
  {
    LooksConcat([a, b], c);
    LooksConcat([a], [b]);
    LooksConcat([a], c);
    assert [a, b] == [a] + [b];
  }

  lemma LooksRotate(q: seq<Pcb>)
    requires q != []
    ensures Looks(Rotate(q)) == Looks(q)
  {
    LooksConcat(q[1..], [q[0]]);
    LooksConcat([q[0]], q[1..]);
    assert [q[0]] + q[1..] == q;
  }

  /** Passing a process that stays costs nothing; looking at any other uses up a look. */
  lemma TickLooks(q: seq<Pcb>)
    requires |q| >= 2 && HasInit(q)
    ensures Stays(q[1]) ==> Looks(Tick(q)) == Looks(q)
    ensures !Stays(q[1]) ==> Looks(Tick(q)) < Looks(q)
  {
    hide Looks, Rotate;
    var a, b, c := q[0], q[1], q[2..];
    LooksRotate(Examine(q));
    assert q == [a, b] + c;
    LooksParts(a, b, c);
    if b.status == TERM && Due(b) {
      if c == [] {
        assert a.status != TERM;
        LooksParts(a.(status := WAIT), b, []);
        assert Examine(q) == [a.(status := WAIT)] + [];
      }
    } else if b.status == TERM {
      assert Examine(q) == [a, Aged(b)] + c;
      LooksParts(a, Aged(b), c);
    }
  }

  lemma TickAhead(q: seq<Pcb>)
    requires q != [] && HasWait(q) && Tick(q)[0].status != WAIT
    ensures HasWait(Tick(q)) && Ahead(Tick(q)) < Ahead(q)
  {
    TickKeepsWait(q);
    var d, r := Ahead(q), Tick(q);
    if d == |q| {
      assert q[0].status == WAIT;
      assert r[|r| - 1] == Examine(q)[0];
      assert Examine(q)[0].status == WAIT;
    } else {
      var e := if |Examine(q)| < |q| then d - 2 else d - 1;
      assert r[e].status == WAIT;
    }
  }

  // ----- the walk -----

  /** Step until the current process is ready. */
  function Walk(q: seq<Pcb>): (r: seq<Pcb>)
    requires HasInit(q) && Schedulable(q)
    ensures r != [] && HasInit(r) && r[0].status == WAIT
    decreases if HasWait(q) then 0 else 1, if HasWait(q) then Ahead(q) else Looks(q),
              if |q| >= 2 && Stays(q[1]) then 1 else 0
  {
    var r := Tick(q);
    TickKeepsInit(q);
    if r[0].status == WAIT then r
    else
      TickKeepsSchedulable(q);
      WalkProgress(q);
      Walk(r)
  }

  lemma WalkProgress(q: seq<Pcb>)
    requires HasInit(q) && Schedulable(q) && Tick(q)[0].status != WAIT
    ensures HasWait(q) ==> HasWait(Tick(q)) && Ahead(Tick(q)) < Ahead(q)
    ensures !HasWait(q) && !HasWait(Tick(q)) ==>
              |q| >= 2 && |Tick(q)| >= 2 &&
              (Looks(Tick(q)) < Looks(q) || (Looks(Tick(q)) == Looks(q) && Stays(q[1]) && !Stays(Tick(q)[1])))
  {
    if HasWait(q) {
      TickAhead(q);
    } else if !HasWait(Tick(q)) {
      TickLooks(q);
      TickKeepsSchedulable(q);
      if Stays(q[1]) {
        StayerCounts(q, 1);
        assert Tick(q)[1] == if |q| > 2 then q[2] else q[0];
      }
    }
  }

  lemma {:induction false} WalkIsTicks(q: seq<Pcb>) returns (k: nat)
    requires HasInit(q) && Schedulable(q)
    ensures k >= 1 && Ticks(q, k) == Walk(q)
    ensures forall j :: 1 <= j < k ==> Ticks(q, j)[0].status != WAIT
    decreases if HasWait(q) then 0 else 1, if HasWait(q) then Ahead(q) else Looks(q),
              if |q| >= 2 && Stays(q[1]) then 1 else 0
  {
    hide Examine, Tick, Rotate, HasInit;
    var r := Tick(q);
    assert Ticks(q, 1) == Ticks(r, 0);
    if r[0].status == WAIT {
      k := 1;
    } else {
      TickKeepsInit(q);
      TickKeepsSchedulable(q);
      WalkProgress(q);
      var k' := WalkIsTicks(r);
      k := k' + 1;
      forall j | 1 <= j < k ensures Ticks(q, j)[0].status != WAIT {
        assert Ticks(q, j) == Ticks(r, j - 1);
      }
    }
  }

  lemma {:induction false} UnschedulableNeverStops(q: seq<Pcb>, k: nat)
    requires HasInit(q) && !Schedulable(q) && k >= 1
    ensures Ticks(q, k)[0].status != WAIT
    decreases k
  {
    TickKeepsSchedulable(q);
    TickKeepsInit(q);
    if k > 1 { UnschedulableNeverStops(Tick(q), k - 1); }
  }

  /** The scheduler's loop comes to an end if and only if some process is ready, or the
      ring has other processes and all but one of them will be removed. */
  lemma WalkEndsIff(q: seq<Pcb>)
    requires HasInit(q)
    ensures (exists k: nat :: k >= 1 && Ticks(q, k)[0].status == WAIT) <==> Schedulable(q)
  {
    if Schedulable(q) {
      var k := WalkIsTicks(q);
      assert Ticks(q, k)[0].status == WAIT;
    } else {
      forall k: nat | k >= 1 ensures Ticks(q, k)[0].status != WAIT { UnschedulableNeverStops(q, k); }
    }
  }

  // ----- what the walk does, in one go -----

  /** What is left of the processes passed over: after a removal the next one is stepped
      onto without being looked at. */
  function Reap(ahead: seq<Pcb>): seq<Pcb> {
    if ahead == [] then []
    else if ahead[0].status != TERM then [ahead[0]] + Reap(ahead[1..])
    else if !Due(ahead[0]) then [Aged(ahead[0])] + Reap(ahead[1..])
    else if |ahead| == 1 then []
    else [ahead[1]] + Reap(ahead[2..])
  }

  /** The ring [c] + ahead + tail, whose first ready process ahead of `c` heads `tail`, or is
      `c` itself when there is no `tail`. */
  ghost predicate Approach(c: Pcb, ahead: seq<Pcb>, tail: seq<Pcb>) {
    && (forall p :: p in ahead ==> p.status != WAIT)
    && (if tail == [] then c else tail[0]).status == WAIT
  }

  lemma ReapStep(x: Pcb, rest: seq<Pcb>)
    ensures Reap([]) == [] && Reap([x] + rest) ==
      (if x.status != TERM then [x] + Reap(rest)
       else if !Due(x) then [Aged(x)] + Reap(rest)
       else if rest == [] then []
       else [rest[0]] + Reap(rest[1..]))
  {
    assert ([x] + rest)[1..] == rest && (|rest| > 0 ==> ([x] + rest)[2..] == rest[1..]);
  }

  lemma TickMeets(c: Pcb, x: Pcb, rest: seq<Pcb>)
    ensures x.status != TERM ==> Tick([c, x] + rest) == [x] + rest + [c]
    ensures x.status == TERM && !Due(x) ==> Tick([c, x] + rest) == [Aged(x)] + rest + [c]
    ensures x.status == TERM && Due(x) && rest != [] ==> Tick([c, x] + rest) == rest + [c]
    ensures x.status == TERM && Due(x) && rest == [] ==> Tick([c, x] + rest) == [c.(status := WAIT)]
  {
    var q := [c, x] + rest;
    assert q[2..] == rest && q[1..] == [x] + rest;
    if x.status == TERM && !Due(x) { assert Examine(q)[1..] == [Aged(x)] + rest; }
  }

  lemma WalkStep(q: seq<Pcb>)
    requires HasInit(q) && HasWait(q)
    ensures Schedulable(q) && HasInit(Tick(q)) && HasWait(Tick(q)) && Schedulable(Tick(q))
    ensures Walk(q) == if Tick(q)[0].status == WAIT then Tick(q) else Walk(Tick(q))
  {
    TickKeepsInit(q);
    TickKeepsWait(q);
  }

  lemma ApproachHasWait(c: Pcb, ahead: seq<Pcb>, tail: seq<Pcb>)
    requires Approach(c, ahead, tail)
    ensures HasWait([c] + ahead + tail)
  {
    assert ([c] + ahead + tail)[if tail == [] then 0 else |ahead| + 1].status == WAIT;
  }

  /** Nothing left to pass: one step reaches the goal, unless the last process passed was
      removed on the way. */
  lemma ApproachEnds(c: Pcb, ahead: seq<Pcb>, tail: seq<Pcb>)
    requires Approach(c, ahead, tail) && HasInit([c] + ahead + tail)
    requires ahead == [] || (|ahead| == 1 && ahead[0].status == TERM && Due(ahead[0]))
    ensures HasWait([c] + ahead + tail) && Walk([c] + ahead + tail) == tail + [c]
  {
    hide Tick, Examine, Walk, HasInit, HasWait, Reap, Ahead, Stayers;
    var q := [c] + ahead + tail;
    ApproachHasWait(c, ahead, tail);
    WalkStep(q);
    if ahead != [] {
      assert q == [c, ahead[0]] + tail;
      TickMeets(c, ahead[0], tail);
    } else if tail == [] {
      assert q == [c];
      TickAlone(c);
    } else {
      assert q == [c, tail[0]] + tail[1..];
      TickMeets(c, tail[0], tail[1..]);
      assert [tail[0]] + tail[1..] == tail;
    }
  }

  /** Nearer to the goal, whoever has become the current process. */
  lemma ApproachNearer(c: Pcb, ahead: seq<Pcb>, tail: seq<Pcb>, k: nat, c': Pcb)
    requires Approach(c, ahead, tail) && k <= |ahead|
    ensures Approach(c', ahead[k..], tail + [c])
    ensures forall i :: 0 <= i < |ahead| ==> ahead[i].status != WAIT
  {
  }

  /** One process ahead is passed, older if it is dead. */
  lemma PassesOne(c: Pcb, x: Pcb, rest: seq<Pcb>, tail: seq<Pcb>) returns (x': Pcb)
    requires Approach(c, [x] + rest, tail) && HasInit([c] + ([x] + rest) + tail)
    requires !(x.status == TERM && Due(x))
    ensures var q, q' := [c] + ([x] + rest) + tail, [x'] + rest + (tail + [c]);
            && HasWait(q) && HasWait(q') && HasInit(q') && Schedulable(q) && Schedulable(q') && Walk(q) == Walk(q')
    ensures Approach(x', rest, tail + [c]) && Reap([x] + rest) == [x'] + Reap(rest)
  {
    hide Tick, Examine, Walk, HasInit, HasWait, Reap, Ahead, Stayers, Approach, Schedulable;
    var q := [c] + ([x] + rest) + tail;
    ReapStep(x, rest);
    ApproachHasWait(c, [x] + rest, tail);
    WalkStep(q);
    assert q == [c, x] + (rest + tail);
    TickMeets(c, x, rest + tail);
    x' := if x.status == TERM then Aged(x) else x;
    assert [x'] + (rest + tail) + [c] == [x'] + rest + (tail + [c]);
    ApproachNearer(c, [x] + rest, tail, 1, x');
    assert ([x] + rest)[0] == x && ([x] + rest)[1..] == rest;
  }

  /** One is removed, and the next stepped onto. */
  lemma PassesTwo(c: Pcb, x: Pcb, y: Pcb, rest: seq<Pcb>, tail: seq<Pcb>)
    requires Approach(c, [x, y] + rest, tail) && HasInit([c] + ([x, y] + rest) + tail)
    requires x.status == TERM && Due(x)
    ensures var q, q' := [c] + ([x, y] + rest) + tail, [y] + rest + (tail + [c]);
            && HasWait(q) && HasWait(q') && HasInit(q') && Schedulable(q) && Schedulable(q') && Walk(q) == Walk(q')
    ensures Approach(y, rest, tail + [c]) && Reap([x, y] + rest) == [y] + Reap(rest)
  {
    hide Tick, Examine, Walk, HasInit, HasWait, Reap, Ahead, Stayers, Approach, Schedulable;
    var q := [c] + ([x, y] + rest) + tail;
    assert [x, y] + rest == [x] + ([y] + rest);
    ReapStep(x, [y] + rest);
    ApproachHasWait(c, [x, y] + rest, tail);
    WalkStep(q);
    assert q == [c, x] + ([y] + rest + tail);
    TickMeets(c, x, [y] + rest + tail);
    assert [y] + rest + tail + [c] == [y] + rest + (tail + [c]);
    ApproachNearer(c, [x, y] + rest, tail, 2, y);
    assert ([x, y] + rest)[1] == y && ([x, y] + rest)[2..] == rest && ([y] + rest)[0] == y && ([y] + rest)[1..] == rest;
  }

  lemma Regroup(tail: seq<Pcb>, c: Pcb, x: Pcb, reaped: seq<Pcb>)
    ensures (tail + [c]) + [x] + reaped == tail + [c] + ([x] + reaped)
  {
  }

  /** The processes ahead are passed one by one, or by two where one is removed. */
  lemma {:induction false} WalkApproaches(c: Pcb, ahead: seq<Pcb>, tail: seq<Pcb>)
    requires Approach(c, ahead, tail) && HasInit([c] + ahead + tail)
    ensures HasWait([c] + ahead + tail) && Walk([c] + ahead + tail) == tail + [c] + Reap(ahead)
    decreases |ahead|
  {
    hide Tick, Examine, Walk, HasInit, HasWait, Reap, Ahead, Stayers, Approach, Schedulable;
    if ahead == [] {
      ReapStep(c, []);
      ApproachEnds(c, ahead, tail);
    } else {
      var x := ahead[0];
      if x.status != TERM || !Due(x) {
        var rest := ahead[1..];
        assert ahead == [x] + rest;
        var x' := PassesOne(c, x, rest, tail);
        WalkApproaches(x', rest, tail + [c]);
        Regroup(tail, c, x', Reap(rest));
      } else if |ahead| == 1 {
        ReapStep(x, []);
        assert ahead == [x] + [];
        ApproachEnds(c, ahead, tail);
      } else {
        var y, rest := ahead[1], ahead[2..];
        assert ahead == [x, y] + rest;
        PassesTwo(c, x, y, rest, tail);
        WalkApproaches(y, rest, tail + [c]);
        Regroup(tail, c, y, Reap(rest));
      }
    }
  }

  lemma TickAlone(c: Pcb)
    ensures Tick([c]) == [c]
  {
  }

  /** With some process ready, the walk stops at the first ready one ahead. The processes
      from there on keep their order, the starting process comes behind them, and then
      come the processes that were passed, reaped. */
  lemma WalkReaps(q: seq<Pcb>)
    requires HasInit(q) && HasWait(q)
    ensures Walk(q) == q[Ahead(q)..] + [q[0]] + Reap(q[1..Ahead(q)])
  {
    var d := Ahead(q);
    assert q == [q[0]] + q[1..d] + q[d..];
    WalkApproaches(q[0], q[1..d], q[d..]);
  }
}
