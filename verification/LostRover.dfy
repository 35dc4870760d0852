/** The one way the allocator goes wrong: `kfree` absorbs the block the rover stands on
    and leaves the rover pointing into the middle of a free block. The condition is the
    one in HeapRuns.FreeKeeps; here is a run that meets it, and what follows from it. */
module LostRover {
  import opened HeapTiles
  import opened HeapTheorems
  import opened HeapRuns
  import opened HeapMemory

  // ----- a run that loses the rover -----

  /** The heap bottom is unit 2, the list anchor unit 1, and the stack is out of the way. */
  const START := Initial(1, 2)
  const SP := 0x400_0000

  /** Requests for 300, 300, 424 and 400 units; the second block is freed in between. */
  const BUILDUP: seq<Call> :=
    [KMalloc(2392, SP), KMalloc(2392, SP), KMalloc(3384, SP), KFree(427), KMalloc(3192, SP)]

  const SETUP: Heap :=
    Heap(1, 2, 2050,
         [Tile(2, 424, false), Tile(426, 300, true), Tile(726, 300, false),
           Tile(1026, 624, true), Tile(1650, 400, false)],
         426)

  const H1 := Heap(1, 2, 1026, [Tile(2, 724, true), Tile(726, 300, false)], 1)
  const H2 := Heap(1, 2, 1026, [Tile(2, 424, true), Tile(426, 300, false), Tile(726, 300, false)], 1)
  const H3 := Heap(1, 2, 1026, [Tile(2, 424, false), Tile(426, 300, false), Tile(726, 300, false)], 1)
  const H4 := Heap(1, 2, 1026, [Tile(2, 424, false), Tile(426, 300, true), Tile(726, 300, false)], 1)

  lemma FirstCall()
    ensures Step(START, BUILDUP[0]) == H1
  {
    assert Grow(START, 1024) == Heap(1, 2, 1026, [Tile(2, 1024, true)], 1);
  }

  lemma SecondCall()
    ensures Step(H1, BUILDUP[1]) == H2
  {
    assert NextFit(H1, 300) == 0;
    assert H1.tiles[..0] == [] && H1.tiles[1..] == [Tile(726, 300, false)];
  }

  lemma ThirdCall()
    ensures Step(H2, BUILDUP[2]) == H3
  {
    assert NextFit(H2, 424) == 0;
    assert H2.tiles[..0] == [];
  }

  lemma FourthCall()
    ensures Step(H3, BUILDUP[3]) == H4
  {
    assert IndexOf(H3.tiles, 426) == 1;
    assert H3.tiles[..1] == [Tile(2, 424, false)] && H3.tiles[2..] == [Tile(726, 300, false)];
  }

  const GROWN := Heap(1, 2, 2050, H4.tiles + [Tile(1026, 1024, true)], 1)

  lemma FifthCallGrows()
    ensures Grow(H4, 1024) == GROWN
  {
    var w := Widened(H4, 1024).tiles;
    assert w[..3] == H4.tiles && w[4..] == [];
  }

  lemma FifthCallFits()
    ensures NextFit(H4, 400) == 3 && NextFit(GROWN, 400) == 3
  {
    assert GROWN.tiles[3] == Tile(1026, 1024, true);
    assert forall i :: 0 <= i < 3 ==> GROWN.tiles[i] == H4.tiles[i] && !(H4.tiles[i].free && H4.tiles[i].len >= 400);
  }

  lemma FifthCallTakes()
    ensures Take(GROWN, 3, 400) == SETUP
  {
    assert GROWN.tiles[..3] == H4.tiles && GROWN.tiles[4..] == [];
    assert Frees(H4.tiles) == [426];
  }

  lemma FifthCall()
    ensures Step(H4, BUILDUP[4]) == SETUP
  {
    hide Grow, Take, NextFit, FirstFit;
    FifthCallGrows();
    FifthCallFits();
    FifthCallTakes();
  }

  /** A run is orderly when its first call is and the rest is from there on. */
  lemma Prepend(h: Heap, c: Call, h': Heap, rest: seq<Call>)
    requires Legal(h, c) && SparesRover(h, c) && Step(h, c) == h' && Orderly(h', rest)
    ensures Orderly(h, [c] + rest) && Run(h, [c] + rest) == Run(h', rest)
  {
    hide Step, Legal, SparesRover;
    assert ([c] + rest)[1..] == rest;
  }

  lemma BuildupReachesSetup()
    ensures WellFormed(START) && RoverOnRing(START) && Orderly(START, BUILDUP) && Run(START, BUILDUP) == SETUP
  {
    hide Step, Run, Orderly;
    assert Orderly(SETUP, []) && Run(SETUP, []) == SETUP by { EmptyRun(SETUP); }
    FifthCall();
    Prepend(H4, BUILDUP[4], SETUP, []);
    assert [BUILDUP[4]] + [] == BUILDUP[4..];
    assert Legal(H3, BUILDUP[3]) && SparesRover(H3, BUILDUP[3]) by { FourthCallIsOrderly(); }
    FourthCall();
    Prepend(H3, BUILDUP[3], H4, BUILDUP[4..]);
    assert [BUILDUP[3]] + BUILDUP[4..] == BUILDUP[3..];
    ThirdCall();
    Prepend(H2, BUILDUP[2], H3, BUILDUP[3..]);
    assert [BUILDUP[2]] + BUILDUP[3..] == BUILDUP[2..];
    SecondCall();
    Prepend(H1, BUILDUP[1], H2, BUILDUP[2..]);
    assert [BUILDUP[1]] + BUILDUP[2..] == BUILDUP[1..];
    FirstCall();
    Prepend(START, BUILDUP[0], H1, BUILDUP[1..]);
    assert [BUILDUP[0]] + BUILDUP[1..] == BUILDUP;
  }

  lemma EmptyRun(h: Heap)
    ensures Orderly(h, []) && Run(h, []) == h
  {
  }

  lemma FourthCallIsOrderly()
    ensures Legal(H3, BUILDUP[3]) && SparesRover(H3, BUILDUP[3])
  {
    assert IndexOf(H3.tiles, 426) == 1;
  }

  /** Six legal calls from the empty heap after which the rover is off the free list. */
  lemma RoverCanBeLost()
    ensures WellFormed(START) && RoverOnRing(START) && Orderly(START, BUILDUP)
    ensures var h := Run(START, BUILDUP);
            Legal(h, KFree(3)) && !RoverOnRing(Step(h, KFree(3)))
  {
    BuildupReachesSetup();
    assert IndexOf(SETUP.tiles, 2) == 0;
    SetupIsWellFormed();
    StepKeeps(SETUP, KFree(3));
  }

  lemma SetupIsWellFormed()
    ensures WellFormed(SETUP) && RoverOnRing(SETUP)
  {
    BuildupReachesSetup();
    RunConserves(START, BUILDUP, |BUILDUP|);
    assert BUILDUP[..|BUILDUP|] == BUILDUP;
  }

  // ----- what a lost rover does to the next search -----

  /** The node reached from `a` after `k` steps along the `next` pointers. */
  function Walk(m: seq<Unit>, a: int, k: nat): int
    decreases k
  {
    if k == 0 || !(0 <= a < |m|) then a else Walk(m, m[a].next, k - 1)
  }

  /** An address behind the header of a free block. */
  ghost predicate InsideFree(h: Heap, addr: int) {
    exists j :: 0 <= j < |h.tiles| && h.tiles[j].free && h.tiles[j].addr < addr < h.tiles[j].End()
  }

  /** Free memory is still in order, but the rover's old node is not part of it: it lies
      inside a free block, and only its stale link still leads to the free list. */
  ghost predicate RoverLost(m: seq<Unit>, h: Heap) {
    && Represents(m, h) && !RoverOnRing(h)
    && 0 <= h.rover < |m| && m[h.rover].next in Ring(h)
    && InsideFree(h, h.rover)
  }

  /** An absorbed rover lies inside the block that absorbed it. */
  lemma AbsorbedInside(h: Heap, k: nat)
    requires WellFormed(h) && k < |h.tiles| && !h.tiles[k].free && AbsorbsRover(h, k)
    ensures InsideFree(Release(h, k), h.rover)
  {
    hide Tiles, Frees, Coalesced;
    TilesInside(h.tiles, h.base, h.end);
    TilesOrdered(h.tiles, h.base, h.end, k, k + 1);
    if RunStart(h.tiles, k) == k - 1 { TilesOrdered(h.tiles, h.base, h.end, k - 1, k); }
    assert Release(h, k).tiles[RunStart(h.tiles, k)] == Merged(h.tiles, k);
  }

  /** Exactly the frees that end at the rover leave it lost. */
  lemma FreeLosesRover(m: seq<Unit>, m': seq<Unit>, h: Heap, k: nat, p: nat)
    requires Represents(m, h) && RoverOnRing(h) && k < |h.tiles| && !h.tiles[k].free
    requires p == |Frees(h.tiles[..k])| && p < |Ring(h)| && FreeStored(m, m', Ring(h)[p], h.tiles[k].addr)
    ensures RoverLost(m', Release(h, k)) <==> h.tiles[k].End() == h.rover
  {
    hide Tiles, Frees, UnitsOf, Linked, Headed, Coalesced;
    FreeRepresented(m, m', h, k, p);
    ReleaseRover(h, k);
    TouchingIsAbsorbing(h, k);
    if AbsorbsRover(h, k) {
      RingAfterRelease(h, k, p);
      RingRises(h);
      PredecessorExists(h, k);
      UpperMerge(m, h, k, p);
      NextIsSucc(m, Ring(h), p);
      NextIsSucc(m, Ring(h), p + 1);
      assert m'[h.rover] == m[h.rover];
      assert h.rover == Ring(h)[p + 1];
      AbsorbedInside(h, k);
      if p + 2 < |Ring(h)| {
        assert Ring(h)[p + 2] == Ring(h)[p + 2..][0];
        assert Ring(h)[p + 2] in Ring(Release(h, k));
      } else {
        assert Ring(h)[0] == Ring(h)[..p + 1][0];
        assert Ring(h)[0] in Ring(Release(h, k));
      }
    }
  }

  lemma {:induction false} WalkStaysOnRing(m: seq<Unit>, h: Heap, c: nat, k: nat)
    requires Represents(m, h) && c < |Ring(h)|
    ensures Walk(m, Ring(h)[c], k) in Ring(h)
    decreases k
  {
    if k > 0 {
      NextIsSucc(m, Ring(h), c);
      WalkStaysOnRing(m, h, SuccIndex(h, c), k - 1);
    }
  }

  /** From any node of the free list the links lead to any other. */
  lemma {:induction false} WalkReaches(m: seq<Unit>, h: Heap, c: nat, d: nat) returns (k: nat)
    requires Represents(m, h) && c < |Ring(h)| && d < |Ring(h)|
    ensures Walk(m, Ring(h)[c], k) == Ring(h)[d]
    decreases if c <= d then d - c else |Ring(h)| + d - c
  {
    hide Ring;
    if c == d { return 0; }
    NextIsSucc(m, Ring(h), c);
    k := WalkReaches(m, h, SuccIndex(h, c), d);
    k := k + 1;
  }

  /** The address of a node with room for `n` units. */
  predicate FitsAt(m: seq<Unit>, a: int, n: nat) { 0 <= a < |m| && m[a].len >= n }

  /** A node with room is a free block. */
  lemma FittingNode(m: seq<Unit>, h: Heap, c: nat, n: nat) returns (i: nat)
    requires Represents(m, h) && c < |Ring(h)| && 0 < n && m[Ring(h)[c]].len >= n
    ensures c > 0 && i < |h.tiles| && h.tiles[i].free && h.tiles[i].addr == Ring(h)[c] && |Frees(h.tiles[..i])| == c - 1
    ensures h.tiles[i].len == m[Ring(h)[c]].len
  {
    hide Tiles, Coalesced;
    assert Ring(h)[0] == h.anchor;
    i := FreeTileAt(h.tiles, c - 1);
  }

  lemma NodeOf(h: Heap, a: int) returns (c: nat)
    requires a in Ring(h)
    ensures c < |Ring(h)| && Ring(h)[c] == a
  {
    c :| 0 <= c < |Ring(h)| && Ring(h)[c] == a;
  }

  /** With the rover lost, the search meets a block with room if and only if there is one. It
      never meets the rover again, so otherwise it neither succeeds nor decides to grow the
      heap, however far it walks. */
  lemma SearchEndsIff(m: seq<Unit>, h: Heap, n: nat)
    requires RoverLost(m, h) && 0 < n
    ensures (exists k: nat :: FitsAt(m, Walk(m, m[h.rover].next, k), n)) <==>
            exists j :: 0 <= j < |h.tiles| && h.tiles[j].free && h.tiles[j].len >= n
    ensures forall k: nat :: Walk(m, m[h.rover].next, k) != h.rover
  {
    hide Tiles, Frees, Coalesced, Ring;
    var c := NodeOf(h, m[h.rover].next);
    forall k: nat
      ensures Walk(m, m[h.rover].next, k) != h.rover
      ensures FitsAt(m, Walk(m, m[h.rover].next, k), n) ==>
              exists j :: 0 <= j < |h.tiles| && h.tiles[j].free && h.tiles[j].len >= n
    {
      WalkStaysOnRing(m, h, c, k);
      var d := NodeOf(h, Walk(m, m[h.rover].next, k));
      if FitsAt(m, Ring(h)[d], n) { var i := FittingNode(m, h, d, n); }
    }
    if j :| 0 <= j < |h.tiles| && h.tiles[j].free && h.tiles[j].len >= n {
      RingHolds(h, j);
      var d := NodeOf(h, h.tiles[j].addr);
      var k := WalkReaches(m, h, c, d);
    }
  }

  /** The header just before the one reached after `k` steps: the stale one at first. */
  function Before(m: seq<Unit>, h: Heap, k: nat): int
    requires 0 <= h.rover < |m|
  {
    if k == 0 then h.rover else Walk(m, m[h.rover].next, k - 1)
  }

  /** The stale header is no part of the free list and no block's header. */
  lemma RoverIsApart(m: seq<Unit>, h: Heap)
    requires RoverLost(m, h)
    ensures h.rover !in Ring(h) && forall i :: 0 <= i < |h.tiles| ==> h.tiles[i].addr != h.rover
  {
    hide Tiles, Frees, Coalesced;
    var j :| 0 <= j < |h.tiles| && h.tiles[j].free && h.tiles[j].addr < h.rover < h.tiles[j].End();
    forall i | 0 <= i < |h.tiles| ensures h.tiles[i].addr != h.rover { HeadersOutsidePayloads(h, i, j, h.rover); }
    forall i | 0 <= i < |Ring(h)| ensures Ring(h)[i] != h.rover { RingOutsidePayloads(h, i, j, h.rover); }
  }

  /** A request that the first node reached from the lost rover fits exactly is served by
      unlinking that node at the stale header: nothing that is linked changes, and memory
      goes on to represent a heap in which the block handed out is free. */
  lemma HandedOutButFree(m: seq<Unit>, m': seq<Unit>, h: Heap, n: nat)
    requires RoverLost(m, h) && 0 < n && m[m[h.rover].next].len == n
    requires TakeStored(m, m', h.rover, m[h.rover].next, n)
    ensures Represents(m', h) && m[h.rover].next in Ring(h)
    ensures exists j :: 0 <= j < |h.tiles| && h.tiles[j].free && h.tiles[j].len == n
                        && h.tiles[j].addr == m[h.rover].next
  {
    hide Tiles, Frees, Coalesced;
    RoverIsApart(m, h);
    var c := NodeOf(h, m[h.rover].next);
    var i := FittingNode(m, h, c, n);
    assert Ring(h)[0] == h.anchor;
  }

  /** Where a node is still linked, the free list without it is not what memory has. */
  lemma StillLinked(m: seq<Unit>, ring: seq<int>, c: nat)
    requires Linked(m, ring) && Rising(ring) && 0 < c < |ring|
    ensures !Linked(m, ring[..c] + ring[c + 1..])
  {
    var rest := ring[..c] + ring[c + 1..];
    assert rest[c - 1] == ring[c - 1] && m[ring[c - 1]].next == ring[c];
    if c < |rest| { assert rest[c] == ring[c + 1] > ring[c]; } else { assert rest[0] == ring[0] < ring[c]; }
  }

  /** A request served from the lost rover is served rightly, wherever its search stops, if
      and only if it is not an exact fit by the very first node reached. */
  lemma ServedRightIff(m: seq<Unit>, m': seq<Unit>, h: Heap, n: nat, k: nat) returns (i: nat)
    requires RoverLost(m, h) && 0 < n
    requires FitsAt(m, Walk(m, m[h.rover].next, k), n)
    requires TakeStored(m, m', Before(m, h, k), Walk(m, m[h.rover].next, k), n)
    ensures i < |h.tiles| && h.tiles[i].free && h.tiles[i].addr == Walk(m, m[h.rover].next, k)
    ensures h.tiles[i].len == m[Walk(m, m[h.rover].next, k)].len >= n
    ensures Represents(m', Take(h, i, n)) <==> k > 0 || h.tiles[i].len > n
  {
    hide Tiles, Frees, Coalesced, Ring, Take;
    var s := NodeOf(h, m[h.rover].next);
    WalkStaysOnRing(m, h, s, k);
    var c := NodeOf(h, Walk(m, m[h.rover].next, k));
    i := FittingNode(m, h, c, n);
    if h.tiles[i].len > n {
      TakeRepresented(m, m', h, i, n, c - 1);
    } else if k > 0 {
      StepFromPredecessor(m, h, s, k, c);
      TakeRepresented(m, m', h, i, n, c - 1);
    } else {
      HandedOutButFree(m, m', h, n);
      RingRises(h);
      RingAfterTake(h, i, n, c - 1);
      StillLinked(m', Ring(h), c);
    }
  }

  /** The node walked through before node `c` is the one below it. */
  lemma {:induction false} StepFromPredecessor(m: seq<Unit>, h: Heap, s: nat, k: nat, c: nat)
    requires Represents(m, h) && s < |Ring(h)| && 0 < k && 0 < c < |Ring(h)|
    requires Walk(m, Ring(h)[s], k) == Ring(h)[c]
    ensures Walk(m, Ring(h)[s], k - 1) == Ring(h)[c - 1]
    decreases k
  {
    hide Ring;
    NextIsSucc(m, Ring(h), s);
    if k == 1 {
      RingRises(h);
    } else {
      StepFromPredecessor(m, h, SuccIndex(h, s), k - 1, c);
    }
  }

  // ----- what a lost rover does to the next free -----

  /** The condition that ends the search for a block's place at a node. */
  predicate StopsAt(a: int, next: int, block: int) {
    a < block < next || ((block > a || block < next) && a >= next)
  }

  /** A block whose place the search finds at the lost rover is linked in at the stale header:
      it does not come onto the free list, which stays as it was. */
  lemma FreedOffTheList(m: seq<Unit>, m': seq<Unit>, h: Heap, k: nat)
    requires RoverLost(m, h) && k < |h.tiles| && !h.tiles[k].free
    requires StopsAt(h.rover, m[h.rover].next, h.tiles[k].addr) && FreeStored(m, m', h.rover, h.tiles[k].addr)
    ensures Linked(m', Ring(h)) && h.tiles[k].addr !in Ring(h) && !Represents(m', Release(h, k))
  {
    hide Tiles, Frees, Coalesced, Ring;
    RoverIsApart(m, h);
    PredecessorExists(h, k);
    var ring, p, t := Ring(h), |Frees(h.tiles[..k])|, h.tiles;
    RingAfterRelease(h, k, p);
    assert forall i :: 0 <= i < |ring| ==> m'[ring[i]] == m[ring[i]];
    if RunStart(t, k) == k {
      NextIsSucc(m, ring, p);
      assert Ring(Release(h, k))[p + 1] == t[k].addr && Ring(Release(h, k))[p] == ring[p];
    } else {
      TilesInside(t, h.base, h.end);
      TilesOrdered(t, h.base, h.end, k - 1, k);
      if RunEnd(t, k) == k + 2 { TilesOrdered(t, h.base, h.end, k, k + 1); }
      assert Release(h, k).tiles[k - 1] == Merged(t, k) && m'[t[k - 1].addr] == m[t[k - 1].addr];
    }
  }

  /** Any other block is freed rightly: the search goes on to the free list and stops at the
      block's place in it. */
  lemma FreedRightly(m: seq<Unit>, m': seq<Unit>, h: Heap, k: nat, p: nat) returns (j: nat)
    requires RoverLost(m, h) && k < |h.tiles| && !h.tiles[k].free && p == |Frees(h.tiles[..k])|
    requires p < |Ring(h)| && FreeStored(m, m', Ring(h)[p], h.tiles[k].addr)
    ensures Walk(m, m[h.rover].next, j) == Ring(h)[p] && Represents(m', Release(h, k))
    ensures forall c :: 0 <= c < |Ring(h)| ==> (StopsAt(Ring(h)[c], m[Ring(h)[c]].next, h.tiles[k].addr) <==> c == p)
  {
    hide Tiles, Frees, Coalesced, Ring;
    var s := NodeOf(h, m[h.rover].next);
    j := WalkReaches(m, h, s, p);
    FreeRepresented(m, m', h, k, p);
    RingRises(h);
    PredecessorExists(h, k);
    forall c | 0 <= c < |Ring(h)| ensures StopsAt(Ring(h)[c], m[Ring(h)[c]].next, h.tiles[k].addr) <==> c == p {
      NextIsSucc(m, Ring(h), c);
      StopsAtPredecessor(Ring(h), p, c, h.tiles[k].addr);
    }
  }
}
