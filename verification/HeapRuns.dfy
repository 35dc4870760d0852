/** Whole runs of allocator calls over the line of tiles. */
module HeapRuns {
  import opened Bytes
  import opened HeapTiles
  import opened HeapTheorems

  // ----- one request -----

  /** Where a request is served from: the heap as it is, or as it is after growth. */
  function Source(h: Heap, n: nat): Heap {
    if NextFit(h, n) < |h.tiles| then h else Grow(h, GrowthFor(n))
  }

  /** One growth is always enough: the second lap finds a fit. */
  lemma GrowthSuffices(h: Heap, n: nat)
    requires WellFormed(h) && RoverOnRing(h) && 0 < n
    ensures NextFit(Grow(h, GrowthFor(n)), n) < |Grow(h, GrowthFor(n)).tiles|
  {
    GrowKeeps(h, GrowthFor(n));
    GrowMakesRoom(h, GrowthFor(n));
    var g := Grow(h, GrowthFor(n));
    NextFitFinds(g, n);
    assert g.tiles[|g.tiles| - 1].len >= n;
  }

  lemma TakenIsNotNull(h: Heap, i: nat, n: nat)
    requires WellFormed(h) && i < |h.tiles| && h.tiles[i].len >= n
    ensures h.base < Taken(h.tiles[i], n).addr + 1
  {
    TilesInside(h.tiles, h.base, h.end);
  }

  /** A request fails exactly when no free block is big enough and the stack is in the
      way of growth; a failed request changes nothing. */
  lemma MallocFailsIff(h: Heap, n: nat, sp: int)
    requires WellFormed(h) && RoverOnRing(h) && 0 < n
    ensures Malloc(h, n, sp).1 == NULL <==>
            && 8 * (h.end + if n < 1024 then 1024 else n) > sp
            && forall i :: 0 <= i < |h.tiles| && h.tiles[i].free ==> h.tiles[i].len < n
    ensures Malloc(h, n, sp).1 == NULL ==> Malloc(h, n, sp).0 == h
    ensures Malloc(h, n, sp).1 != NULL ==>
            var s := Source(h, n); var i := NextFit(s, n);
            i < |s.tiles| && Malloc(h, n, sp) == (Take(s, i, n), Taken(s.tiles[i], n).addr + 1)
  {
    hide Tiles, Frees, Coalesced, UnitsOf, Grow;
    NextFitFinds(h, n);
    SourceFits(h, n);
    TakenIsNotNull(Source(h, n), NextFit(Source(h, n), n), n);
  }

  lemma SourceFits(h: Heap, n: nat)
    requires WellFormed(h) && RoverOnRing(h) && 0 < n
    ensures WellFormed(Source(h, n)) && NextFit(Source(h, n), n) < |Source(h, n).tiles|
  {
    GrowKeeps(h, GrowthFor(n));
    GrowthSuffices(h, n);
  }

  lemma SourceKeeps(h: Heap, n: nat)
    requires WellFormed(h) && RoverOnRing(h) && 0 < n
    ensures WellFormed(Source(h, n)) && RoverOnRing(Source(h, n))
    ensures forall x: Tile :: !x.free ==> (x in Source(h, n).tiles <==> x in h.tiles)
    ensures UnitsOf(Source(h, n).tiles, false) == UnitsOf(h.tiles, false)
  {
    if NextFit(h, n) == |h.tiles| {
      GrowKeeps(h, GrowthFor(n));
      forall x: Tile | !x.free ensures x in Source(h, n).tiles <==> x in h.tiles { GrowLive(h, GrowthFor(n), x); }
    }
  }

  /** A request keeps the heap well formed with the rover on the free list, adds one live
      block of exactly `n` units, keeps every other live block, and the new block overlaps
      none of them. */
  lemma MallocKeeps(h: Heap, n: nat, sp: int)
    requires WellFormed(h) && RoverOnRing(h) && 0 < n
    ensures var (h', ptr) := Malloc(h, n, sp);
      && WellFormed(h') && RoverOnRing(h') && h'.base == h.base && h'.anchor == h.anchor
      && (ptr != NULL ==>
            && h'.base < ptr && ptr - 1 + n <= h'.end
            && (forall x: Tile :: !x.free ==> (x in h'.tiles <==> x in h.tiles || x == Tile(ptr - 1, n, false)))
            && (forall x: Tile :: !x.free && x in h.tiles ==> x.End() <= ptr - 1 || ptr - 1 + n <= x.addr)
            && UnitsOf(h'.tiles, false) == UnitsOf(h.tiles, false) + n)
  {
    hide Tiles, Frees, UnitsOf, Coalesced, Malloc;
    MallocFailsIff(h, n, sp);
    var (h', ptr) := Malloc(h, n, sp);
    if ptr != NULL {
      var s := Source(h, n);
      var i := NextFit(s, n);
      SourceKeeps(h, n);
      TakeWellFormed(s, i, n);
      TakeUnits(s, i, n);
      TilesInside(s.tiles, s.base, s.end);
      forall x: Tile | !x.free ensures x in h'.tiles <==> x in h.tiles || x == Tile(ptr - 1, n, false) {
        TakeLive(s, i, n, x);
      }
      forall x: Tile | !x.free && x in h.tiles ensures x.End() <= ptr - 1 || ptr - 1 + n <= x.addr {
        var k :| 0 <= k < |s.tiles| && s.tiles[k] == x;
        if k < i { TilesOrdered(s.tiles, s.base, s.end, k, i); } else { TilesOrdered(s.tiles, s.base, s.end, i, k); }
      }
    }
  }

  /** Freeing the block just obtained gives back the very line it was cut from. */
  lemma MallocThenFree(h: Heap, n: nat, sp: int)
    requires WellFormed(h) && RoverOnRing(h) && 0 < n
    requires Malloc(h, n, sp).1 != NULL
    ensures var (h', ptr) := Malloc(h, n, sp); Free(h', ptr).tiles == Source(h, n).tiles
  {
    hide Tiles, Frees, UnitsOf, Coalesced, Malloc, Grow, Release;
    MallocFailsIff(h, n, sp);
    SourceKeeps(h, n);
    var s := Source(h, n);
    var i := NextFit(s, n);
    TakeWellFormed(s, i, n);
    TilesInside(s.tiles, s.base, s.end);
    TakeThenRelease(s, i, n);
    LiveIndex(Take(s, i, n), if s.tiles[i].len == n then i else i + 1);
  }

  lemma TakeThenRelease(h: Heap, i: nat, n: nat)
    requires WellFormed(h) && 0 < n && i < |h.tiles| && h.tiles[i].free && h.tiles[i].len >= n
    ensures var k := if h.tiles[i].len == n then i else i + 1;
            var h' := Take(h, i, n);
            k < |h'.tiles| && h'.tiles[k] == Taken(h.tiles[i], n) && Release(h', k).tiles == h.tiles
  {
    hide Tiles, Frees, UnitsOf, Coalesced;
    var t, h' := h.tiles, Take(h, i, n);
    assert t == t[..i] + [t[i]] + t[i + 1..];
    assert (i > 0 ==> !t[i - 1].free) && (i + 1 < |t| ==> !t[i + 1].free) by { NeighboursLive(h, i); }
    if t[i].len == n {
      assert h'.tiles == t[i := Taken(t[i], n)];
    } else {
      assert h'.tiles[..i] == t[..i] && h'.tiles[i + 2..] == t[i + 1..];
    }
  }

  lemma NeighboursLive(h: Heap, i: nat)
    requires WellFormed(h) && i < |h.tiles| && h.tiles[i].free
    ensures (i > 0 ==> !h.tiles[i - 1].free) && (i + 1 < |h.tiles| ==> !h.tiles[i + 1].free)
  {
  }

  lemma LiveIndex(h: Heap, k: nat)
    requires WellFormed(h) && k < |h.tiles|
    ensures IndexOf(h.tiles, h.tiles[k].addr) == k
  {
    var r := IndexOf(h.tiles, h.tiles[k].addr);
    TilesInside(h.tiles, h.base, h.end);
    if r < k { TilesOrdered(h.tiles, h.base, h.end, r, k); }
  }

  // ----- freeing -----

  /** `ptr` is what a caller holds: NULL, or the payload address of a live block. */
  ghost predicate Held(h: Heap, ptr: int) {
    ptr == NULL || (IndexOf(h.tiles, ptr - 1) < |h.tiles| && !h.tiles[IndexOf(h.tiles, ptr - 1)].free)
  }

  /** The block behind `ptr` ends where the rover's free block begins. */
  ghost predicate TouchesRover(h: Heap, ptr: int) {
    var i := IndexOf(h.tiles, ptr - 1);
    ptr != NULL && i < |h.tiles| && h.tiles[i].End() == h.rover
  }

  lemma TouchingIsAbsorbing(h: Heap, i: nat)
    requires WellFormed(h) && RoverOnRing(h) && i < |h.tiles|
    ensures AbsorbsRover(h, i) <==> h.tiles[i].End() == h.rover
  {
    hide Tiles, Frees, Coalesced;
    TilesInside(h.tiles, h.base, h.end);
    if i + 1 < |h.tiles| { TilesOrdered(h.tiles, h.base, h.end, i, i + 1); }
    if h.tiles[i].End() == h.rover {
      var c :| 0 <= c < |Ring(h)| && Ring(h)[c] == h.rover;
      assert c > 0;
      var k := FreeTileAt(h.tiles, c - 1);
      if k < i { TilesOrdered(h.tiles, h.base, h.end, k, i); }
      if k > i + 1 { TilesOrdered(h.tiles, h.base, h.end, i + 1, k); }
    }
  }

  /** Freeing keeps the heap well formed, ends exactly one live block, and keeps the rover
      on the free list if and only if the block does not end at the rover. */
  lemma FreeKeeps(h: Heap, ptr: int)
    requires WellFormed(h) && RoverOnRing(h) && Held(h, ptr)
    ensures var h' := Free(h, ptr);
      && WellFormed(h') && h'.base == h.base && h'.anchor == h.anchor && h'.end == h.end && h'.rover == h.rover
      && (ptr == NULL ==> h' == h)
      && (RoverOnRing(h') <==> !TouchesRover(h, ptr))
      && (ptr != NULL ==>
            var gone := h.tiles[IndexOf(h.tiles, ptr - 1)];
            && (forall x: Tile :: !x.free ==> (x in h'.tiles <==> x in h.tiles && x != gone))
            && UnitsOf(h'.tiles, false) == UnitsOf(h.tiles, false) - gone.len)
  {
    if ptr != NULL {
      var i := IndexOf(h.tiles, ptr - 1);
      ReleaseWellFormed(h, i);
      ReleaseRover(h, i);
      TouchingIsAbsorbing(h, i);
      ReleaseUnits(h, i);
      forall x: Tile | !x.free ensures x in Free(h, ptr).tiles <==> x in h.tiles && x != h.tiles[i] {
        ReleaseLive(h, i, x);
      }
    }
  }

  // ----- runs -----

  datatype Call =
    | KMalloc(size: nat, sp: int)
    | KFree(ptr: int)
    | KCalloc(num: nat, len: nat, sp: int)
    | KRealloc(ptr: int, size: nat, sp: int)

  function Step(h: Heap, c: Call): Heap {
    match c
    case KMalloc(size, sp) => Malloc(h, UnitsFor(size), sp).0
    case KFree(ptr) => Free(h, ptr)
    case KCalloc(num, len, sp) => Malloc(h, UnitsFor(num * len % WORD), sp).0
    case KRealloc(ptr, size, sp) => Realloc(h, ptr, size, sp).0
  }

  /** Callers only pass pointers they hold. */
  ghost predicate Legal(h: Heap, c: Call) {
    match c
    case KMalloc(_, _) => true
    case KFree(ptr) => Held(h, ptr)
    case KCalloc(_, _, _) => true
    case KRealloc(ptr, _, _) => Held(h, ptr)
  }

  /** The block that `krealloc` frees on its way, if any, and the heap it frees it in. */
  function FreedBy(h: Heap, ptr: int, size: nat, sp: int): (Heap, int) {
    if ptr == NULL || (size != 0 && size == Capacity(h, ptr)) then (h, NULL)
    else if size == 0 then (h, ptr)
    else
      var (h', fresh') := Malloc(h, UnitsFor(size), sp);
      if fresh' == NULL then (h, NULL) else (h', ptr)
  }

  ghost predicate SparesRover(h: Heap, c: Call) {
    match c
    case KMalloc(_, _) => true
    case KFree(ptr) => !TouchesRover(h, ptr)
    case KCalloc(_, _, _) => true
    case KRealloc(ptr, size, sp) =>
      var (h', freed) := FreedBy(h, ptr, size, sp);
      !TouchesRover(h', freed)
  }

  lemma HeldThroughMalloc(h: Heap, n: nat, sp: int, ptr: int)
    requires WellFormed(h) && RoverOnRing(h) && 0 < n && Held(h, ptr)
    ensures Held(Malloc(h, n, sp).0, ptr)
  {
    if ptr != NULL && Malloc(h, n, sp).1 != NULL {
      MallocKeeps(h, n, sp);
      var x := h.tiles[IndexOf(h.tiles, ptr - 1)];
      var h' := Malloc(h, n, sp).0;
      assert x in h'.tiles;
      var k :| 0 <= k < |h'.tiles| && h'.tiles[k] == x;
      LiveIndex(h', k);
    } else if ptr != NULL {
      MallocFailsIff(h, n, sp);
    }
  }

  /** Every call keeps the heap exactly tiled and coalesced, and keeps the rover on the
      free list if and only if no block it frees ends at the rover. */
  lemma StepKeeps(h: Heap, c: Call)
    requires WellFormed(h) && RoverOnRing(h) && Legal(h, c)
    ensures WellFormed(Step(h, c)) && Step(h, c).base == h.base
    ensures RoverOnRing(Step(h, c)) <==> SparesRover(h, c)
  {
    match c
    case KMalloc(size, sp) => MallocKeeps(h, UnitsFor(size), sp);
    case KFree(ptr) => FreeKeeps(h, ptr);
    case KCalloc(num, len, sp) => MallocKeeps(h, UnitsFor(num * len % WORD), sp);
    case KRealloc(ptr, size, sp) =>
      if ptr == NULL {
        MallocKeeps(h, UnitsFor(size), sp);
      } else if size == 0 {
        FreeKeeps(h, ptr);
      } else if size != Capacity(h, ptr) {
        MallocKeeps(h, UnitsFor(size), sp);
        HeldThroughMalloc(h, UnitsFor(size), sp, ptr);
        if Malloc(h, UnitsFor(size), sp).1 != NULL { FreeKeeps(Malloc(h, UnitsFor(size), sp).0, ptr); }
      }
  }

  function Run(h: Heap, calls: seq<Call>): Heap
    decreases |calls|
  {
    if calls == [] then h else Run(Step(h, calls[0]), calls[1..])
  }

  ghost predicate Orderly(h: Heap, calls: seq<Call>)
    decreases |calls|
  {
    calls == [] || (Legal(h, calls[0]) && SparesRover(h, calls[0]) && Orderly(Step(h, calls[0]), calls[1..]))
  }

  /** The heap before the first call. */
  function Initial(anchor: int, base: int): Heap {
    Heap(anchor, base, base, [], anchor)
  }

  lemma InitialIsSound(anchor: int, base: int)
    requires NULL < anchor < base
    ensures WellFormed(Initial(anchor, base)) && RoverOnRing(Initial(anchor, base))
  {
  }

  /** Conservation: after any number of calls of an orderly run, the free and live blocks
      tile the heap exactly, no two free blocks touch, and free plus live units add up to
      the heap's size. */
  lemma {:induction false} RunConserves(h: Heap, calls: seq<Call>, k: nat)
    requires WellFormed(h) && RoverOnRing(h) && Orderly(h, calls) && k <= |calls|
    ensures var h' := Run(h, calls[..k]);
      && WellFormed(h') && RoverOnRing(h') && h'.base == h.base
      && UnitsOf(h'.tiles, true) + UnitsOf(h'.tiles, false) == h'.end - h.base
    decreases k
  {
    hide Tiles, Frees, UnitsOf, Coalesced, Step, Legal, SparesRover, RoverOnRing;
    if k == 0 {
      UnitsFillTheLine(h.tiles, h.base, h.end);
    } else {
      StepKeeps(h, calls[0]);
      assert calls[..k][1..] == calls[1..][..k - 1];
      RunConserves(Step(h, calls[0]), calls[1..], k - 1);
    }
  }

  /** The call hands the block behind `ptr` back, or may move it. */
  predicate Names(c: Call, ptr: int) {
    match c
    case KMalloc(_, _) => false
    case KFree(p) => p == ptr
    case KCalloc(_, _, _) => false
    case KRealloc(p, _, _) => p == ptr
  }

  lemma StepSparesOthers(h: Heap, c: Call, addr: int, len: int)
    requires WellFormed(h) && RoverOnRing(h) && Legal(h, c)
    requires IsLive(h, addr, len) && !Names(c, addr + 1)
    ensures IsLive(Step(h, c), addr, len)
  {
    match c
    case KMalloc(size, sp) => MallocKeeps(h, UnitsFor(size), sp); MallocFailsIff(h, UnitsFor(size), sp);
    case KFree(ptr) => FreeKeeps(h, ptr);
    case KCalloc(num, len, sp) =>
      MallocKeeps(h, UnitsFor(num * len % WORD), sp);
      MallocFailsIff(h, UnitsFor(num * len % WORD), sp);
    case KRealloc(ptr, size, sp) =>
      MallocKeeps(h, UnitsFor(size), sp);
      MallocFailsIff(h, UnitsFor(size), sp);
      if ptr != NULL && size == 0 {
        FreeKeeps(h, ptr);
      } else if ptr != NULL && size != Capacity(h, ptr) && Malloc(h, UnitsFor(size), sp).1 != NULL {
        HeldThroughMalloc(h, UnitsFor(size), sp, ptr);
        FreeKeeps(Malloc(h, UnitsFor(size), sp).0, ptr);
      }
  }

  /** A live block that no call of the run names is still there, whole, at the end. */
  lemma {:induction false} LiveBlockSurvivesRun(h: Heap, calls: seq<Call>, addr: int, len: int)
    requires WellFormed(h) && RoverOnRing(h) && Orderly(h, calls)
    requires IsLive(h, addr, len)
    requires forall i :: 0 <= i < |calls| ==> !Names(calls[i], addr + 1)
    ensures IsLive(Run(h, calls), addr, len)
    decreases |calls|
  {
    hide Tiles, Frees, UnitsOf, Coalesced, Step, Legal, SparesRover, RoverOnRing, IsLive;
    if calls != [] {
      assert !Names(calls[0], addr + 1);
      assert forall i :: 0 <= i < |calls[1..]| ==> calls[1..][i] == calls[i + 1];
      StepKeeps(h, calls[0]);
      StepSparesOthers(h, calls[0], addr, len);
      LiveBlockSurvivesRun(Step(h, calls[0]), calls[1..], addr, len);
    }
  }
}
