/** What a request is answered with, and where it leaves the heap, without the functions that
    compute it. */
module HeapRequests {
  import opened HeapBytes
  import opened HeapTiles
  import opened HeapTheorems
  import opened HeapRuns

  lemma FreeIsListed(t: seq<Tile>, j: nat)
    requires j < |t| && t[j].free
    ensures t[j].addr in Frees(t)
  {
    FreesAround(t, j);
  }

  /** Taking units out of a tile moves the rover to the ring node next below that tile. */
  lemma TakeMovesRover(h: Heap, i: nat, n: nat)
    requires WellFormed(h) && 0 < n && i < |h.tiles| && h.tiles[i].free && h.tiles[i].len >= n
    ensures var h' := Take(h, i, n);
            && h'.rover in Ring(h) && h'.rover < h.tiles[i].addr && h'.end == h.end
            && forall y :: y in h'.tiles && y.free ==> !(h'.rover < y.addr < h.tiles[i].addr)
  {
    hide Tiles, UnitsOf, Coalesced, Frees;
    var h', a, b, t := Take(h, i, n), h.tiles[..i], h.tiles[i + 1..], h.tiles[i];
    TilesInside(h.tiles, h.base, h.end);
    TilesCut(h.tiles, i, h.base, h.end);
    FreesSorted(a, h.base, StartOf(h.tiles, i, h.end));
    FreesAround(h.tiles, i);
    var below := [h.anchor] + Frees(a);
    assert h'.rover == below[|below| - 1];
    assert Ring(h) == below + [t.addr] + Frees(b);
    assert Ring(h)[|below| - 1] == h'.rover;
    forall y | y in h'.tiles && y.free ensures !(h'.rover < y.addr < t.addr) {
      if y in a {
        var j :| 0 <= j < |a| && a[j] == y;
        FreeIsListed(a, j);
        var k :| 0 <= k < |Frees(a)| && Frees(a)[k] == y.addr;
      } else if y in b {
        var j :| 0 <= j < |b| && b[j] == y;
        TilesOrdered(h.tiles, h.base, h.end, i, i + 1 + j);
      }
    }
  }

  /** A request is served from the upper end of a free tile: the first one with room from the
      rover on, or else from the bottom, or else the one at the top of a heap that has grown by
      the larger of 1024 units and the request. The rover ends on the ring node next below it. */
  lemma MallocServes(h: Heap, n: nat, sp: int) returns (x: Tile)
    requires WellFormed(h) && RoverOnRing(h) && 0 < n && Malloc(h, n, sp).1 != NULL
    ensures var (h', ptr) := Malloc(h, n, sp); ptr - 1 + n == x.End() && x.free && x.len >= n
    ensures (exists y :: y in h.tiles && y.free && y.len >= n) ==>
              && x in h.tiles && Malloc(h, n, sp).0.end == h.end
              && forall y :: y in h.tiles && y.free && y.len >= n ==>
                   if x.addr > h.rover then !(h.rover < y.addr < x.addr) else x.addr <= y.addr <= h.rover
    ensures !(exists y :: y in h.tiles && y.free && y.len >= n) ==>
              Malloc(h, n, sp).0.end == x.End() == h.end + if n < 1024 then 1024 else n
    ensures var h' := Malloc(h, n, sp).0;
            && RoverOnRing(h') && h'.rover < x.addr
            && forall y :: y in h'.tiles && y.free ==> !(h'.rover < y.addr < x.addr)
  {
    hide Malloc, Take, Grow, NextFit, RoverOnRing, WellFormed;
    MallocFailsIff(h, n, sp);
    MallocKeeps(h, n, sp);
    SourceKeeps(h, n);
    NextFitFinds(h, n);
    var s := Source(h, n);
    var i := NextFit(s, n);
    x := s.tiles[i];
    TakeMovesRover(s, i, n);
    if NextFit(h, n) < |h.tiles| { NextFitIsNext(h, n); } else { GrownServesTop(h, n); }
  }

  lemma NextFitIsNext(h: Heap, n: nat)
    requires WellFormed(h) && NextFit(h, n) < |h.tiles|
    ensures var x := h.tiles[NextFit(h, n)];
            forall y :: y in h.tiles && y.free && y.len >= n ==>
              if x.addr > h.rover then !(h.rover < y.addr < x.addr) else x.addr <= y.addr <= h.rover
  {
    hide Tiles, Coalesced, Frees;
    var i := NextFit(h, n);
    var x := h.tiles[i];
    TilesInside(h.tiles, h.base, h.end);
    forall y | y in h.tiles && y.free && y.len >= n
      ensures if x.addr > h.rover then !(h.rover < y.addr < x.addr) else x.addr <= y.addr <= h.rover
    {
      var j :| 0 <= j < |h.tiles| && h.tiles[j] == y;
      if i < j { TilesOrdered(h.tiles, h.base, h.end, i, j); }
      if j < i { TilesOrdered(h.tiles, h.base, h.end, j, i); }
    }
  }

  /** The one tile with room after growth is the top one. */
  lemma GrownServesTop(h: Heap, n: nat)
    requires WellFormed(h) && RoverOnRing(h) && 0 < n && NextFit(h, n) == |h.tiles|
    ensures var g := Grow(h, GrowthFor(n)); var i := NextFit(g, n);
            i < |g.tiles| && g.tiles[i].End() == g.end == h.end + if n < 1024 then 1024 else n
  {
    hide Tiles, UnitsOf, Coalesced, Frees;
    GrowthSuffices(h, n);
    var m := GrowthFor(n);
    GrowKeeps(h, m);
    var w, g := Widened(h, m), Grow(h, m);
    var i := NextFit(g, n);
    var k := |h.tiles|;
    TilesTop(g.tiles, g.base, g.end);
    NextFitFinds(h, n);
    assert g.tiles == w.tiles[..RunStart(w.tiles, k)] + [Merged(w.tiles, k)];
  }

  /** Reallocation of a held block: freed for size 0, left alone for its own size, and moved
      otherwise to a new block, unless there is none to be had, in which case nothing changes. */
  lemma ReallocAnswers(h: Heap, ptr: int, size: nat, sp: int)
    requires WellFormed(h) && RoverOnRing(h) && Held(h, ptr) && ptr != NULL
    ensures var (h', r) := Realloc(h, ptr, size, sp);
            var x, n := h.tiles[IndexOf(h.tiles, ptr - 1)], UnitsFor(size);
            && (size == 0 ==> r == NULL && x !in h'.tiles)
            && (size == 8 * (x.len - 1) > 0 ==> r == ptr && h' == h)
            && (size != 0 && size != 8 * (x.len - 1) ==>
                  && (r == NULL <==>
                        && 8 * (h.end + if n < 1024 then 1024 else n) > sp
                        && forall i :: 0 <= i < |h.tiles| && h.tiles[i].free ==> h.tiles[i].len < n)
                  && (r == NULL ==> h' == h)
                  && (r != NULL ==> r != ptr && IsLive(h', r - 1, n) && x !in h'.tiles))
  {
    hide Tiles, UnitsOf, Coalesced, Frees, Ring, Malloc, Release;
    var i := IndexOf(h.tiles, ptr - 1);
    var x, n := h.tiles[i], UnitsFor(size);
    if size == 0 {
      FreeKeeps(h, ptr);
    } else if size != 8 * (x.len - 1) {
      MallocFailsIff(h, n, sp);
      MallocKeeps(h, n, sp);
      var (h1, r) := Malloc(h, n, sp);
      if r != NULL {
        HeldThroughMalloc(h, n, sp, ptr);
        FreeKeeps(h1, ptr);
        TilesInside(h.tiles, h.base, h.end);
        assert x in h1.tiles && Tile(r - 1, n, false) in h1.tiles;
        var k :| 0 <= k < |h1.tiles| && h1.tiles[k] == x;
        LiveIndex(h1, k);
      }
    }
  }

  /** As many bytes are carried over as both the old block and the size asked for have. */
  lemma CarriedIs(h: Heap, ptr: int, size: nat)
    requires Held(h, ptr) && ptr != NULL
    ensures var n := 8 * (h.tiles[IndexOf(h.tiles, ptr - 1)].len - 1);
            Carried(h, ptr, size) == if size < n then size else n
  {
  }
}
