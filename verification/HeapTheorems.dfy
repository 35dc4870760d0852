/** What the tile operations keep: the heap stays exactly tiled and coalesced,
    callers' blocks are never disturbed, and the free list changes by one link. */
module HeapTheorems {
  import opened HeapTiles

  // ----- taking units out of a free tile -----

  lemma CutTile(t: Tile, n: nat)
    requires t.free && t.len >= n > 0
    ensures Tiles(Cut(t, n), t.addr, t.End())
    ensures Frees(Cut(t, n)) == if t.len == n then [] else [t.addr]
    ensures UnitsOf(Cut(t, n), true) == t.len - n && UnitsOf(Cut(t, n), false) == n
  {
    if t.len == n { OneTile(Cut(t, n)[0]); } else { TwoTiles(Cut(t, n)[0], Cut(t, n)[1]); }
  }

  lemma TakeWellFormed(h: Heap, i: nat, n: nat)
    requires WellFormed(h) && 0 < n
    requires i < |h.tiles| && h.tiles[i].free && h.tiles[i].len >= n
    ensures WellFormed(Take(h, i, n)) && RoverOnRing(Take(h, i, n))
  {
    hide Frees, Tiles, UnitsOf;
    var t, a, b := h.tiles[i], h.tiles[..i], h.tiles[i + 1..];
    CutTile(t, n);
    TilesCut(h.tiles, i, h.base, h.end);
    TilesCut(h.tiles, i + 1, h.base, h.end);
    if i + 1 < |h.tiles| { TilesOrdered(h.tiles, h.base, h.end, i, i + 1); } else { TilesTop(h.tiles, h.base, h.end); }
    TilesSplice(a, Cut(t, n), b, h.base, t.addr, t.End(), h.end);
    FreesSplice(a, Cut(t, n), b);
  }

  /** A split leaves the free list as it was; an exact fit unlinks one node. */
  lemma TakeRing(h: Heap, i: nat, n: nat)
    requires i < |h.tiles| && h.tiles[i].free && h.tiles[i].len >= n > 0
    ensures Ring(h) == [h.anchor] + Frees(h.tiles[..i]) + [h.tiles[i].addr] + Frees(h.tiles[i + 1..])
    ensures Ring(Take(h, i, n)) ==
            if h.tiles[i].len == n then [h.anchor] + Frees(h.tiles[..i]) + Frees(h.tiles[i + 1..]) else Ring(h)
  {
    hide Frees, Tiles, UnitsOf;
    FreesAround(h.tiles, i);
    CutTile(h.tiles[i], n);
    FreesSplice(h.tiles[..i], Cut(h.tiles[i], n), h.tiles[i + 1..]);
  }

  /** Exactly one live block is added, and it lies inside the tile it was cut from. */
  lemma TakeLive(h: Heap, i: nat, n: nat, x: Tile)
    requires i < |h.tiles| && h.tiles[i].free && h.tiles[i].len >= n
    requires !x.free
    ensures x in Take(h, i, n).tiles <==> x in h.tiles || x == Taken(h.tiles[i], n)
  {
    var t, a, b := h.tiles[i], h.tiles[..i], h.tiles[i + 1..];
    assert h.tiles == a + [t] + b;
    assert Take(h, i, n).tiles == a + Cut(t, n) + b;
  }

  lemma TakeUnits(h: Heap, i: nat, n: nat)
    requires i < |h.tiles| && h.tiles[i].free && h.tiles[i].len >= n > 0
    ensures UnitsOf(Take(h, i, n).tiles, true) == UnitsOf(h.tiles, true) - n
    ensures UnitsOf(Take(h, i, n).tiles, false) == UnitsOf(h.tiles, false) + n
  {
    hide UnitsOf, Tiles, Frees;
    var t, a, b := h.tiles[i], h.tiles[..i], h.tiles[i + 1..];
    assert h.tiles == a + [t] + b;
    CutTile(t, n);
    OneTile(t);
    UnitsSplice(a, Cut(t, n), b, true);
    UnitsSplice(a, Cut(t, n), b, false);
    UnitsSplice(a, [t], b, true);
    UnitsSplice(a, [t], b, false);
  }

  // ----- releasing a tile -----

  lemma MergedSpan(t: seq<Tile>, i: nat, lo: int, hi: int)
    requires Tiles(t, lo, hi) && i < |t|
    ensures Merged(t, i).addr == StartOf(t, RunStart(t, i), hi)
    ensures Merged(t, i).End() == StartOf(t, RunEnd(t, i), hi)
    ensures Merged(t, i).len > 0
    ensures Tiles(t[..RunStart(t, i)], lo, Merged(t, i).addr)
    ensures Tiles(t[RunEnd(t, i)..], Merged(t, i).End(), hi)
  {
    var p, q := RunStart(t, i), RunEnd(t, i);
    TilesCut(t, p, lo, hi);
    TilesCut(t, q, lo, hi);
    TilesInside(t, lo, hi);
    if q < |t| { TilesOrdered(t, lo, hi, q - 1, q); } else { TilesTop(t, lo, hi); }
    if p < q - 1 { TilesOrdered(t, lo, hi, p, q - 1); }
  }

  lemma ReleaseWellFormed(h: Heap, i: nat)
    requires WellFormed(h) && i < |h.tiles| && !h.tiles[i].free
    ensures WellFormed(Release(h, i))
  {
    hide Tiles, Frees;
    var lo, hi, m := RunStart(h.tiles, i), RunEnd(h.tiles, i), Merged(h.tiles, i);
    MergedSpan(h.tiles, i, h.base, h.end);
    OneTile(m);
    TilesSplice(h.tiles[..lo], [m], h.tiles[hi..], h.base, m.addr, m.End(), h.end);
  }

  /** The free list after a release: the upper neighbour's node goes if it was absorbed,
      and the block's own node appears unless the lower neighbour absorbed it. */
  lemma ReleaseRing(h: Heap, i: nat)
    requires i < |h.tiles| && !h.tiles[i].free
    ensures var below, above := Frees(h.tiles[..i]), Frees(h.tiles[i + 1..]);
      && Ring(h) == [h.anchor] + below + above
      && (RunEnd(h.tiles, i) == i + 2 ==> above != [] && above[0] == h.tiles[i + 1].addr)
      && (RunStart(h.tiles, i) == i - 1 ==> below != [] && below[|below| - 1] == h.tiles[i - 1].addr)
      && Ring(Release(h, i)) == [h.anchor] + below
                                + (if RunStart(h.tiles, i) == i then [h.tiles[i].addr] else [])
                                + (if RunEnd(h.tiles, i) == i + 2 then above[1..] else above)
  {
    hide Frees;
    var t, lo, hi := h.tiles, RunStart(h.tiles, i), RunEnd(h.tiles, i);
    FreesAround(t, i);
    OneTile(Merged(t, i));
    FreesSplice(t[..lo], [Merged(t, i)], t[hi..]);
    if hi == i + 2 { FirstFree(t, i + 1); }
    if lo == i - 1 { LastFree(t, i - 1); }
  }

  lemma FirstFree(t: seq<Tile>, i: nat)
    requires i < |t| && t[i].free
    ensures Frees(t[i..]) == [t[i].addr] + Frees(t[i + 1..])
  {
    assert t[i..][1..] == t[i + 1..];
  }

  lemma LastFree(t: seq<Tile>, i: nat)
    requires i < |t| && t[i].free
    ensures Frees(t[..i + 1]) == Frees(t[..i]) + [t[i].addr]
  {
    OneTile(t[i]);
    assert t[..i + 1] == t[..i] + [t[i]];
    FreesConcat(t[..i], [t[i]]);
  }

  /** Exactly the released block stops being live. */
  lemma ReleaseLive(h: Heap, i: nat, x: Tile)
    requires WellFormed(h) && i < |h.tiles| && !h.tiles[i].free
    requires !x.free
    ensures x in Release(h, i).tiles <==> x in h.tiles && x != h.tiles[i]
  {
    hide Tiles, Frees, UnitsOf, Coalesced;
    var t, lo, hi := h.tiles, RunStart(h.tiles, i), RunEnd(h.tiles, i);
    TileIsElsewhere(h, i);
    assert t == t[..lo] + t[lo..hi] + t[hi..];
    assert forall k :: lo <= k < hi ==> k == i || t[k].free;
    assert x in t[lo..hi] <==> x == t[i];
  }

  /** A tile occurs only once in the line. */
  lemma TileIsElsewhere(h: Heap, i: nat)
    requires WellFormed(h) && i < |h.tiles|
    ensures h.tiles[i] !in h.tiles[..i] && h.tiles[i] !in h.tiles[i + 1..]
    ensures h.tiles[i] !in h.tiles[..RunStart(h.tiles, i)] && h.tiles[i] !in h.tiles[RunEnd(h.tiles, i)..]
  {
    TilesInside(h.tiles, h.base, h.end);
    forall k | 0 <= k < |h.tiles| && k != i ensures h.tiles[k] != h.tiles[i] {
      if k < i { TilesOrdered(h.tiles, h.base, h.end, k, i); } else { TilesOrdered(h.tiles, h.base, h.end, i, k); }
    }
  }

  lemma ReleaseUnits(h: Heap, i: nat)
    requires WellFormed(h) && i < |h.tiles| && !h.tiles[i].free
    ensures UnitsOf(Release(h, i).tiles, true) == UnitsOf(h.tiles, true) + h.tiles[i].len
    ensures UnitsOf(Release(h, i).tiles, false) == UnitsOf(h.tiles, false) - h.tiles[i].len
  {
    hide UnitsOf, Tiles, Frees;
    var t, lo, hi := h.tiles, RunStart(h.tiles, i), RunEnd(h.tiles, i);
    assert UnitsOf(Release(h, i).tiles, false) == UnitsOf(t, false) - t[i].len by {
      OneTile(Merged(t, i));
      UnitsSplice(t[..lo], [Merged(t, i)], t[hi..], false);
      LiveUnitsOfRun(t, i);
      assert t == t[..lo] + t[lo..hi] + t[hi..];
      UnitsSplice(t[..lo], t[lo..hi], t[hi..], false);
    }
    ReleaseWellFormed(h, i);
    UnitsFillTheLine(t, h.base, h.end);
    UnitsFillTheLine(Release(h, i).tiles, h.base, h.end);
  }

  lemma LiveUnitsOfRun(t: seq<Tile>, i: nat)
    requires i < |t| && !t[i].free
    ensures UnitsOf(t[RunStart(t, i)..RunEnd(t, i)], false) == t[i].len
  {
    var lo, hi := RunStart(t, i), RunEnd(t, i);
    var l := if lo < i then [t[lo]] else [];
    var r := if hi == i + 2 then [t[i + 1]] else [];
    assert t[lo..hi] == l + [t[i]] + r;
    UnitsSplice(l, [t[i]], r, false);
    OneTile(t[lo]);
    OneTile(t[i]);
    OneTile(t[hi - 1]);
  }

  /** A release keeps the rover on the free list exactly when it does not absorb the
      rover as the released block's upper neighbour. */
  lemma ReleaseRover(h: Heap, i: nat)
    requires WellFormed(h) && RoverOnRing(h) && i < |h.tiles| && !h.tiles[i].free
    ensures RoverOnRing(Release(h, i)) <==> !AbsorbsRover(h, i)
  {
    ReleaseRing(h, i);
    var below, above := Frees(h.tiles[..i]), Frees(h.tiles[i + 1..]);
    TilesCut(h.tiles, i, h.base, h.end);
    TilesCut(h.tiles, i + 1, h.base, h.end);
    FreesSorted(h.tiles[..i], h.base, h.tiles[i].addr);
    FreesSorted(h.tiles[i + 1..], StartOf(h.tiles, i + 1, h.end), h.end);
    TilesInside(h.tiles, h.base, h.end);
    if i + 1 < |h.tiles| { TilesOrdered(h.tiles, h.base, h.end, i, i + 1); }
    if RunEnd(h.tiles, i) == i + 2 {
      assert above == [above[0]] + above[1..];
    }
  }

  ghost predicate AbsorbsRover(h: Heap, i: nat)
    requires i < |h.tiles|
  {
    i + 1 < |h.tiles| && h.tiles[i + 1].free && h.tiles[i + 1].addr == h.rover
  }

  // ----- growing -----

  lemma WidenedKeeps(h: Heap, n: nat)
    requires WellFormed(h) && RoverOnRing(h) && 0 < n
    ensures WellFormed(Widened(h, n)) && RoverOnRing(Widened(h, n))
    ensures UnitsOf(Widened(h, n).tiles, false) == UnitsOf(h.tiles, false) + n
  {
    var top := Tile(h.end, n, false);
    OneTile(top);
    TilesConcat(h.tiles, [top], h.base, h.end, h.end + n);
    FreesConcat(h.tiles, [top]);
    UnitsConcat(h.tiles, [top], false);
  }

  lemma GrowKeeps(h: Heap, n: nat)
    requires WellFormed(h) && RoverOnRing(h) && 0 < n
    ensures WellFormed(Grow(h, n)) && RoverOnRing(Grow(h, n))
    ensures UnitsOf(Grow(h, n).tiles, false) == UnitsOf(h.tiles, false)
  {
    WidenedKeeps(h, n);
    ReleaseWellFormed(Widened(h, n), |h.tiles|);
    ReleaseRover(Widened(h, n), |h.tiles|);
    ReleaseUnits(Widened(h, n), |h.tiles|);
  }

  lemma GrowLive(h: Heap, n: nat, x: Tile)
    requires WellFormed(h) && RoverOnRing(h) && 0 < n && !x.free
    ensures x in Grow(h, n).tiles <==> x in h.tiles
  {
    WidenedKeeps(h, n);
    ReleaseLive(Widened(h, n), |h.tiles|, x);
    TilesInside(h.tiles, h.base, h.end);
  }

  /** After growth the free tile at the top alone is big enough. */
  lemma GrowMakesRoom(h: Heap, n: nat)
    requires WellFormed(h) && RoverOnRing(h) && 0 < n
    ensures var t := Grow(h, n).tiles; t != [] && t[|t| - 1].free && t[|t| - 1].len >= n
  {
    var k, w := |h.tiles|, Widened(h, n);
    WidenedKeeps(h, n);
    assert RunEnd(w.tiles, k) == k + 1 && w.tiles[k + 1..] == [];
    assert Grow(h, n).tiles == w.tiles[..RunStart(w.tiles, k)] + [Merged(w.tiles, k)];
    TilesInside(w.tiles, w.base, w.end);
    if RunStart(w.tiles, k) == k - 1 { TilesOrdered(w.tiles, w.base, w.end, k - 1, k); }
  }

  /** Some free tile fits exactly when next fit finds one. */
  lemma NextFitFinds(h: Heap, n: nat)
    requires WellFormed(h)
    ensures NextFit(h, n) < |h.tiles| <==> exists i :: 0 <= i < |h.tiles| && h.tiles[i].free && h.tiles[i].len >= n
  {
    TilesInside(h.tiles, h.base, h.end);
  }
}
