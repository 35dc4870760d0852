/** How block headers in memory represent a line of tiles, and what each group of
    assignments in the allocator does to that representation.

    Memory is a sequence of 8-byte units and addresses are unit indices; a unit is a
    block header (`next`, `len`) or eight payload bytes, as in the union `u_header`. */
module HeapMemory {
  import opened Bytes
  import opened HeapTiles
  import opened HeapTheorems
  import opened HeapRuns

  datatype Unit = Unit(next: Word, len: Word)

  // ----- how memory represents a line of tiles -----

  /** `ring` is one cycle of `next` pointers. */
  ghost predicate Linked(m: seq<Unit>, ring: seq<int>) {
    && ring != []
    && (forall i :: 0 <= i < |ring| ==> 0 < ring[i] < |m|)
    && (forall i :: 0 <= i < |ring| - 1 ==> m[ring[i]].next == ring[i + 1])
    && m[ring[|ring| - 1]].next == ring[0]
  }

  ghost predicate Headed(m: seq<Unit>, t: seq<Tile>) {
    forall i :: 0 <= i < |t| ==> 0 < t[i].addr < |m| && m[t[i].addr].len == t[i].len
  }

  ghost predicate Represents(m: seq<Unit>, h: Heap) {
    && WellFormed(h)
    && h.end <= |m| <= WORD / 8
    && Linked(m, Ring(h))
    && m[h.anchor].len == 0
    && Headed(m, h.tiles)
  }

  /** Every live block of `h` has the payload in `m'` that it had in `m`. */
  ghost predicate SamePayloads(m: seq<Unit>, m': seq<Unit>, h: Heap) {
    && |m'| == |m|
    && forall k, u :: 0 <= k < |h.tiles| && !h.tiles[k].free && h.tiles[k].addr < u < h.tiles[k].End() && 0 <= u < |m|
                      ==> m'[u] == m[u]
  }

  lemma SamePayloadsTrans(m: seq<Unit>, m': seq<Unit>, m'': seq<Unit>, h: Heap, h': Heap)
    requires SamePayloads(m, m', h) && SamePayloads(m', m'', h')
    requires forall x: Tile :: !x.free && x in h.tiles ==> x in h'.tiles
    ensures SamePayloads(m, m'', h)
  {
    forall k, u | 0 <= k < |h.tiles| && !h.tiles[k].free && h.tiles[k].addr < u < h.tiles[k].End() && 0 <= u < |m|
      ensures m''[u] == m[u]
    {
      assert h.tiles[k] in h'.tiles;
    }
  }

  lemma SameThroughGrowth(m: seq<Unit>, m': seq<Unit>, m'': seq<Unit>, h: Heap, n: nat)
    requires WellFormed(h) && RoverOnRing(h) && 0 < n
    requires SamePayloads(m, m', h) && SamePayloads(m', m'', Grow(h, n))
    ensures SamePayloads(m, m'', h)
  {
    forall x: Tile | !x.free && x in h.tiles ensures x in Grow(h, n).tiles { GrowLive(h, n, x); }
    SamePayloadsTrans(m, m', m'', h, Grow(h, n));
  }

  // ----- the ring in address order -----

  ghost predicate Rising(ring: seq<int>) {
    forall i, j :: 0 <= i < j < |ring| ==> ring[i] < ring[j]
  }

  lemma RingRises(h: Heap)
    requires WellFormed(h)
    ensures Rising(Ring(h))
    ensures forall i :: 0 < i < |Ring(h)| ==> h.base <= Ring(h)[i] < h.end
  {
    FreesSorted(h.tiles, h.base, h.end);
  }

  lemma RingHolds(h: Heap, k: nat)
    requires k < |h.tiles| && h.tiles[k].free
    ensures h.tiles[k].addr in Ring(h)
  {
    FreesAround(h.tiles, k);
  }

  function Succ(ring: seq<int>, c: nat): int
    requires c < |ring|
  {
    if c + 1 < |ring| then ring[c + 1] else ring[0]
  }

  /** The last node below `block`, which is not itself on the ring. */
  ghost predicate Precedes(ring: seq<int>, p: nat, block: int) {
    && p < |ring|
    && (forall i :: 0 <= i <= p ==> ring[i] < block)
    && (forall i :: p < i < |ring| ==> block < ring[i])
  }

  /** The search for a block's place stops at its predecessor and nowhere else. */
  lemma StopsAtPredecessor(ring: seq<int>, p: nat, c: nat, block: int)
    requires Rising(ring) && Precedes(ring, p, block) && c < |ring|
    ensures var cur, next := ring[c], Succ(ring, c);
      c == p <==> (cur < block < next || ((block > cur || block < next) && cur >= next))
  {
  }

  lemma PredecessorExists(h: Heap, k: nat)
    requires WellFormed(h) && k < |h.tiles| && !h.tiles[k].free
    ensures Precedes(Ring(h), |Frees(h.tiles[..k])|, h.tiles[k].addr)
  {
    FreesAround(h.tiles, k);
    TilesCut(h.tiles, k, h.base, h.end);
    TilesCut(h.tiles, k + 1, h.base, h.end);
    TilesInside(h.tiles, h.base, h.end);
    FreesSorted(h.tiles[..k], h.base, h.tiles[k].addr);
    FreesSorted(h.tiles[k + 1..], StartOf(h.tiles, k + 1, h.end), h.end);
    if k + 1 < |h.tiles| { TilesOrdered(h.tiles, h.base, h.end, k, k + 1); }
  }

  // ----- relinking -----

  lemma NextIsSucc(m: seq<Unit>, ring: seq<int>, c: nat)
    requires Linked(m, ring) && c < |ring|
    ensures m[ring[c]].next == Succ(ring, c)
  {
  }

  /** A new node `b` after node `p`. */
  lemma LinkInsert(m: seq<Unit>, m': seq<Unit>, ring: seq<int>, p: nat, b: int)
    requires Linked(m, ring) && Rising(ring) && p < |ring| && b !in ring && 0 < b < |m|
    requires |m'| == |m| && forall u :: 0 <= u < |m| && u != b && u != ring[p] ==> m'[u].next == m[u].next
    requires m'[ring[p]].next == b && m'[b].next == Succ(ring, p)
    ensures Linked(m', ring[..p + 1] + [b] + ring[p + 1..])
  {
  }

  /** Node `p + 1` goes away. */
  lemma LinkRemove(m: seq<Unit>, m': seq<Unit>, ring: seq<int>, p: nat)
    requires Linked(m, ring) && Rising(ring) && p + 1 < |ring|
    requires |m'| == |m| && forall i :: 0 <= i < |ring| && i != p ==> m'[ring[i]].next == m[ring[i]].next
    requires m'[ring[p]].next == Succ(ring, p + 1)
    ensures Linked(m', ring[..p + 1] + ring[p + 2..])
  {
  }

  /** Node `b` takes the place of node `p + 1`. */
  lemma LinkReplace(m: seq<Unit>, m': seq<Unit>, ring: seq<int>, p: nat, b: int)
    requires Linked(m, ring) && Rising(ring) && p + 1 < |ring| && b !in ring && 0 < b < |m|
    requires |m'| == |m| && forall u :: 0 <= u < |m| && u != b && u != ring[p] ==> m'[u].next == m[u].next
    requires m'[ring[p]].next == b && m'[b].next == Succ(ring, p + 1)
    ensures Linked(m', ring[..p + 1] + [b] + ring[p + 2..])
  {
  }

  // ----- freeing, in memory -----

  /** What `kfree`'s assignments leave behind, given the node `cur` below the block. */
  ghost predicate FreeStored(m: seq<Unit>, m': seq<Unit>, cur: int, block: int) {
    && 0 <= cur < |m| && 0 <= block < |m|
    && var next := m[cur].next;
    && next < |m| == |m'|
    && (forall u :: 0 <= u < |m| && u != block && u != cur ==> m'[u] == m[u])
    && m'[block].next == (if block + m[block].len == next then m[next].next else next)
    && m'[block].len == m[block].len + (if block + m[block].len == next then m[next].len else 0)
    && m'[cur].next == (if cur + m[cur].len == block then m'[block].next else block)
    && m'[cur].len == m[cur].len + (if cur + m[cur].len == block then m'[block].len else 0)
  }

  /** The block touches the next free block exactly when the tile above it is free. */
  lemma UpperMerge(m: seq<Unit>, h: Heap, k: nat, p: nat)
    requires Represents(m, h) && k < |h.tiles| && !h.tiles[k].free
    requires p == |Frees(h.tiles[..k])| && p < |Ring(h)|
    ensures h.tiles[k].End() == Succ(Ring(h), p) <==> RunEnd(h.tiles, k) == k + 2
  {
    var t, above := h.tiles, Frees(h.tiles[k + 1..]);
    ReleaseRing(h, k);
    TilesInside(t, h.base, h.end);
    if above != [] {
      var i := FreeTileAt(t[k + 1..], 0);
      assert t[k + 1..][i] == t[k + 1 + i];
      TilesOrdered(t, h.base, h.end, k, k + 1);
      if i > 0 { TilesOrdered(t, h.base, h.end, k + 1, k + 1 + i); }
    }
  }

  /** The node below touches the block exactly when the tile below it is free. */
  lemma LowerMerge(m: seq<Unit>, h: Heap, k: nat, p: nat)
    requires Represents(m, h) && k < |h.tiles| && !h.tiles[k].free
    requires p == |Frees(h.tiles[..k])| && p < |Ring(h)|
    ensures Ring(h)[p] + m[Ring(h)[p]].len == h.tiles[k].addr <==> RunStart(h.tiles, k) == k - 1
  {
    var t, below := h.tiles, Frees(h.tiles[..k]);
    ReleaseRing(h, k);
    TilesInside(t, h.base, h.end);
    if below != [] {
      var i := FreeTileAt(t[..k], |below| - 1);
      assert t[..k][i] == t[i];
      TilesOrdered(t, h.base, h.end, k - 1, k);
      if i < k - 1 { TilesOrdered(t, h.base, h.end, i, k - 1); }
    }
  }

  lemma RingAfterRelease(h: Heap, k: nat, p: nat)
    requires k < |h.tiles| && !h.tiles[k].free
    requires p == |Frees(h.tiles[..k])|
    ensures p < |Ring(h)| && (RunEnd(h.tiles, k) == k + 2 ==> p + 1 < |Ring(h)|)
    ensures Ring(Release(h, k)) == Ring(h)[..p + 1]
                                   + (if RunStart(h.tiles, k) == k then [h.tiles[k].addr] else [])
                                   + (if RunEnd(h.tiles, k) == k + 2 then Ring(h)[p + 2..] else Ring(h)[p + 1..])
  {
    ReleaseRing(h, k);
    var below, above := Frees(h.tiles[..k]), Frees(h.tiles[k + 1..]);
    assert Ring(h)[..p + 1] == [h.anchor] + below && Ring(h)[p + 1..] == above;
    if RunEnd(h.tiles, k) == k + 2 { assert Ring(h)[p + 2..] == above[1..]; }
  }

  lemma FreeRelinks(m: seq<Unit>, m': seq<Unit>, h: Heap, k: nat, p: nat)
    requires Represents(m, h) && k < |h.tiles| && !h.tiles[k].free
    requires p == |Frees(h.tiles[..k])| && p < |Ring(h)| && FreeStored(m, m', Ring(h)[p], h.tiles[k].addr)
    ensures Linked(m', Ring(Release(h, k)))
  {
    var ring, b := Ring(h), h.tiles[k].addr;
    RingAfterRelease(h, k, p);
    UpperMerge(m, h, k, p);
    LowerMerge(m, h, k, p);
    assert Rising(ring) && Precedes(ring, p, b) && 0 < b < |m| by {
      RingRises(h);
      PredecessorExists(h, k);
    }
    FreeRelinksRing(m, m', ring, p, b, Ring(Release(h, k)));
  }

  /** The four ways a block joins the ring, by which of its sides it touches. */
  lemma FreeRelinksRing(m: seq<Unit>, m': seq<Unit>, ring: seq<int>, p: nat, b: int, ring': seq<int>)
    requires Linked(m, ring) && Rising(ring) && Precedes(ring, p, b) && 0 < b < |m|
    requires FreeStored(m, m', ring[p], b)
    requires b + m[b].len == Succ(ring, p) ==> p + 1 < |ring|
    requires ring' == ring[..p + 1]
                      + (if ring[p] + m[ring[p]].len == b then [] else [b])
                      + (if b + m[b].len == Succ(ring, p) then ring[p + 2..] else ring[p + 1..])
    ensures Linked(m', ring')
  {
    assert m[ring[p]].next == Succ(ring, p);
    var up, down := b + m[b].len == Succ(ring, p), ring[p] + m[ring[p]].len == b;
    if up && down {
      LinkRemove(m, m', ring, p);
      assert ring' == ring[..p + 1] + ring[p + 2..];
    } else if up {
      LinkReplace(m, m', ring, p, b);
    } else if down {
      assert ring' == ring;
      assert forall i :: 0 <= i < |ring| ==> m'[ring[i]].next == m[ring[i]].next;
    } else {
      LinkInsert(m, m', ring, p, b);
    }
  }

  lemma FreeReheads(m: seq<Unit>, m': seq<Unit>, h: Heap, k: nat, p: nat)
    requires Represents(m, h) && k < |h.tiles| && !h.tiles[k].free
    requires p == |Frees(h.tiles[..k])| && p < |Ring(h)| && FreeStored(m, m', Ring(h)[p], h.tiles[k].addr)
    ensures Headed(m', Release(h, k).tiles) && m'[h.anchor].len == 0
  {
    var t, lo, hi := h.tiles, RunStart(h.tiles, k), RunEnd(h.tiles, k);
    OthersKeepHeaders(m, m', h, k, p);
    MergedHeader(m, m', h, k, p);
    TilesInside(t, h.base, h.end);
    var t' := Release(h, k).tiles;
    forall i | 0 <= i < |t'| ensures 0 < t'[i].addr < |m'| && m'[t'[i].addr].len == t'[i].len {
      assert t'[i] == if i < lo then t[i] else if i == lo then Merged(t, k) else t[i - lo - 1 + hi];
    }
  }

  lemma MergedHeader(m: seq<Unit>, m': seq<Unit>, h: Heap, k: nat, p: nat)
    requires Represents(m, h) && k < |h.tiles| && !h.tiles[k].free
    requires p == |Frees(h.tiles[..k])| && p < |Ring(h)| && FreeStored(m, m', Ring(h)[p], h.tiles[k].addr)
    ensures m'[Merged(h.tiles, k).addr].len == Merged(h.tiles, k).len
  {
    var t := h.tiles;
    ReleaseRing(h, k);
    UpperMerge(m, h, k, p);
    LowerMerge(m, h, k, p);
    assert m[Ring(h)[p]].next == Succ(Ring(h), p);
    if k + 1 < |t| { TilesOrdered(t, h.base, h.end, k, k + 1); }
    if k > 0 { TilesOrdered(t, h.base, h.end, k - 1, k); }
    TilesInside(t, h.base, h.end);
  }

  lemma OthersKeepHeaders(m: seq<Unit>, m': seq<Unit>, h: Heap, k: nat, p: nat)
    requires Represents(m, h) && k < |h.tiles| && !h.tiles[k].free
    requires p == |Frees(h.tiles[..k])| && p < |Ring(h)| && FreeStored(m, m', Ring(h)[p], h.tiles[k].addr)
    ensures forall i :: 0 <= i < |h.tiles| && (i < RunStart(h.tiles, k) || RunEnd(h.tiles, k) <= i)
                        ==> m'[h.tiles[i].addr].len == m[h.tiles[i].addr].len
    ensures m'[h.anchor].len == 0
  {
    var t, lo := h.tiles, RunStart(h.tiles, k);
    ReleaseRing(h, k);
    LowerMerge(m, h, k, p);
    TilesInside(t, h.base, h.end);
    forall i | 0 <= i < |t| && (i < lo || RunEnd(t, k) <= i) ensures m'[t[i].addr].len == m[t[i].addr].len {
      if i < k { TilesOrdered(t, h.base, h.end, i, k); } else { TilesOrdered(t, h.base, h.end, k, i); }
      if i < lo < k { TilesOrdered(t, h.base, h.end, i, lo); }
      if lo < k < i { TilesOrdered(t, h.base, h.end, lo, i); }
    }
  }

  /** A unit written by the allocator is a header, never inside a live payload. */
  lemma FreeSparesPayloads(m: seq<Unit>, m': seq<Unit>, h: Heap, k: nat, p: nat)
    requires Represents(m, h) && k < |h.tiles| && !h.tiles[k].free
    requires p == |Frees(h.tiles[..k])| && p < |Ring(h)| && FreeStored(m, m', Ring(h)[p], h.tiles[k].addr)
    ensures SamePayloads(m, m', h)
  {
    var t := h.tiles;
    TilesInside(t, h.base, h.end);
    forall j, u | 0 <= j < |t| && !t[j].free && t[j].addr < u < t[j].End() && 0 <= u < |m| ensures m'[u] == m[u] {
      HeadersOutsidePayloads(h, k, j, u);
      RingOutsidePayloads(h, p, j, u);
    }
  }

  lemma HeadersOutsidePayloads(h: Heap, k: nat, j: nat, u: int)
    requires WellFormed(h) && k < |h.tiles| && j < |h.tiles| && h.tiles[j].addr < u < h.tiles[j].End()
    ensures h.tiles[k].addr != u
  {
    TilesInside(h.tiles, h.base, h.end);
    if k < j { TilesOrdered(h.tiles, h.base, h.end, k, j); }
    if j < k { TilesOrdered(h.tiles, h.base, h.end, j, k); }
  }

  lemma RingOutsidePayloads(h: Heap, p: nat, j: nat, u: int)
    requires WellFormed(h) && p < |Ring(h)| && j < |h.tiles| && h.tiles[j].addr < u < h.tiles[j].End()
    ensures Ring(h)[p] != u
  {
    if p == 0 {
      TilesInside(h.tiles, h.base, h.end);
    } else {
      var k := FreeTileAt(h.tiles, p - 1);
      HeadersOutsidePayloads(h, k, j, u);
    }
  }

  lemma FreeRepresented(m: seq<Unit>, m': seq<Unit>, h: Heap, k: nat, p: nat)
    requires Represents(m, h) && k < |h.tiles| && !h.tiles[k].free
    requires p == |Frees(h.tiles[..k])| && p < |Ring(h)| && FreeStored(m, m', Ring(h)[p], h.tiles[k].addr)
    ensures Represents(m', Release(h, k)) && SamePayloads(m, m', h)
  {
    ReleaseWellFormed(h, k);
    FreeRelinks(m, m', h, k, p);
    FreeReheads(m, m', h, k, p);
    FreeSparesPayloads(m, m', h, k, p);
  }

  // ----- taking, in memory -----

  /** What `kmalloc`'s assignments leave behind once node `cur` after `prev` fits. */
  ghost predicate TakeStored(m: seq<Unit>, m': seq<Unit>, prev: int, cur: int, n: nat) {
    && 0 <= prev < |m| && 0 <= cur < |m| == |m'|
    && if m[cur].len == n then
         && (forall u :: 0 <= u < |m| && u != prev ==> m'[u] == m[u])
         && m'[prev].next == m[cur].next && m'[prev].len == m[prev].len
       else
         var at := cur + m[cur].len - n;
         && cur < at < |m|
         && (forall u :: 0 <= u < |m| && u != cur && u != at ==> m'[u] == m[u])
         && m'[cur].next == m[cur].next && m'[cur].len == m[cur].len - n
         && m'[at].len == n
  }

  lemma RingAfterTake(h: Heap, i: nat, n: nat, c: nat)
    requires i < |h.tiles| && h.tiles[i].free && h.tiles[i].len >= n > 0 && c == |Frees(h.tiles[..i])|
    ensures c + 1 < |Ring(h)| && Ring(h)[c + 1] == h.tiles[i].addr
    ensures Ring(Take(h, i, n)) == if h.tiles[i].len == n then Ring(h)[..c + 1] + Ring(h)[c + 2..] else Ring(h)
  {
    TakeRing(h, i, n);
    assert Ring(h)[..c + 1] == [h.anchor] + Frees(h.tiles[..i]) && Ring(h)[c + 2..] == Frees(h.tiles[i + 1..]);
  }

  lemma TakeRelinks(m: seq<Unit>, m': seq<Unit>, h: Heap, i: nat, n: nat, c: nat)
    requires Represents(m, h) && i < |h.tiles| && h.tiles[i].free && h.tiles[i].len >= n > 0
    requires c == |Frees(h.tiles[..i])| && c + 1 < |Ring(h)|
    requires TakeStored(m, m', Ring(h)[c], h.tiles[i].addr, n)
    ensures Linked(m', Ring(Take(h, i, n)))
  {
    var ring, cur := Ring(h), h.tiles[i].addr;
    RingAfterTake(h, i, n, c);
    RingRises(h);
    if m[cur].len == n {
      assert m[ring[c + 1]].next == Succ(ring, c + 1);
      LinkRemove(m, m', ring, c);
    } else {
      forall j | 0 <= j < |ring| ensures m'[ring[j]].next == m[ring[j]].next {
        RingOutsidePayloads(h, j, i, cur + m[cur].len - n);
      }
    }
  }

  lemma TakeReheads(m: seq<Unit>, m': seq<Unit>, h: Heap, i: nat, n: nat, prev: int)
    requires Represents(m, h) && i < |h.tiles| && h.tiles[i].free && h.tiles[i].len >= n > 0
    requires TakeStored(m, m', prev, h.tiles[i].addr, n)
    ensures Headed(m', Take(h, i, n).tiles) && m'[h.anchor].len == 0
  {
    hide Tiles, Frees, Coalesced, Linked;
    var t, cut := h.tiles, Cut(h.tiles[i], n);
    TilesInside(t, h.base, h.end);
    forall j | 0 <= j < |t| && j != i ensures m'[t[j].addr].len == t[j].len {
      if j < i { TilesOrdered(t, h.base, h.end, j, i); } else { TilesOrdered(t, h.base, h.end, i, j); }
    }
    var t' := Take(h, i, n).tiles;
    forall j | 0 <= j < |t'| ensures 0 < t'[j].addr < |m'| && m'[t'[j].addr].len == t'[j].len {
      assert t'[j] == if j < i then t[j] else if j < i + |cut| then cut[j - i] else t[j - |cut| + 1];
    }
  }

  lemma TakeSparesPayloads(m: seq<Unit>, m': seq<Unit>, h: Heap, i: nat, n: nat, c: nat)
    requires Represents(m, h) && i < |h.tiles| && h.tiles[i].free && h.tiles[i].len >= n > 0
    requires c < |Ring(h)| && TakeStored(m, m', Ring(h)[c], h.tiles[i].addr, n)
    ensures SamePayloads(m, m', h)
  {
    var t := h.tiles;
    forall j, u | 0 <= j < |t| && !t[j].free && t[j].addr < u < t[j].End() && 0 <= u < |m| ensures m'[u] == m[u] {
      RingOutsidePayloads(h, c, j, u);
      HeadersOutsidePayloads(h, i, j, u);
      TilesInside(t, h.base, h.end);
      if j < i { TilesOrdered(t, h.base, h.end, j, i); } else { TilesOrdered(t, h.base, h.end, i, j); }
    }
  }

  lemma TakeRepresented(m: seq<Unit>, m': seq<Unit>, h: Heap, i: nat, n: nat, c: nat)
    requires Represents(m, h) && i < |h.tiles| && h.tiles[i].free && h.tiles[i].len >= n > 0
    requires c == |Frees(h.tiles[..i])| && c + 1 < |Ring(h)|
    requires TakeStored(m, m', Ring(h)[c], h.tiles[i].addr, n)
    ensures Represents(m', Take(h, i, n)) && SamePayloads(m, m', h)
    ensures Below(h, i) == Ring(h)[c]
  {
    TakeWellFormed(h, i, n);
    TakeRelinks(m, m', h, i, n, c);
    TakeReheads(m, m', h, i, n, Ring(h)[c]);
    TakeSparesPayloads(m, m', h, i, n, c);
    TakeRing(h, i, n);
  }

  // ----- growing, in memory -----

  lemma WidenedRepresented(m: seq<Unit>, m': seq<Unit>, h: Heap, n: nat)
    requires Represents(m, h) && RoverOnRing(h) && 0 < n && h.end + n <= |m|
    requires |m'| == |m| && 0 <= h.end && m'[h.end].len == n && forall u :: 0 <= u < |m| && u != h.end ==> m'[u] == m[u]
    ensures Represents(m', Widened(h, n)) && SamePayloads(m, m', h)
  {
    WidenedKeeps(h, n);
    FreesConcat(h.tiles, [Tile(h.end, n, false)]);
    assert Ring(Widened(h, n)) == Ring(h);
    RingRises(h);
    TilesInside(h.tiles, h.base, h.end);
    TilesSpan(h.tiles, h.base, h.end);
  }

  /** The new units, dressed up as a live block, can be freed like any other. */
  lemma WidenedIsHeld(h: Heap, n: nat)
    requires WellFormed(h) && RoverOnRing(h) && 0 < n
    ensures RoverOnRing(Widened(h, n)) && Held(Widened(h, n), h.end + 1)
    ensures Free(Widened(h, n), h.end + 1) == Grow(h, n)
    ensures WellFormed(Grow(h, n)) && RoverOnRing(Grow(h, n))
  {
    WidenedKeeps(h, n);
    LiveIndex(Widened(h, n), |h.tiles|);
    TilesSpan(h.tiles, h.base, h.end);
    GrowKeeps(h, n);
  }

  // ----- the next-fit lap -----

  /** No free block strictly between `lo` and `hi` has room for `n` units. */
  ghost predicate NoFit(h: Heap, n: nat, lo: int, hi: int) {
    forall j :: 0 <= j < |h.tiles| && h.tiles[j].free && lo < h.tiles[j].addr < hi ==> h.tiles[j].len < n
  }

  /** What the lap has ruled out on reaching `cur`: everything from the rover up to it,
      going past the top of the heap and round by the anchor if need be. */
  ghost predicate LapSoFar(h: Heap, n: nat, cur: int) {
    if cur > h.rover then NoFit(h, n, h.rover, cur)
    else NoFit(h, n, h.rover, h.end) && NoFit(h, n, NULL, cur)
  }

  lemma LapStarts(h: Heap, n: nat, r: nat)
    requires WellFormed(h) && r < |Ring(h)| && Ring(h)[r] == h.rover
    ensures LapSoFar(h, n, Succ(Ring(h), r))
  {
    NothingBetween(h, r);
    RingRises(h);
  }

  /** Between a node and its successor there is no free block. */
  lemma NothingBetween(h: Heap, c: nat)
    requires WellFormed(h) && c < |Ring(h)|
    ensures forall j :: 0 <= j < |h.tiles| && h.tiles[j].free ==>
              var a := h.tiles[j].addr;
              h.anchor < a < h.end && (a > Ring(h)[c] ==> c + 1 < |Ring(h)| && a >= Succ(Ring(h), c))
  {
    RingRises(h);
    TilesInside(h.tiles, h.base, h.end);
    forall j | 0 <= j < |h.tiles| && h.tiles[j].free
      ensures h.tiles[j].addr > Ring(h)[c] ==> c + 1 < |Ring(h)| && h.tiles[j].addr >= Succ(Ring(h), c)
    {
      RingHolds(h, j);
      var d :| 0 <= d < |Ring(h)| && Ring(h)[d] == h.tiles[j].addr;
      if c < d && c + 1 < d { assert Ring(h)[c + 1] < Ring(h)[d]; }
    }
  }

  lemma LapMovesOn(h: Heap, n: nat, c: nat)
    requires WellFormed(h) && c < |Ring(h)| && Ring(h)[c] != h.rover && RoverOnRing(h)
    requires LapSoFar(h, n, Ring(h)[c])
    requires forall j :: 0 <= j < |h.tiles| && h.tiles[j].free && h.tiles[j].addr == Ring(h)[c] ==> h.tiles[j].len < n
    ensures LapSoFar(h, n, Succ(Ring(h), c))
  {
    NothingBetween(h, c);
    RingRises(h);
    var r :| 0 <= r < |Ring(h)| && Ring(h)[r] == h.rover;
  }

  /** A full lap without a fit means that nothing fits anywhere. */
  lemma LapEnds(h: Heap, n: nat)
    requires WellFormed(h) && LapSoFar(h, n, h.rover)
    requires forall j :: 0 <= j < |h.tiles| && h.tiles[j].free && h.tiles[j].addr == h.rover ==> h.tiles[j].len < n
    ensures NextFit(h, n) == |h.tiles|
  {
    TilesInside(h.tiles, h.base, h.end);
  }

  /** The first fitting node of the lap is the next fit. */
  lemma LapFinds(h: Heap, n: nat, i: nat)
    requires WellFormed(h) && i < |h.tiles| && h.tiles[i].free && h.tiles[i].len >= n
    requires LapSoFar(h, n, h.tiles[i].addr)
    ensures NextFit(h, n) == i
  {
    TilesInside(h.tiles, h.base, h.end);
    var r, r0 := FirstFit(h.tiles, n, h.rover), FirstFit(h.tiles, n, NULL);
    if r < i { TilesOrdered(h.tiles, h.base, h.end, r, i); }
    if r0 < i { TilesOrdered(h.tiles, h.base, h.end, r0, i); }
  }

  lemma NodeLen(m: seq<Unit>, h: Heap, c: nat)
    requires Represents(m, h) && c < |Ring(h)|
    ensures forall j :: 0 <= j < |h.tiles| && h.tiles[j].addr == Ring(h)[c] ==> h.tiles[j].len == m[Ring(h)[c]].len
  {
  }

  function SuccIndex(h: Heap, c: nat): nat {
    if c + 1 < |Ring(h)| then c + 1 else 0
  }

  /** The walk stands at node `c`, having come from node `p`, and found nothing so far. */
  ghost predicate LapAt(h: Heap, n: nat, p: nat, c: nat, prev: int, cur: int) {
    && p < |Ring(h)| && c == SuccIndex(h, p)
    && prev == Ring(h)[p] && cur == Ring(h)[c]
    && LapSoFar(h, n, cur)
  }

  lemma LapBegins(m: seq<Unit>, h: Heap, n: nat) returns (r: nat)
    requires Represents(m, h) && RoverOnRing(h)
    ensures r < |Ring(h)| && Ring(h)[r] == h.rover
    ensures 0 < h.rover < |m| && 0 < m[h.rover].next < |m|
    ensures LapAt(h, n, r, SuccIndex(h, r), h.rover, m[h.rover].next)
  {
    r :| 0 <= r < |Ring(h)| && Ring(h)[r] == h.rover;
    NextIsSucc(m, Ring(h), r);
    LapStarts(h, n, r);
  }

  lemma LapGoesOn(m: seq<Unit>, h: Heap, n: nat, p: nat, c: nat, prev: int, cur: int)
    requires Represents(m, h) && RoverOnRing(h) && LapAt(h, n, p, c, prev, cur)
    requires cur != h.rover && m[cur].len < n
    ensures 0 < m[cur].next < |m|
    ensures LapAt(h, n, c, SuccIndex(h, c), cur, m[cur].next)
  {
    NodeLen(m, h, c);
    NextIsSucc(m, Ring(h), c);
    LapMovesOn(h, n, c);
  }

  lemma LapFails(m: seq<Unit>, h: Heap, n: nat, p: nat, c: nat, prev: int)
    requires Represents(m, h) && LapAt(h, n, p, c, prev, h.rover) && m[h.rover].len < n
    ensures NextFit(h, n) == |h.tiles|
  {
    NodeLen(m, h, c);
    LapEnds(h, n);
  }

  lemma LapSucceeds(m: seq<Unit>, h: Heap, n: nat, p: nat, c: nat, prev: int, cur: int) returns (i: nat)
    requires Represents(m, h) && LapAt(h, n, p, c, prev, cur) && m[cur].len >= n > 0
    ensures c == p + 1 && i < |h.tiles| && i == NextFit(h, n)
    ensures h.tiles[i].addr == cur && p == |Frees(h.tiles[..i])|
  {
    i := FreeTileAt(h.tiles, c - 1);
    TilesInside(h.tiles, h.base, h.end);
    LapFinds(h, n, i);
  }

  lemma NodeLenIsSmall(m: seq<Unit>, h: Heap, c: nat)
    requires Represents(m, h) && c < |Ring(h)|
    ensures 8 * m[Ring(h)[c]].len < WORD
  {
    TilesInside(h.tiles, h.base, h.end);
    if c > 0 { var i := FreeTileAt(h.tiles, c - 1); }
  }

  /** Linking a block in stays inside memory and its sums of lengths do not wrap around. */
  lemma LinkingIsSafe(m: seq<Unit>, h: Heap, k: nat, p: nat)
    requires Represents(m, h) && k < |h.tiles| && !h.tiles[k].free
    requires p == |Frees(h.tiles[..k])| && p < |Ring(h)|
    ensures var cur, block := Ring(h)[p], h.tiles[k].addr;
      && 0 <= cur < |m| && 0 <= block < |m| && cur != block
      && m[cur].next < |m| && m[cur].next != block
      && m[cur].len + m[block].len + m[m[cur].next].len < WORD
  {
    PredecessorExists(h, k);
    NextIsSucc(m, Ring(h), p);
    NodeLenIsSmall(m, h, p);
    NodeLenIsSmall(m, h, SuccIndex(h, p));
    TilesInside(h.tiles, h.base, h.end);
  }
}
