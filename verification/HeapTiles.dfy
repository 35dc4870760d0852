/** The heap seen as a line of tiles: every unit between the heap bottom and the
    heap end belongs to exactly one tile, and a tile is either free or live.
    Addresses count 8-byte header units, so a block of `len` units at `addr`
    occupies `addr .. addr + len`, its own header included.

    `Malloc`, `Release` and `Realloc` say what the allocator's calls do to such a
    line without any pointers; the module Allocator proves that the pointer code
    does exactly this. */
module HeapTiles {
  import opened Bytes

  const NULL := 0
  const NBALLOC := 1024

  datatype Tile = Tile(addr: int, len: int, free: bool) {
    function End(): int { addr + len }
  }

  /** `rover` is the address where the next search starts: a free block, or the
      zero-length list anchor that lies below the heap. */
  datatype Heap = Heap(anchor: int, base: int, end: int, tiles: seq<Tile>, rover: int)

  // ----- lines of tiles -----

  ghost predicate Tiles(t: seq<Tile>, lo: int, hi: int) {
    if t == [] then lo == hi
    else t[0].addr == lo && t[0].len > 0 && Tiles(t[1..], t[0].End(), hi)
  }

  /** No two neighbouring tiles are both free: free space is maximally coalesced. */
  ghost predicate Coalesced(t: seq<Tile>) {
    forall i {:trigger t[i].free} :: 0 < i < |t| ==> !(t[i - 1].free && t[i].free)
  }

  function Frees(t: seq<Tile>): seq<int> {
    if t == [] then [] else (if t[0].free then [t[0].addr] else []) + Frees(t[1..])
  }

  function UnitsOf(t: seq<Tile>, free: bool): int {
    if t == [] then 0 else (if t[0].free == free then t[0].len else 0) + UnitsOf(t[1..], free)
  }

  lemma {:induction false} TilesConcat(a: seq<Tile>, b: seq<Tile>, lo: int, mid: int, hi: int)
    requires Tiles(a, lo, mid) && Tiles(b, mid, hi)
    ensures Tiles(a + b, lo, hi)
  {
    if a == [] {
      assert a + b == b;
    } else {
      assert (a + b)[1..] == a[1..] + b;
      TilesConcat(a[1..], b, a[0].End(), mid, hi);
    }
  }

  /** Where the tile at index `k` starts (the end of the line when `k` is past it). */
  function StartOf(t: seq<Tile>, k: nat, hi: int): int
    requires k <= |t|
  {
    if k < |t| then t[k].addr else hi
  }

  lemma {:induction false} TilesCut(t: seq<Tile>, k: nat, lo: int, hi: int)
    requires Tiles(t, lo, hi) && k <= |t|
    ensures Tiles(t[..k], lo, StartOf(t, k, hi)) && Tiles(t[k..], StartOf(t, k, hi), hi)
    ensures lo <= StartOf(t, k, hi) <= hi
  {
    if k == 0 {
      assert t[..0] == [] && t[0..] == t;
      if t != [] { TilesSpan(t, lo, hi); }
    } else {
      TilesCut(t[1..], k - 1, t[0].End(), hi);
      assert t[..k][1..] == t[1..][..k - 1] && t[k..] == t[1..][k - 1..];
    }
  }

  lemma {:induction false} TilesSpan(t: seq<Tile>, lo: int, hi: int)
    requires Tiles(t, lo, hi)
    ensures lo + |t| <= hi
  {
    if t != [] { TilesSpan(t[1..], t[0].End(), hi); }
  }

  lemma {:induction false} TilesInside(t: seq<Tile>, lo: int, hi: int)
    requires Tiles(t, lo, hi)
    ensures forall i :: 0 <= i < |t| ==> lo <= t[i].addr && t[i].len > 0 && t[i].End() <= hi
  {
    TilesSpan(t, lo, hi);
    if t != [] {
      TilesSpan(t[1..], t[0].End(), hi);
      TilesInside(t[1..], t[0].End(), hi);
      assert forall i :: 0 < i < |t| ==> t[i] == t[1..][i - 1];
    }
  }

  /** Tiles are in address order and do not overlap. */
  lemma {:induction false} TilesOrdered(t: seq<Tile>, lo: int, hi: int, i: nat, j: nat)
    requires Tiles(t, lo, hi) && i < j < |t|
    ensures t[i].End() <= t[j].addr
    ensures j == i + 1 ==> t[i].End() == t[j].addr
  {
    if i == 0 {
      TilesInside(t[1..], t[0].End(), hi);
      assert t[j] == t[1..][j - 1];
    } else {
      TilesOrdered(t[1..], t[0].End(), hi, i - 1, j - 1);
    }
  }

  lemma {:induction false} TilesTop(t: seq<Tile>, lo: int, hi: int)
    requires Tiles(t, lo, hi) && t != []
    ensures t[|t| - 1].End() == hi
  {
    if |t| > 1 { TilesTop(t[1..], t[0].End(), hi); }
  }

  lemma {:induction false} FreesConcat(a: seq<Tile>, b: seq<Tile>)
    ensures Frees(a + b) == Frees(a) + Frees(b)
  {
    if a == [] {
      assert a + b == b;
    } else {
      assert (a + b)[0] == a[0] && (a + b)[1..] == a[1..] + b;
      FreesConcat(a[1..], b);
    }
  }

  lemma {:induction false} UnitsConcat(a: seq<Tile>, b: seq<Tile>, free: bool)
    ensures UnitsOf(a + b, free) == UnitsOf(a, free) + UnitsOf(b, free)
  {
    if a == [] {
      assert a + b == b;
    } else {
      assert (a + b)[1..] == a[1..] + b;
      UnitsConcat(a[1..], b, free);
    }
  }

  // A line cut in three: what holds of the parts, added up, holds of the line.

  lemma TilesSplice(a: seq<Tile>, m: seq<Tile>, b: seq<Tile>, lo: int, p: int, q: int, hi: int)
    requires Tiles(a, lo, p) && Tiles(m, p, q) && Tiles(b, q, hi)
    ensures Tiles(a + m + b, lo, hi)
  {
    TilesConcat(a, m, lo, p, q);
    TilesConcat(a + m, b, lo, q, hi);
  }

  lemma FreesSplice(a: seq<Tile>, m: seq<Tile>, b: seq<Tile>)
    ensures Frees(a + m + b) == Frees(a) + Frees(m) + Frees(b)
  {
    FreesConcat(a, m);
    FreesConcat(a + m, b);
  }

  lemma UnitsSplice(a: seq<Tile>, m: seq<Tile>, b: seq<Tile>, free: bool)
    ensures UnitsOf(a + m + b, free) == UnitsOf(a, free) + UnitsOf(m, free) + UnitsOf(b, free)
  {
    UnitsConcat(a, m, free);
    UnitsConcat(a + m, b, free);
  }

  /** One tile, and two adjacent ones, on their own. */
  lemma OneTile(t: Tile)
    ensures Frees([t]) == if t.free then [t.addr] else []
    ensures forall f: bool :: UnitsOf([t], f) == if t.free == f then t.len else 0
    ensures t.len > 0 ==> Tiles([t], t.addr, t.End())
  {
    assert [t][1..] == [];
  }

  lemma TwoTiles(t: Tile, u: Tile)
    ensures Frees([t, u]) == (if t.free then [t.addr] else []) + (if u.free then [u.addr] else [])
    ensures forall f: bool ::
              UnitsOf([t, u], f) == (if t.free == f then t.len else 0) + (if u.free == f then u.len else 0)
    ensures t.len > 0 && u.len > 0 && t.End() == u.addr ==> Tiles([t, u], t.addr, u.End())
  {
    assert [t, u][1..] == [u];
    OneTile(u);
  }

  /** Free and live units together make up the whole line. */
  lemma {:induction false} UnitsFillTheLine(t: seq<Tile>, lo: int, hi: int)
    requires Tiles(t, lo, hi)
    ensures UnitsOf(t, true) + UnitsOf(t, false) == hi - lo
  {
    if t != [] { UnitsFillTheLine(t[1..], t[0].End(), hi); }
  }

  /** The free addresses are exactly those of the free tiles, in strictly rising order. */
  lemma {:induction false} FreesSorted(t: seq<Tile>, lo: int, hi: int)
    requires Tiles(t, lo, hi)
    ensures forall i :: 0 <= i < |Frees(t)| ==> lo <= Frees(t)[i] < hi
    ensures forall i, j :: 0 <= i < j < |Frees(t)| ==> Frees(t)[i] < Frees(t)[j]
  {
    if t != [] {
      TilesSpan(t, lo, hi);
      TilesSpan(t[1..], t[0].End(), hi);
      FreesSorted(t[1..], t[0].End(), hi);
    }
  }

  /** The `c`-th free address belongs to one free tile, with `c` free tiles below it. */
  lemma {:induction false} FreeTileAt(t: seq<Tile>, c: nat) returns (i: nat)
    requires c < |Frees(t)|
    ensures i < |t| && t[i].free && t[i].addr == Frees(t)[c]
    ensures |Frees(t[..i])| == c && Frees(t[..i]) == Frees(t)[..c]
    ensures Frees(t[i + 1..]) == Frees(t)[c + 1..]
  {
    if t[0].free && c == 0 {
      i := 0;
      assert t[..0] == [];
    } else {
      var c' := if t[0].free then c - 1 else c;
      var i' := FreeTileAt(t[1..], c');
      i := i' + 1;
      assert t[..i][1..] == t[1..][..i'];
      assert t[i + 1..] == t[1..][i' + 1..];
    }
  }

  /** Conversely the free tile at index `i` is the free address numbered by the free tiles below it. */
  lemma {:induction false} FreesAround(t: seq<Tile>, i: nat)
    requires i < |t|
    ensures Frees(t) == Frees(t[..i]) + (if t[i].free then [t[i].addr] else []) + Frees(t[i + 1..])
  {
    if i > 0 {
      FreesAround(t[1..], i - 1);
      assert t[..i][1..] == t[1..][..i - 1] && t[i + 1..] == t[1..][i..];
    }
  }

  // ----- well-formed heaps -----

  ghost predicate WellFormed(h: Heap) {
    && NULL < h.anchor < h.base
    && Tiles(h.tiles, h.base, h.end)
    && Coalesced(h.tiles)
  }

  lemma HeapStandsOnBase(h: Heap)
    requires WellFormed(h)
    ensures NULL < h.base <= h.end
  {
    TilesSpan(h.tiles, h.base, h.end);
  }

  /** The free list in link order: the anchor, then the free blocks by rising address. */
  function Ring(h: Heap): seq<int> {
    [h.anchor] + Frees(h.tiles)
  }

  ghost predicate RoverOnRing(h: Heap) {
    h.rover in Ring(h)
  }

  ghost predicate IsLive(h: Heap, addr: int, len: int) {
    Tile(addr, len, false) in h.tiles
  }

  // ----- next fit -----

  /** Index of the lowest free tile above `above` with room for `n` units; `|t|` if none. */
  function FirstFit(t: seq<Tile>, n: nat, above: int): (r: nat)
    ensures r <= |t|
    ensures r < |t| ==> t[r].free && t[r].len >= n && t[r].addr > above
    ensures forall i :: 0 <= i < r ==> !(t[i].free && t[i].len >= n && t[i].addr > above)
  {
    if t == [] || (t[0].free && t[0].len >= n && t[0].addr > above) then 0
    else 1 + FirstFit(t[1..], n, above)
  }

  /** Next fit: the lowest fitting tile above the rover, else the lowest one anywhere. */
  function NextFit(h: Heap, n: nat): (r: nat)
    ensures r <= |h.tiles|
    ensures r < |h.tiles| ==> h.tiles[r].free && h.tiles[r].len >= n
  {
    var r := FirstFit(h.tiles, n, h.rover);
    if r < |h.tiles| then r else FirstFit(h.tiles, n, NULL)
  }

  // ----- the three tile operations -----

  /** The ring node just below tile `i`. */
  function Below(h: Heap, i: nat): int
    requires i <= |h.tiles|
  {
    var below := [h.anchor] + Frees(h.tiles[..i]);
    below[|below| - 1]
  }

  /** Free tile `t` with its upper `n` units cut off for a caller. */
  function Cut(t: Tile, n: nat): seq<Tile> {
    if t.len == n then [Tile(t.addr, n, false)]
    else [Tile(t.addr, t.len - n, true), Tile(t.addr + t.len - n, n, false)]
  }

  /** The block a caller receives from tile `t`. */
  function Taken(t: Tile, n: nat): Tile {
    Tile(t.addr + t.len - n, n, false)
  }

  /** Carve `n` units for a caller out of the upper end of free tile `i`. */
  function Take(h: Heap, i: nat, n: nat): Heap
    requires i < |h.tiles| && h.tiles[i].free && h.tiles[i].len >= n
  {
    h.(tiles := h.tiles[..i] + Cut(h.tiles[i], n) + h.tiles[i + 1..], rover := Below(h, i))
  }

  /** First index of the free run that appears when tile `i` is released. */
  function RunStart(t: seq<Tile>, i: nat): nat
    requires i < |t|
  {
    if i > 0 && t[i - 1].free then i - 1 else i
  }

  /** One past the last index of that run. */
  function RunEnd(t: seq<Tile>, i: nat): nat
    requires i < |t|
  {
    if i + 1 < |t| && t[i + 1].free then i + 2 else i + 1
  }

  /** The single free tile that takes the place of the released run. */
  function Merged(t: seq<Tile>, i: nat): Tile
    requires i < |t|
  {
    var lo, hi := RunStart(t, i), RunEnd(t, i);
    Tile(t[lo].addr, t[hi - 1].End() - t[lo].addr, true)
  }

  /** Free tile `i` and merge it with whichever neighbours are free. */
  function Release(h: Heap, i: nat): Heap
    requires i < |h.tiles|
  {
    h.(tiles := h.tiles[..RunStart(h.tiles, i)] + [Merged(h.tiles, i)] + h.tiles[RunEnd(h.tiles, i)..])
  }

  /** The heap in the middle of growing: the new units are one live block at the top. */
  function Widened(h: Heap, n: nat): Heap {
    h.(tiles := h.tiles + [Tile(h.end, n, false)], end := h.end + n)
  }

  /** Add `n` units at the top: a live block appears there and is released at once. */
  function Grow(h: Heap, n: nat): Heap {
    Release(Widened(h, n), |h.tiles|)
  }

  function Max(a: nat, b: nat): nat { if a < b then b else a }

  // ----- requests -----

  /** Units for a request of `size` bytes, header included, in 32-bit arithmetic. */
  function UnitsFor(size: nat): nat {
    (size + 7) % WORD / 8 + 1
  }

  function GrowthFor(n: nat): nat { Max(n, NBALLOC) }

  /** The new heap end may not pass the caller's stack pointer, a byte address. */
  predicate MayGrow(h: Heap, n: nat, sp: int) {
    8 * (h.end + GrowthFor(n)) <= sp
  }

  /** A request for `n` units: the heap afterwards and the payload address, or NULL. */
  function Malloc(h: Heap, n: nat, sp: int): (Heap, int) {
    var i := NextFit(h, n);
    if i < |h.tiles| then (Take(h, i, n), h.tiles[i].End() - n + 1)
    else if !MayGrow(h, n, sp) then (h, NULL)
    else
      var g := Grow(h, GrowthFor(n));
      var j := NextFit(g, n);
      if j < |g.tiles| then (Take(g, j, n), g.tiles[j].End() - n + 1) else (g, NULL)
  }

  /** Index of the tile whose header is at `addr`; `|t|` if there is none. */
  function IndexOf(t: seq<Tile>, addr: int): (r: nat)
    ensures r <= |t|
    ensures r < |t| ==> t[r].addr == addr
    ensures forall i :: 0 <= i < r ==> t[i].addr != addr
  {
    if t == [] || t[0].addr == addr then 0 else 1 + IndexOf(t[1..], addr)
  }

  function Free(h: Heap, ptr: int): Heap {
    var i := IndexOf(h.tiles, ptr - 1);
    if ptr == NULL || i == |h.tiles| then h else Release(h, i)
  }

  /** The payload bytes of the block behind `ptr`. */
  function Capacity(h: Heap, ptr: int): int {
    var i := IndexOf(h.tiles, ptr - 1);
    if i == |h.tiles| then 0 else 8 * (h.tiles[i].len - 1)
  }

  function Realloc(h: Heap, ptr: int, size: nat, sp: int): (Heap, int) {
    if ptr == NULL then Malloc(h, UnitsFor(size), sp)
    else if size == 0 then (Free(h, ptr), NULL)
    else if size == Capacity(h, ptr) then (h, ptr)
    else
      var (h', fresh') := Malloc(h, UnitsFor(size), sp);
      if fresh' == NULL then (h', NULL) else (Free(h', ptr), fresh')
  }
}
