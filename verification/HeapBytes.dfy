/** Payloads as bytes: the eight bytes of a unit, and what writing payload bytes leaves alone. */
module HeapBytes {
  import opened Bytes
  import opened HeapTiles
  import opened HeapRuns
  import opened HeapMemory

  function PutWordByte(w: Word, k: nat, b: byte): Word
    requires k < 4
  {
    WordOf(if k == 0 then b else WordByte(w, 0), if k == 1 then b else WordByte(w, 1),
           if k == 2 then b else WordByte(w, 2), if k == 3 then b else WordByte(w, 3))
  }

  function UnitByte(u: Unit, k: nat): byte
    requires k < 8
  {
    if k < 4 then WordByte(u.next, k) else WordByte(u.len, k - 4)
  }

  function PutUnitByte(u: Unit, k: nat, b: byte): Unit
    requires k < 8
  {
    if k < 4 then u.(next := PutWordByte(u.next, k, b)) else u.(len := PutWordByte(u.len, k - 4, b))
  }

  /** A byte written reads back, and its seven neighbours stay. */
  lemma PutThenGet(u: Unit, k: nat, b: byte, j: nat)
    requires k < 8 && j < 8
    ensures UnitByte(PutUnitByte(u, k, b), j) == if j == k then b else UnitByte(u, j)
  {
    hide WordOf, WordByte;
    var w, i := if k < 4 then u.next else u.len, k % 4;
    WordOfBytes(if i == 0 then b else WordByte(w, 0), if i == 1 then b else WordByte(w, 1),
                if i == 2 then b else WordByte(w, 2), if i == 3 then b else WordByte(w, 3));
  }

  /** Byte `i` of the memory that starts at unit `a`. */
  function ByteAt(m: seq<Unit>, a: nat, i: nat): byte
    requires a + i / 8 < |m|
  {
    UnitByte(m[a + i / 8], i % 8)
  }

  /** Payload bytes a block of tile `t` offers. */
  function Room(t: Tile): int { 8 * (t.len - 1) }

  /** Memories that differ at most in the payload of tile `k`. */
  ghost predicate OnlyPayload(m: seq<Unit>, m': seq<Unit>, h: Heap, k: nat)
    requires k < |h.tiles|
  {
    && |m'| == |m|
    && forall u :: 0 <= u < |m| && !(h.tiles[k].addr < u < h.tiles[k].End()) ==> m'[u] == m[u]
  }

  /** Writing into a live payload disturbs no header and no other payload. */
  lemma PayloadWriteKeeps(m: seq<Unit>, m': seq<Unit>, h: Heap, k: nat)
    requires Represents(m, h) && k < |h.tiles| && !h.tiles[k].free && OnlyPayload(m, m', h, k)
    ensures Represents(m', h)
    ensures forall j, u :: 0 <= j < |h.tiles| && j != k && h.tiles[j].addr < u < h.tiles[j].End() && 0 <= u < |m| ==>
            m'[u] == m[u]
  {
    forall j | 0 <= j < |Ring(h)| ensures m'[Ring(h)[j]] == m[Ring(h)[j]] {
      if h.tiles[k].addr < Ring(h)[j] < h.tiles[k].End() { RingOutsidePayloads(h, j, k, Ring(h)[j]); }
    }
    forall j | 0 <= j < |h.tiles| ensures m'[h.tiles[j].addr] == m[h.tiles[j].addr] {
      if h.tiles[k].addr < h.tiles[j].addr < h.tiles[k].End() { HeadersOutsidePayloads(h, j, k, h.tiles[j].addr); }
    }
    forall j, u | 0 <= j < |h.tiles| && j != k && h.tiles[j].addr < u < h.tiles[j].End() && 0 <= u < |m|
      ensures m'[u] == m[u]
    {
      if j < k { TilesOrdered(h.tiles, h.base, h.end, j, k); } else { TilesOrdered(h.tiles, h.base, h.end, k, j); }
    }
  }

  /** `n` bytes at unit `a` of `m` and at unit `a'` of `m'` agree. */
  ghost predicate SameBytes(m: seq<Unit>, a: int, m': seq<Unit>, a': int, n: int) {
    && 0 <= a && a + (n + 7) / 8 <= |m| && 0 <= a' && a' + (n + 7) / 8 <= |m'|
    && forall i: nat :: i < n ==> ByteAt(m', a', i) == ByteAt(m, a, i)
  }

  /** How many bytes a reallocation to `size` bytes carries over. */
  function Carried(h: Heap, ptr: int, size: nat): int {
    if size < Capacity(h, ptr) then size else Capacity(h, ptr)
  }

  /** Every live block except the one behind `ptr` has kept its payload. */
  ghost predicate OthersKeep(m: seq<Unit>, m': seq<Unit>, h: Heap, ptr: int) {
    && |m'| == |m|
    && forall x: Tile, u :: x in h.tiles && !x.free && x.addr != ptr - 1 && x.addr < u < x.End() && 0 <= u < |m| ==>
       m'[u] == m[u]
  }

  lemma SamePayloadsKeepOthers(m: seq<Unit>, m': seq<Unit>, h: Heap, ptr: int)
    requires SamePayloads(m, m', h)
    ensures OthersKeep(m, m', h, ptr)
  {
  }

  lemma SamePayloadsSameBytes(m: seq<Unit>, m': seq<Unit>, h: Heap, x: Tile, n: nat)
    requires Represents(m, h) && SamePayloads(m, m', h) && x in h.tiles && !x.free && n <= Room(x)
    ensures SameBytes(m, x.addr + 1, m', x.addr + 1, n)
  {
    TilesInside(h.tiles, h.base, h.end);
  }

  /** The payload of a fresh block is a place to copy an old block's bytes to. */
  lemma FreshIsApart(h: Heap, n: nat, sp: int, ptr: int, count: nat)
    requires WellFormed(h) && RoverOnRing(h) && 0 < n && ptr != NULL && Held(h, ptr)
    requires count <= 8 * (n - 1) && count <= Capacity(h, ptr)
    requires Malloc(h, n, sp).1 != NULL
    ensures var (h', fresh') := Malloc(h, n, sp); var x := h.tiles[IndexOf(h.tiles, ptr - 1)];
      && x in h'.tiles && Tile(fresh' - 1, n, false) in h'.tiles && x != Tile(fresh' - 1, n, false)
      && x in h.tiles && !x.free && x.addr == ptr - 1 && count <= Room(x)
      && 0 < ptr && 0 < fresh' && ptr + (count + 7) / 8 <= x.End() <= h'.end
      && fresh' + (count + 7) / 8 <= fresh' - 1 + n <= h'.end
      && (fresh' + (count + 7) / 8 <= ptr || ptr + (count + 7) / 8 <= fresh')
      && Held(h', ptr)
  {
    hide Tiles, Frees, UnitsOf, Coalesced, Malloc;
    MallocKeeps(h, n, sp);
    HeldThroughMalloc(h, n, sp, ptr);
    TilesInside(h.tiles, h.base, h.end);
    TilesInside(Malloc(h, n, sp).0.tiles, h.base, Malloc(h, n, sp).0.end);
  }

  /** Bytes written into the fresh block `y` leave every other block and every header alone. */
  lemma CopyKeeps(m: seq<Unit>, m': seq<Unit>, h: Heap, y: Tile, count: nat)
    requires Represents(m, h) && y in h.tiles && !y.free && count <= Room(y) && |m'| == |m|
    requires forall u :: 0 <= u < |m| && !(y.addr + 1 <= u < y.addr + 1 + (count + 7) / 8) ==> m'[u] == m[u]
    ensures Represents(m', h) && OthersKeep(m, m', h, y.addr + 1)
  {
    var k :| 0 <= k < |h.tiles| && h.tiles[k] == y;
    PayloadWriteKeeps(m, m', h, k);
  }

  lemma HeaderOfHeld(m: seq<Unit>, h: Heap, ptr: int)
    requires Represents(m, h) && Held(h, ptr) && ptr != NULL
    ensures 0 < ptr <= |m| && 8 * (m[ptr - 1].len - 1) == Capacity(h, ptr) >= 0
    ensures ptr + (Capacity(h, ptr) + 7) / 8 <= |m|
  {
    TilesInside(h.tiles, h.base, h.end);
  }

  /** Allocating, copying and freeing in turn keep the blocks `krealloc` was not asked about. */
  lemma ReallocKeepsOthers(m0: seq<Unit>, m1: seq<Unit>, m2: seq<Unit>,
        m3: seq<Unit>, h: Heap, n: nat, sp: int, ptr: int)
    requires WellFormed(h) && RoverOnRing(h) && 0 < n && Malloc(h, n, sp).1 != NULL
    requires OthersKeep(m0, m1, h, ptr)
    requires OthersKeep(m1, m2, Malloc(h, n, sp).0, Malloc(h, n, sp).1)
    requires OthersKeep(m2, m3, Malloc(h, n, sp).0, ptr)
    ensures OthersKeep(m0, m3, h, ptr)
  {
    hide Malloc, Tiles;
    MallocKeeps(h, n, sp);
    TilesInsideLive(h);
  }

  lemma TilesInsideLive(h: Heap)
    requires WellFormed(h)
    ensures forall x: Tile :: x in h.tiles ==> x.len > 0
  {
    TilesInside(h.tiles, h.base, h.end);
  }

  ghost predicate Zeroed(m: seq<Unit>, a: int, n: nat) {
    0 <= a && a + (n + 7) / 8 <= |m| && forall i: nat :: i < n ==> ByteAt(m, a, i) == 0
  }

  lemma FreshBlock(h: Heap, n: nat, sp: int)
    requires WellFormed(h) && RoverOnRing(h) && 0 < n && Malloc(h, n, sp).1 != NULL
    ensures var (h', ptr) := Malloc(h, n, sp);
      Tile(ptr - 1, n, false) in h'.tiles && 0 < ptr && ptr - 1 + n <= h'.end
  {
    hide Malloc, Tiles;
    MallocKeeps(h, n, sp);
  }

  /** What is written into a fresh block cannot reach a block that was live before. */
  lemma FillingKeepsOld(m0: seq<Unit>, m1: seq<Unit>, m2: seq<Unit>, h: Heap, n: nat, sp: int)
    requires WellFormed(h) && RoverOnRing(h) && 0 < n && Malloc(h, n, sp).1 != NULL
    requires OthersKeep(m0, m1, h, NULL)
    requires OthersKeep(m1, m2, Malloc(h, n, sp).0, Malloc(h, n, sp).1)
    ensures OthersKeep(m0, m2, h, NULL)
  {
    hide Malloc, Tiles;
    MallocKeeps(h, n, sp);
    TilesInsideLive(h);
  }

  // ----- how many bytes a request gets -----

  /** A block has room for the requested bytes if and only if the size is at most
      2^32 - 8: above that the rounding wraps around to a block with no room at all. */
  lemma RequestHasRoomIff(size: nat)
    requires size < WORD
    ensures 8 * (UnitsFor(size) - 1) >= size <==> size <= WORD - 8
    ensures 8 * (UnitsFor(size) - 1) < size + 8
    ensures size > WORD - 8 ==> UnitsFor(size) == 1
  {
  }
}
