/** The kernel's allocator: block headers linked in place into one circular,
    address-sorted free list, with a roving start pointer. Every method is proved to
    do to its memory exactly what HeapTiles says is done to the line of tiles. */
module Allocator {
  import opened Bytes
  import opened HeapTiles
  import opened HeapTheorems
  import opened HeapRuns
  import opened HeapMemory
  import opened HeapBytes

  class Allocator {
    const ram: array<Unit>
    const anchor: int  // address of the static list head
    const base: int    // address of the end of the kernel image
    var heapEnd: int
    var heapStart: int
    ghost var heap: Heap

    ghost predicate Valid()
      reads this, ram
    {
      && ram.Length <= WORD / 8
      && NULL < anchor < base <= ram.Length
      && heap.anchor == anchor && heap.base == base
      && (heapEnd == heap.end || (heapEnd == NULL && heap.end == base))
      && if heapStart == NULL then heap == Initial(anchor, base)
         else heap.rover == heapStart && Represents(ram[..], heap)
    }

    /** No 32-bit sum in a request for `size` bytes wraps around. */
    ghost predicate Fits(size: nat)
      reads this
    {
      size + 7 < WORD && 8 * (heap.end + GrowthFor(UnitsFor(size))) < WORD
    }

    constructor (ram: array<Unit>, anchor: int, base: int)
      requires ram.Length <= WORD / 8 && NULL < anchor < base <= ram.Length
      ensures Valid() && heap == Initial(anchor, base)
      ensures this.ram == ram && this.anchor == anchor && this.base == base
    {
      this.ram, this.anchor, this.base := ram, anchor, base;
      heapEnd, heapStart := NULL, NULL;
      heap := Initial(anchor, base);
    }

    /** Move the heap end to byte address `addr`, unless that passes the stack pointer `sp`
        or lies below the heap bottom. */
    method Brk(addr: int, sp: int) returns (ok: bool)
      requires addr % 8 == 0
      modifies this`heapEnd
      ensures ok <==> 8 * base <= addr <= sp
      ensures heapEnd == if ok then addr / 8 else if old(heapEnd) == NULL then base else old(heapEnd)
    {
      if heapEnd == NULL { heapEnd := base; }
      if addr > sp || addr < 8 * base { return false; }
      heapEnd := addr / 8;
      return true;
    }

    /** Extend the heap by `units`; -1 if the stack is in the way. */
    method Sbrk(units: nat, sp: int) returns (page: int)
      requires Valid() && 8 * (heap.end + units) < WORD
      modifies this`heapEnd
      ensures page == if 8 * (heap.end + units) <= sp then heap.end else -1
      ensures heapEnd == if page == -1 then heap.end else heap.end + units
    {
      HeapStandsOnBase(heap);
      if heapEnd == NULL { heapEnd := base; }
      var prev := heapEnd;
      var ok := Brk((8 * heapEnd + 8 * units) % WORD, sp);
      return if ok then prev else -1;
    }

    /** The free-list node below `block`, searched for from the rover. */
    method FindPlace(block: int, ghost k: nat) returns (cur: int)
      requires Valid() && RoverOnRing(heap)
      requires k < |heap.tiles| && !heap.tiles[k].free && heap.tiles[k].addr == block
      ensures var p := |Frees(heap.tiles[..k])|; p < |Ring(heap)| && cur == Ring(heap)[p]
    {
      cur := heapStart;
      ghost var ring, p := Ring(heap), |Frees(heap.tiles[..k])|;
      ghost var c :| 0 <= c < |ring| && ring[c] == heap.rover;
      RingRises(heap);
      PredecessorExists(heap, k);
      while block <= cur || block >= ram[cur].next
        invariant 0 <= c < |ring| && cur == ring[c]
        decreases if c <= p then p - c else |ring| - c + p
      {
        NextIsSucc(ram[..], ring, c);
        StopsAtPredecessor(ring, p, c, block);
        if (block > cur || block < ram[cur].next) && cur >= ram[cur].next { break; }
        cur := ram[cur].next;
        c := if c + 1 < |ring| then c + 1 else 0;
      }
      NextIsSucc(ram[..], ring, c);
      StopsAtPredecessor(ring, p, c, block);
    }

    /** Link `block` in after `cur`, merging it with the blocks it touches on either side. */
    method LinkBlock(cur: int, block: int)
      requires 0 <= cur < ram.Length && 0 <= block < ram.Length && cur != block
      requires ram[cur].next < ram.Length && ram[cur].next != block
      requires ram[cur].len + ram[block].len + ram[ram[cur].next].len < WORD
      requires ram.Length <= WORD
      modifies ram
      ensures FreeStored(old(ram[..]), ram[..], cur, block)
    {
      var next := ram[cur].next;
      if block + ram[block].len == next {
        ram[block] := Unit(ram[next].next, ram[block].len + ram[next].len);
      } else {
        ram[block] := ram[block].(next := next);
      }
      if cur + ram[cur].len == block {
        ram[cur] := Unit(ram[block].next, ram[cur].len + ram[block].len);
      } else {
        ram[cur] := ram[cur].(next := block);
      }
    }

    method KFree(ptr: int)
      requires Valid() && RoverOnRing(heap) && Held(heap, ptr)
      modifies this`heap, ram
      ensures Valid() && heap == Free(old(heap), ptr)
      ensures SamePayloads(old(ram[..]), ram[..], old(heap))
    {
      hide WellFormed, Linked, Headed;
      if ptr == NULL { return; }
      ghost var m, h, k := ram[..], heap, IndexOf(heap.tiles, ptr - 1);
      var cur := FindPlace(ptr - 1, k);
      ghost var p := |Frees(h.tiles[..k])|;
      assert Represents(m, h);
      LinkingIsSafe(m, h, k, p);
      LinkBlock(cur, ptr - 1);
      FreeRepresented(m, ram[..], h, k, p);
      heap := Free(h, ptr);
    }

    /** Unlink a node that fits exactly, or cut its upper end off. */
    method CutNode(n: nat, prev: int, cur: int) returns (block: int)
      requires 0 <= prev < ram.Length && 0 <= cur < ram.Length
      requires ram[cur].len >= n && n < WORD && (ram[cur].len > n ==> cur + ram[cur].len - n < ram.Length)
      modifies ram
      ensures TakeStored(old(ram[..]), ram[..], prev, cur, n)
      ensures block == cur + old(ram[cur].len) - n
    {
      block := cur;
      if ram[cur].len == n {
        ram[prev] := ram[prev].(next := ram[cur].next);
      } else {
        ram[cur] := ram[cur].(len := ram[cur].len - n);
        block := cur + ram[cur].len;
        ram[block] := ram[block].(len := n);
      }
    }

    /** Hand out the fitting node `cur`, whole or its upper end. */
    method TakeNode(n: nat, prev: int, cur: int, ghost p: nat, ghost c: nat) returns (ptr: int)
      requires heapStart != NULL && Valid() && RoverOnRing(heap) && 0 < n
      requires LapAt(heap, n, p, c, prev, cur) && ram[cur].len >= n
      modifies this`heap, this`heapStart, ram
      ensures Valid() && heapStart != NULL && RoverOnRing(heap)
      ensures var h, i := old(heap), NextFit(old(heap), n);
              i < |h.tiles| && heap == Take(h, i, n) && ptr == Taken(h.tiles[i], n).addr + 1
      ensures SamePayloads(old(ram[..]), ram[..], old(heap))
    {
      hide TakeStored, SamePayloads;
      ghost var h, m := heap, ram[..];
      ghost var i := LapSucceeds(m, h, n, p, c, prev, cur);
      TilesInside(h.tiles, h.base, h.end);
      RingRises(h);
      var block := CutNode(n, prev, cur);
      TakeRepresented(m, ram[..], h, i, n, p);
      TakeWellFormed(h, i, n);
      heapStart := prev;
      heap := Take(h, i, n);
      return block + 1;
    }

    /** Ask for more memory and free it into the list. */
    method GrowHeap(n: nat, sp: int) returns (ok: bool)
      requires heapStart != NULL && Valid() && RoverOnRing(heap) && 0 < n
      requires 8 * (heap.end + GrowthFor(n)) < WORD && sp <= 8 * ram.Length
      modifies this`heap, this`heapEnd, ram
      ensures ok <==> MayGrow(old(heap), n, sp)
      ensures heap == if ok then Grow(old(heap), GrowthFor(n)) else old(heap)
      ensures Valid() && RoverOnRing(heap)
      ensures SamePayloads(old(ram[..]), ram[..], old(heap))
    {
      hide WellFormed, Ring, Linked, Headed, Release, Grow, Free, Cut;
      ghost var h, m := heap, ram[..];
      var allocSize := if n < NBALLOC then NBALLOC else n;
      HeapStandsOnBase(h);
      var page := Sbrk(allocSize, sp);
      if page == -1 { return false; }
      ram[page] := ram[page].(len := allocSize);
      heap := Widened(h, allocSize);
      ghost var m' := ram[..];
      WidenedRepresented(m, m', h, allocSize);
      WidenedIsHeld(h, allocSize);
      KFree(page + 1);
      SamePayloadsTrans(m, m', ram[..], h, Widened(h, allocSize));
      return true;
    }

    /** The first request ever made sets up the list head as a ring of its own. */
    method StartList() returns (prev: int)
      requires Valid() && RoverOnRing(heap)
      modifies this`heapStart, ram
      ensures Valid() && heapStart == prev && prev != NULL
      ensures SamePayloads(old(ram[..]), ram[..], heap)
    {
      prev := heapStart;
      if heapStart == NULL {
        prev := anchor;
        heapStart := prev;
        ram[anchor] := Unit(anchor, 0);
      }
      if prev == NULL { RingRises(heap); }
    }

    method KMalloc(size: nat, sp: int) returns (ptr: int)
      requires Valid() && RoverOnRing(heap) && Fits(size) && sp <= 8 * ram.Length
      modifies this, ram
      ensures Valid() && RoverOnRing(heap) && heapStart != NULL
      ensures (heap, ptr) == Malloc(old(heap), UnitsFor(size), sp)
      ensures SamePayloads(old(ram[..]), ram[..], old(heap))
    {
      hide WellFormed, Ring, Linked, Headed, LapSoFar, NextFit, Release, Free;
      var n := (size + 7) % WORD / 8 + 1;
      var prev := StartList();
      ghost var h, grown := heap, false;
      ghost var r: nat := LapBegins(ram[..], h, n);
      var cur := ram[prev].next;
      ghost var p: nat, c: nat := r, SuccIndex(h, r);
      while true
        invariant heap == h && heapStart != NULL && Valid() && RoverOnRing(h)
        invariant h == if grown then Grow(old(heap), GrowthFor(n)) else old(heap)
        invariant grown ==> NextFit(old(heap), n) == |old(heap).tiles| && MayGrow(old(heap), n, sp)
        invariant SamePayloads(old(ram[..]), ram[..], old(heap))
        invariant r < |Ring(h)| && Ring(h)[r] == h.rover
        invariant LapAt(h, n, p, c, prev, cur) && 0 < cur < ram.Length
        decreases !grown, if c > r then |Ring(h)| - c + r else r - c
      {
        ghost var m := ram[..];
        if ram[cur].len >= n {
          ptr := TakeNode(n, prev, cur, p, c);
          if grown { SameThroughGrowth(old(ram[..]), m, ram[..], old(heap), GrowthFor(n)); }
          return;
        }
        if cur == heapStart {
          LapFails(m, h, n, p, c, prev);
          if grown { GrowthSuffices(old(heap), n); }
          var ok := GrowHeap(n, sp);
          if !ok { return NULL; }
          cur := heapStart;
          h, grown := heap, true;
          r := LapBegins(ram[..], h, n);
          c := r;
        } else {
          LapGoesOn(m, h, n, p, c, prev, cur);
        }
        prev, p := cur, c;
        cur, c := ram[cur].next, SuccIndex(h, c);
      }
    }

    /** Copy `len` bytes between the disjoint memories that start at units `src` and `dst`. */
    method KMemcpy(dst: nat, src: nat, len: nat)
      requires dst + (len + 7) / 8 <= ram.Length && src + (len + 7) / 8 <= ram.Length
      requires dst + (len + 7) / 8 <= src || src + (len + 7) / 8 <= dst
      modifies ram
      ensures forall i :: 0 <= i < len ==> ByteAt(ram[..], dst, i) == old(ByteAt(ram[..], src, i))
      ensures forall u :: 0 <= u < ram.Length && !(dst <= u < dst + (len + 7) / 8) ==> ram[u] == old(ram[u])
    {
      for i := 0 to len
        invariant forall j :: 0 <= j < i ==> ByteAt(ram[..], dst, j) == old(ByteAt(ram[..], src, j))
        invariant forall u :: 0 <= u < ram.Length && !(dst <= u < dst + (len + 7) / 8) ==> ram[u] == old(ram[u])
      {
        StoreByte(dst, i, UnitByte(ram[src + i / 8], i % 8));
      }
    }

    method StoreByte(dst: nat, i: nat, b: byte)
      requires dst + i / 8 < ram.Length
      modifies ram
      ensures ByteAt(ram[..], dst, i) == b
      ensures forall j: nat :: j < i ==> ByteAt(ram[..], dst, j) == old(ByteAt(ram[..], dst, j))
      ensures forall u :: 0 <= u < ram.Length && u != dst + i / 8 ==> ram[u] == old(ram[u])
    {
      var was := ram[dst + i / 8];
      ram[dst + i / 8] := PutUnitByte(was, i % 8, b);
      PutThenGet(was, i % 8, b, i % 8);
      forall j: nat | j < i ensures ByteAt(ram[..], dst, j) == old(ByteAt(ram[..], dst, j)) {
        if j / 8 == i / 8 { PutThenGet(was, i % 8, b, j % 8); }
      }
    }

    method KRealloc(ptr: int, size: nat, sp: int) returns (r: int)
      requires Valid() && RoverOnRing(heap) && Held(heap, ptr) && Fits(size) && sp <= 8 * ram.Length
      modifies this, ram
      ensures Valid() && (heap, r) == Realloc(old(heap), ptr, size, sp)
      ensures OthersKeep(old(ram[..]), ram[..], old(heap), ptr)
      ensures ptr != NULL && size != 0 && r != NULL ==>
                SameBytes(old(ram[..]), ptr, ram[..], r, Carried(old(heap), ptr, size))
    {
      hide WellFormed, Linked, Headed, SamePayloads, Malloc, Free, NextFit;
      ghost var h, m := heap, ram[..];
      if ptr == NULL {
        r := KMalloc(size, sp);
        SamePayloadsKeepOthers(m, ram[..], h, ptr);
      } else if size == 0 {
        KFree(ptr);
        r := NULL;
        SamePayloadsKeepOthers(m, ram[..], h, ptr);
      } else {
        HeaderOfHeld(m, h, ptr);
        var nbytes := 8 * (ram[ptr - 1].len - 1);
        if size == nbytes { r := ptr; } else { r := MoveBlock(ptr, nbytes, size, sp); }
      }
    }

    /** The rest of `krealloc`: a new block, the bytes that fit, and the old block freed. */
    method MoveBlock(ptr: int, capacity: nat, size: nat, sp: int) returns (r: int)
      requires Valid() && RoverOnRing(heap) && ptr != NULL && Held(heap, ptr) && Fits(size) && sp <= 8 * ram.Length
      requires capacity == Capacity(heap, ptr)
      modifies this, ram
      ensures Valid() && r == Malloc(old(heap), UnitsFor(size), sp).1
      ensures heap == (var h' := Malloc(old(heap), UnitsFor(size), sp).0; if r == NULL then h' else Free(h', ptr))
      ensures OthersKeep(old(ram[..]), ram[..], old(heap), ptr)
      ensures r != NULL ==> SameBytes(old(ram[..]), ptr, ram[..], r, Carried(old(heap), ptr, size))
    {
      hide WellFormed, Linked, Headed, SamePayloads, Malloc, Free, NextFit, OthersKeep, Ring;
      ghost var h0, m0 := heap, ram[..];
      r := KMalloc(size, sp);
      ghost var h1, m1 := heap, ram[..];
      SamePayloadsKeepOthers(m0, m1, h0, ptr);
      if r != NULL {
        var nbytes := if size < capacity then size else capacity;
        RequestHasRoomIff(size);
        FreshIsApart(h0, UnitsFor(size), sp, ptr, nbytes);
        SamePayloadsSameBytes(m0, m1, h0, h0.tiles[IndexOf(h0.tiles, ptr - 1)], nbytes);
        ghost var m2 := CopyThenFree(ptr, r, nbytes, Tile(r - 1, UnitsFor(size), false));
        ReallocKeepsOthers(m0, m1, m2, ram[..], h0, UnitsFor(size), sp, ptr);
      }
    }

    /** Copy `count` bytes into the fresh block `y`, then free the block they came from. */
    method CopyThenFree(ptr: nat, r: nat, count: nat, ghost y: Tile) returns (ghost m2: seq<Unit>)
      requires heapStart != NULL && Valid() && RoverOnRing(heap) && ptr != NULL && Held(heap, ptr)
      requires y in heap.tiles && !y.free && y.addr == r - 1 && count <= Room(y)
      requires r + (count + 7) / 8 <= ram.Length && ptr + (count + 7) / 8 <= ram.Length
      requires r + (count + 7) / 8 <= ptr || ptr + (count + 7) / 8 <= r
      modifies this`heap, ram
      ensures Valid() && heap == Free(old(heap), ptr)
      ensures OthersKeep(old(ram[..]), m2, old(heap), r) && OthersKeep(m2, ram[..], old(heap), ptr)
      ensures SameBytes(old(ram[..]), ptr, ram[..], r, count)
    {
      hide WellFormed, Linked, Headed, SamePayloads, Free, Ring, OthersKeep;
      ghost var h, m := heap, ram[..];
      KMemcpy(r, ptr, count);
      m2 := ram[..];
      CopyKeeps(m, m2, h, y, count);
      KFree(ptr);
      SamePayloadsSameBytes(m2, ram[..], h, y, count);
      SamePayloadsKeepOthers(m2, ram[..], h, ptr);
    }

    method ZeroFill(ptr: nat, len: nat)
      requires ptr + (len + 7) / 8 <= ram.Length
      modifies ram
      ensures forall i :: 0 <= i < len ==> ByteAt(ram[..], ptr, i) == 0
      ensures forall u :: 0 <= u < ram.Length && !(ptr <= u < ptr + (len + 7) / 8) ==> ram[u] == old(ram[u])
    {
      for i := 0 to len
        invariant forall j :: 0 <= j < i ==> ByteAt(ram[..], ptr, j) == 0
        invariant forall u :: 0 <= u < ram.Length && !(ptr <= u < ptr + (len + 7) / 8) ==> ram[u] == old(ram[u])
      {
        StoreByte(ptr, i, 0);
      }
    }

    /** The product is taken in 32 bits, here and in the code. */
    method KCalloc(num: nat, len: nat, sp: int) returns (ptr: int)
      requires Valid() && RoverOnRing(heap) && Fits(num * len % WORD) && sp <= 8 * ram.Length
      modifies this, ram
      ensures Valid() && RoverOnRing(heap)
      ensures (heap, ptr) == Malloc(old(heap), UnitsFor(num * len % WORD), sp)
      ensures OthersKeep(old(ram[..]), ram[..], old(heap), NULL)
      ensures ptr != NULL ==> Zeroed(ram[..], ptr, num * len % WORD)
    {
      hide WellFormed, Linked, Headed, SamePayloads, Malloc, OthersKeep, Ring;
      var size: Word := num * len % WORD;
      ghost var h0, m0 := heap, ram[..];
      ptr := KMalloc(size, sp);
      ghost var m1 := ram[..];
      SamePayloadsKeepOthers(m0, m1, h0, NULL);
      if ptr != NULL {
        ghost var y := Tile(ptr - 1, UnitsFor(size), false);
        RequestHasRoomIff(size);
        InitialIsSound(anchor, base);  // the heap before the very first request
        FreshBlock(h0, UnitsFor(size), sp);
        ZeroFill(ptr, size);
        CopyKeeps(m1, ram[..], heap, y, size);
        FillingKeepsOld(m0, m1, ram[..], h0, UnitsFor(size), sp);
      }
    }
  }
}
