/** A FAT32 volume: sectors, the file allocation table and cluster chains (Microsoft FAT32
    File System Specification, version 1.03, "FAT Data Structure"). */
module Fat32 {
  import opened Arithmetic
  import opened Bytes
  import opened Wrappers

  const BLK_SIZE := 512
  const CLUSTER_MASK := 0x0FFF_FFFF
  const CLUSTER_BAD := 0x0FFF_FFF7

  type Sector = s: seq<byte> | |s| == BLK_SIZE witness seq(BLK_SIZE, i => 0)

  /** A mounted volume with 512-byte sectors: what the device holds, sectors per cluster,
      and the sectors where the first table and the first data cluster lie. */
  datatype Volume = Volume(disk: int -> Sector, cluslen: nat, firstfat: nat, root: nat)

  ghost predicate Mounted(v: Volume) { v.cluslen > 0 }

  // ----- the table -----

  /** Byte `k` of the file allocation table, counted over sector boundaries. */
  function TableByte(v: Volume, k: nat): byte {
    v.disk(v.firstfat + k / BLK_SIZE)[k % BLK_SIZE]
  }

  /** What the table holds for cluster `c`: the little-endian word at byte 4c. */
  function TableWord(v: Volume, c: nat): Word {
    WordOf(TableByte(v, 4 * c), TableByte(v, 4 * c + 1), TableByte(v, 4 * c + 2), TableByte(v, 4 * c + 3))
  }

  /** `get_entry`: the entry is read with 32-bit arithmetic out of a single sector. */
  function GetEntry(v: Volume, c: nat): int {
    var k := 4 * c % WORD;
    var buff, i := v.disk(v.firstfat + k / BLK_SIZE), k % BLK_SIZE;
    if i + 3 < BLK_SIZE then Signed(WordOf(buff[i], buff[i + 1], buff[i + 2], buff[i + 3])) else 0
  }

  /** Four bytes from a multiple of four lie in one block of 512. */
  lemma WordInBlock(q: nat, j: nat)
    requires j < 4
    ensures 4 * q % BLK_SIZE + 3 < BLK_SIZE
    ensures (4 * q + j) / BLK_SIZE == 4 * q / BLK_SIZE && (4 * q + j) % BLK_SIZE == 4 * q % BLK_SIZE + j
  {
    var a, b := q / 128, q % 128;
    assert 4 * q + j == BLK_SIZE * a + (4 * b + j);
  }

  lemma WrapsToMultiple(c: nat)
    ensures 4 * c % WORD == 4 * (c % (WORD / 4))
    ensures c < WORD / 4 ==> 4 * c % WORD == 4 * c
  {
    var a, b := c / (WORD / 4), c % (WORD / 4);
    assert 4 * c == WORD * a + 4 * b;
  }

  /** The four bytes of an entry, read one by one out of the table or out of one sector. */
  lemma TableBytes(v: Volume, c: nat)
    ensures var buff, i := v.disk(v.firstfat + 4 * c / BLK_SIZE), 4 * c % BLK_SIZE;
      && i + 3 < BLK_SIZE
      && TableByte(v, 4 * c) == buff[i] && TableByte(v, 4 * c + 1) == buff[i + 1]
      && TableByte(v, 4 * c + 2) == buff[i + 2] && TableByte(v, 4 * c + 3) == buff[i + 3]
  {
    WordInBlock(c, 1);
    WordInBlock(c, 2);
    WordInBlock(c, 3);
  }

  /** An entry never crosses a sector, and for every cluster number an entry can name it is
      the word at byte 4c of the table. */
  lemma GetEntryReadsTable(v: Volume, c: nat)
    ensures 4 * c % WORD % BLK_SIZE + 3 < BLK_SIZE
    ensures c < WORD / 4 ==> GetEntry(v, c) == Signed(TableWord(v, c))
  {
    hide Signed, WordOf, TableByte;
    WrapsToMultiple(c);
    WordInBlock(c % (WORD / 4), 0);
    if c < WORD / 4 { TableBytes(v, c); }
  }

  /** The cluster after `c` as the format has it: the four reserved bits do not count. */
  function Successor(v: Volume, c: nat): Option<nat> {
    var masked := TableWord(v, c) % (CLUSTER_MASK + 1);
    if masked >= CLUSTER_BAD then None else Some(masked)
  }

  /** The entry of cluster `c` is the little-endian word at byte 4c of the table. */
  lemma TableWordIs(v: Volume, c: nat, q: nat, r: nat)
    requires 4 * c == 512 * q + r && r < 512
    ensures r + 3 < 512
    ensures var b := v.disk(v.firstfat + q);
            TableWord(v, c)
              == b[r] as int + 256 * b[r + 1] as int + 65536 * b[r + 2] as int + 16777216 * b[r + 3] as int
  {
    TableBytes(v, c);
    assert 4 * c / 512 == q && 4 * c % 512 == r;
  }

  /** Its lower 28 bits are the cluster that follows, unless they are 0x0FFFFFF7 or more. */
  lemma SuccessorIs(v: Volume, c: nat, reserved: nat, next: nat)
    requires TableWord(v, c) == 0x1000_0000 * reserved + next && next < 0x1000_0000
    ensures Successor(v, c) == if next < 0x0FFF_FFF7 then Some(next) else None
  {
    hide TableWord;
  }

  /** The cluster after `c` as the code finds it: an entry with the top bit set ends the chain
      before the reserved bits are masked off. */
  function NextCluster(v: Volume, c: nat): Option<nat> {
    var entry := GetEntry(v, c);
    if entry < 0 then None
    else
      var masked := entry % (CLUSTER_MASK + 1);
      if masked >= CLUSTER_BAD then None else Some(masked)
  }

  /** The code finds the successor if and only if the entry's top bit is clear or the chain
      ends there anyway; otherwise it takes the chain to end. */
  lemma NextIsSuccessorIff(v: Volume, c: nat)
    requires c < WORD / 4
    ensures NextCluster(v, c) == Successor(v, c)
            <==> TableWord(v, c) < WORD / 2 || TableWord(v, c) % (CLUSTER_MASK + 1) >= CLUSTER_BAD
    ensures TableWord(v, c) >= WORD / 2 || Successor(v, c) == None ==> NextCluster(v, c) == None
  {
    hide TableWord, GetEntry;
    GetEntryReadsTable(v, c);
  }

  // ----- clusters and chains -----

  function SectorOf(v: Volume, c: nat): int { v.root + (c - 2) * v.cluslen }

  /** The clusters `ch`, each followed by the next in the table. */
  ghost predicate Chain(v: Volume, ch: seq<nat>) {
    && ch != [] && (forall i :: 0 <= i < |ch| ==> 2 <= ch[i] < CLUSTER_BAD)
    && forall i :: 0 <= i < |ch| - 1 ==> Successor(v, ch[i]) == Some(ch[i + 1])
  }

  /** How many clusters of a chain the code gets to: as far as the first entry whose top bit
      is set. */
  function Reached(v: Volume, ch: seq<nat>): (k: nat)
    requires ch != []
    ensures 1 <= k <= |ch|
  {
    if |ch| == 1 || TopBit(v, ch[0]) then 1 else 1 + Reached(v, ch[1..])
  }

  predicate TopBit(v: Volume, c: nat) { TableWord(v, c) >= WORD / 2 }

  lemma {:induction false} ReachedIs(v: Volume, ch: seq<nat>)
    requires ch != []
    ensures var k := Reached(v, ch);
            && (forall i :: 0 <= i < k - 1 ==> !TopBit(v, ch[i]))
            && (k < |ch| ==> TopBit(v, ch[k - 1]))
  {
    hide TopBit;
    if |ch| > 1 && !TopBit(v, ch[0]) {
      ReachedIs(v, ch[1..]);
      assert forall i :: 1 <= i < |ch| ==> ch[i] == ch[1..][i - 1];
    }
  }

  /** The code follows a chain to its end if and only if no entry on the way there has its
      top bit set. */
  lemma ReachesEndIff(v: Volume, ch: seq<nat>)
    requires ch != []
    ensures Reached(v, ch) == |ch| <==> forall i :: 0 <= i < |ch| - 1 ==> TableWord(v, ch[i]) < WORD / 2
  {
    hide TableWord, Reached;
    ReachedIs(v, ch);
    assert forall i :: 0 <= i < |ch| ==> (TopBit(v, ch[i]) <==> TableWord(v, ch[i]) >= WORD / 2);
  }

  /** Step by step along the part of a chain that the code gets to. */
  lemma ReachedStep(v: Volume, ch: seq<nat>, i: nat)
    requires Chain(v, ch) && i < Reached(v, ch)
    ensures ch[i] >= 2
    ensures i + 1 < |ch| ==> NextCluster(v, ch[i]) == if i + 1 < Reached(v, ch) then Some(ch[i + 1]) else None
    ensures i + 1 == |ch| && Successor(v, ch[i]) == None ==> NextCluster(v, ch[i]) == None
  {
    hide TableWord, NextCluster, Reached;
    ReachedIs(v, ch);
    NextIsSuccessorIff(v, ch[i]);
  }

  /** The bytes of `n` consecutive sectors. */
  function SectorBytes(v: Volume, first: int, n: nat): (b: seq<byte>)
    ensures |b| == BLK_SIZE * n
  {
    if n == 0 then [] else SectorBytes(v, first, n - 1) + v.disk(first + n - 1)
  }

  /** The bytes of the clusters of a chain, one after the other. */
  function ChainBytes(v: Volume, ch: seq<nat>): seq<byte> {
    if ch == [] then [] else ChainBytes(v, ch[..|ch| - 1]) + SectorBytes(v, SectorOf(v, ch[|ch| - 1]), v.cluslen)
  }

  /** What a file of `size` bytes on this chain contains. */
  function Content(v: Volume, ch: seq<nat>, size: nat): seq<byte>
    requires size <= |ChainBytes(v, ch)|
  {
    ChainBytes(v, ch)[..size]
  }

  /** The bytes of so many whole clusters. */
  function BytesIn(cluslen: nat, clusters: nat): nat { BLK_SIZE * (cluslen * clusters) }

  lemma BytesInGrow(cluslen: nat, i: nat, n: nat)
    requires i <= n
    ensures BytesIn(cluslen, i) <= BytesIn(cluslen, n) && BytesIn(cluslen, 0) == 0
    ensures BytesIn(cluslen, i + 1) == BytesIn(cluslen, i) + BLK_SIZE * cluslen
  {
    assert cluslen * n == cluslen * i + cluslen * (n - i);
    assert cluslen * (i + 1) == cluslen * i + cluslen;
  }

  lemma {:induction false} ChainBytesLength(v: Volume, ch: seq<nat>)
    ensures |ChainBytes(v, ch)| == BytesIn(v.cluslen, |ch|)
  {
    if ch != [] {
      ChainBytesLength(v, ch[..|ch| - 1]);
      BytesInGrow(v.cluslen, |ch| - 1, |ch|);
    }
  }

  lemma {:induction false} ChainBytesPrefix(v: Volume, ch: seq<nat>, i: nat)
    requires i <= |ch|
    ensures ChainBytes(v, ch[..i]) <= ChainBytes(v, ch)
  {
    if i == |ch| {
      assert ch[..i] == ch;
    } else {
      ChainBytesPrefix(v, ch[..|ch| - 1], i);
      assert ch[..|ch| - 1][..i] == ch[..i];
    }
  }

  /** The last sector of a cluster tells which cluster it is: the way the long reader finds
      its place in the chain again. */
  lemma ClusterOfLastSector(v: Volume, c: nat)
    requires Mounted(v) && c >= 2
    ensures (SectorOf(v, c) + v.cluslen - 1 - v.root) / v.cluslen + 2 == c
  {
    DivideBack(c - 2, v.cluslen, v.cluslen - 1);
  }

  // ----- where the bytes of a file lie on the disk -----

  lemma {:induction false} SectorByteAt(v: Volume, first: int, n: nat, s: nat, i: nat)
    requires s < n && i < 512
    ensures 512 * s + i < |SectorBytes(v, first, n)| && SectorBytes(v, first, n)[512 * s + i] == v.disk(first + s)[i]
  {
    if s < n - 1 { SectorByteAt(v, first, n - 1, s, i); }
  }

  /** Byte `i` of sector `s` of the cluster numbered `j` in a chain lies in that sector of that
      cluster, clusters being counted from 2 at the root. */
  lemma {:induction false} ChainByteAt(v: Volume, ch: seq<nat>, j: nat, s: nat, i: nat)
    requires j < |ch| && s < v.cluslen && i < 512
    ensures var k := 512 * (v.cluslen * j) + 512 * s + i;
            && k < |ChainBytes(v, ch)| == 512 * (v.cluslen * |ch|)
            && ChainBytes(v, ch)[k] == v.disk(v.root + (ch[j] - 2) * v.cluslen + s)[i]
  {
    ChainBytesLength(v, ch);
    var n := |ch| - 1;
    ChainBytesLength(v, ch[..n]);
    BytesInGrow(v.cluslen, j + 1, n + 1);
    BytesInGrow(v.cluslen, j, n + 1);
    if j < n {
      ChainByteAt(v, ch[..n], j, s, i);
    } else {
      SectorByteAt(v, SectorOf(v, ch[n]), v.cluslen, s, i);
    }
  }
}
