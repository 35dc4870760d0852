/** Reading a file from a FAT32 volume: the loops that fetch sectors cluster by cluster,
    and what the caller gets out of them. */
module Fat32Read {
  import opened Bytes
  import opened Wrappers
  import opened Fat32

  function Min(a: nat, b: nat): nat { if a < b then a else b }

  /** `data` written into `was` at `at`. */
  function Patched(was: seq<byte>, at: nat, data: seq<byte>): seq<byte>
    requires at + |data| <= |was|
  {
    was[..at] + data + was[at + |data|..]
  }

  /** The inner copying loop of both readers: the first `n` bytes of a sector go to `buf` at `at`. */
  method CopyBytes(buf: array<byte>, at: nat, data: Sector, n: nat)
    requires n <= BLK_SIZE && at + n <= buf.Length
    modifies buf
    ensures buf[..] == Patched(old(buf[..]), at, data[..n])
  {
    for j := 0 to n
      invariant forall k :: 0 <= k < buf.Length ==> buf[k] == if at <= k < at + j then data[k - at] else old(buf[k])
    {
      buf[at + j] := data[j];
    }
  }

  /** `count` consecutive sectors starting at `first` go to `buf` at `at`, as long as there
      are bytes left to read; `len'` is what is left then and `next` the sector reached. */
  method ReadSectors(v: Volume, first: int, count: nat, len: nat, buf: array<byte>, at: nat)
    returns (len': nat, total: nat, next: int)
    requires at + len <= buf.Length
    modifies buf
    ensures total == at + Min(len, BLK_SIZE * count) && len' == len - Min(len, BLK_SIZE * count)
    ensures buf[..] == Patched(old(buf[..]), at, SectorBytes(v, first, count)[..total - at])
    ensures len' > 0 ==> next == first + count
  {
    hide SectorBytes, Patched;
    NothingRead(v, first, buf[..], at);
    len', total, next := len, at, first;
    ghost var was := buf[..];
    var j := 0;
    while j < count
      invariant j <= count && total == at + Min(len, BLK_SIZE * j) && len' == len - (total - at)
      invariant buf[..] == Patched(was, at, SectorBytes(v, first, j)[..total - at])
      invariant next == first + j
    {
      var bread := if len' > BLK_SIZE then BLK_SIZE else len';
      CopyBytes(buf, total, v.disk(next), bread);
      SectorsGoOn(v, first, j, was, at, total, bread);
      len', total := len' - bread, total + bread;
      if len' == 0 {
        SectorBytesPrefix(v, first, j + 1, count);
        assert SectorBytes(v, first, count)[..total - at] == SectorBytes(v, first, j + 1)[..total - at];
        break;
      }
      j, next := j + 1, next + 1;
    }
  }

  lemma NothingRead(v: Volume, first: int, was: seq<byte>, at: nat)
    requires at <= |was|
    ensures SectorBytes(v, first, 0) == [] && Patched(was, at, []) == was
  {
  }

  lemma SectorsGoOn(v: Volume, first: int, j: nat, was: seq<byte>, at: nat, total: nat, bread: nat)
    requires bread <= BLK_SIZE && at <= total <= at + BLK_SIZE * j && total + bread <= |was|
    requires bread > 0 ==> total == at + BLK_SIZE * j
    ensures Patched(Patched(was, at, SectorBytes(v, first, j)[..total - at]), total, v.disk(first + j)[..bread])
            == Patched(was, at, SectorBytes(v, first, j + 1)[..total + bread - at])
  {
  }

  lemma {:induction false} SectorBytesPrefix(v: Volume, first: int, j: nat, n: nat)
    requires j <= n
    ensures SectorBytes(v, first, j) <= SectorBytes(v, first, n)
  {
    if j < n { SectorBytesPrefix(v, first, j, n - 1); }
  }

  /** The reader for requests that stay within one cluster. */
  method ReadShortFile(v: Volume, nbsectors: nat, first: int, len: nat, buf: array<byte>) returns (total: nat)
    requires len <= buf.Length
    modifies buf
    ensures total == Min(len, BLK_SIZE * nbsectors)
    ensures buf[..] == Patched(old(buf[..]), 0, SectorBytes(v, first, nbsectors)[..total])
  {
    hide SectorBytes, Patched;
    NothingRead(v, first, buf[..], 0);
    total := 0;
    var len', sector := len, first;
    ghost var was := buf[..];
    for i := 0 to nbsectors
      invariant total == Min(len, BLK_SIZE * i) && len' == len - total && sector == first + i
      invariant buf[..] == Patched(was, 0, SectorBytes(v, first, i)[..total])
    {
      var nbcpy := if len' > BLK_SIZE then BLK_SIZE else len';
      CopyBytes(buf, total, v.disk(sector), nbcpy);
      SectorsGoOn(v, first, i, was, 0, total, nbcpy);
      total, len', sector := total + nbcpy, len' - nbcpy, sector + 1;
    }
  }

  // ----- following the chain -----

  /** Clusters that hold this many sectors. */
  function ClustersFor(nbsectors: nat, cluslen: nat): nat
    requires cluslen > 0
  {
    nbsectors / cluslen + (if nbsectors % cluslen != 0 then 1 else 0)
  }

  lemma ChainGoesOn(v: Volume, ch: seq<nat>, i: nat, was: seq<byte>, n: nat)
    requires i < |ch| && n <= BLK_SIZE * v.cluslen && |ChainBytes(v, ch[..i])| + n <= |was|
    ensures |ChainBytes(v, ch[..i + 1])| == |ChainBytes(v, ch[..i])| + BLK_SIZE * v.cluslen
    ensures Patched(Patched(was, 0, ChainBytes(v, ch[..i])), |ChainBytes(v, ch[..i])|,
            SectorBytes(v, SectorOf(v, ch[i]), v.cluslen)[..n])
            == Patched(was, 0, ChainBytes(v, ch[..i + 1])[..|ChainBytes(v, ch[..i])| + n])
  {
    assert ch[..i + 1][..i] == ch[..i] && ch[..i + 1][i] == ch[i];
  }

  /** The chain is long enough for a file of `len` bytes. */
  ghost predicate Covers(v: Volume, ch: seq<nat>, len: nat) {
    Mounted(v) && Chain(v, ch) && len <= |ChainBytes(v, ch)|
  }

  /** From the last sector of cluster `c` to the first sector of the next cluster, by way of
      the table. */
  method FollowChain(v: Volume, last: int, ghost c: nat) returns (found: bool, first: int)
    requires Mounted(v) && c >= 2 && last == SectorOf(v, c) + v.cluslen - 1
    ensures found <==> NextCluster(v, c).Some?
    ensures found ==> first == SectorOf(v, NextCluster(v, c).value)
    ensures c < WORD / 4 ==> (found <==> TableWord(v, c) < WORD / 2 && Successor(v, c).Some?)
    ensures c < WORD / 4 && found ==> first == SectorOf(v, Successor(v, c).value)
  {
    hide TableWord;
    ClusterOfLastSector(v, c);
    if c < WORD / 4 { NextIsSuccessorIff(v, c); }
    var curclus := (last - v.root) / v.cluslen + 2;
    var entry := GetEntry(v, curclus);
    if entry < 0 { return false, last; }
    entry := entry % (CLUSTER_MASK + 1);
    if entry >= CLUSTER_BAD { return false, last; }
    return true, v.root + (entry - 2) * v.cluslen;
  }

  /** One more cluster of the chain, as far as there are bytes left to read. */
  method ReadCluster(v: Volume, first: int, len: nat, buf: array<byte>,
        at: nat, ghost ch: seq<nat>, ghost i: nat, ghost was: seq<byte>)
    returns (len': nat, total: nat, next: int)
    requires i < |ch| && first == SectorOf(v, ch[i])
             && at == |ChainBytes(v, ch[..i])| && at + len <= buf.Length == |was|
    requires buf[..] == Patched(was, 0, ChainBytes(v, ch[..i]))
    modifies buf
    ensures total == at + Min(len, BLK_SIZE * v.cluslen) && len' == len - (total - at)
    ensures |ChainBytes(v, ch[..i + 1])| == at + BLK_SIZE * v.cluslen
    ensures buf[..] == Patched(was, 0, ChainBytes(v, ch[..i + 1])[..total])
    ensures len' > 0 ==> next == first + v.cluslen
  {
    hide SectorBytes, Patched, ChainBytes;
    len', total, next := ReadSectors(v, first, v.cluslen, len, buf, at);
    ChainGoesOn(v, ch, i, was, total - at);
  }

  method CountClusters(nbsectors: nat, cluslen: nat) returns (nbclusters: nat)
    requires cluslen > 0
    ensures nbclusters == ClustersFor(nbsectors, cluslen)
  {
    nbclusters := nbsectors / cluslen;
    if nbsectors % cluslen != 0 { nbclusters := nbclusters + 1; }
  }

  /** The reader that goes from cluster to cluster: it recovers its place in the chain from
      the last sector it read and looks the next cluster up in the table. */
  method ReadLongFile(v: Volume, nbsectors: nat, len: nat, buf: array<byte>, first: int, ghost ch: seq<nat>)
        returns (total: nat)
    requires Covers(v, ch, len) && first == SectorOf(v, ch[0]) && len <= buf.Length
    modifies buf
    ensures total == Min(len, BytesIn(v.cluslen, Min(ClustersFor(nbsectors, v.cluslen), Reached(v, ch))))
    ensures buf[..] == Patched(old(buf[..]), 0, ChainBytes(v, ch)[..total])
  {
    hide SectorBytes, Patched, ChainBytes, NextCluster, SectorOf, BytesIn, Reached, Successor, Chain, ClustersFor;
    ghost var was := buf[..];
    ReachedStep(v, ch, 0);
    EmptyChain(v, was);
    BytesInGrow(v.cluslen, 0, 0);
    var nbclusters := CountClusters(nbsectors, v.cluslen);
    total := 0;
    var i, len', sector := 0, len, first;
    assert ch[..0] == [];
    while i < nbclusters
      invariant i <= nbclusters && i < Reached(v, ch) && (i > 0 ==> len' > 0)
      invariant sector == SectorOf(v, ch[i])
      invariant total == |ChainBytes(v, ch[..i])| && len' + total == len
      invariant buf[..] == Patched(was, 0, ChainBytes(v, ch[..i]))
    {
      len', total, sector := ReadCluster(v, sector, len', buf, total, ch, i, was);
      FirstClusters(v, ch, i + 1);
      if len' == 0 {
        EnoughRead(v, ch, i + 1, Min(nbclusters, Reached(v, ch)), total);
        return;
      }
      WholeClusters(v, ch, i + 1, total);
      ReachedStep(v, ch, i);
      var found;
      found, sector := FollowChain(v, sector - 1, ch[i]);
      i := i + 1;
      if !found { break; }
    }
    FirstClusters(v, ch, i);
  }

  lemma FirstClusters(v: Volume, ch: seq<nat>, i: nat)
    requires i <= |ch|
    ensures |ChainBytes(v, ch[..i])| == BytesIn(v.cluslen, i) <= |ChainBytes(v, ch)|
    ensures ChainBytes(v, ch)[..|ChainBytes(v, ch[..i])|] == ChainBytes(v, ch[..i])
  {
    ChainBytesPrefix(v, ch, i);
    ChainBytesLength(v, ch[..i]);
  }

  lemma EmptyChain(v: Volume, was: seq<byte>)
    ensures ChainBytes(v, []) == [] && Patched(was, 0, []) == was
  {
  }

  /** All bytes read within the first `i` clusters: nothing more to come. */
  lemma EnoughRead(v: Volume, ch: seq<nat>, i: nat, n: nat, total: nat)
    requires i <= n && i <= |ch| && total <= |ChainBytes(v, ch[..i])|
    ensures total <= BytesIn(v.cluslen, n) && total <= |ChainBytes(v, ch)|
    ensures ChainBytes(v, ch)[..total] == ChainBytes(v, ch[..i])[..total]
  {
    ChainBytesPrefix(v, ch, i);
    ChainBytesLength(v, ch[..i]);
    BytesInGrow(v.cluslen, i, n);
  }

  /** With bytes still to come the chain goes on. */
  lemma WholeClusters(v: Volume, ch: seq<nat>, i: nat, total: nat)
    requires 0 < i <= |ch| && total == |ChainBytes(v, ch[..i])| < |ChainBytes(v, ch)|
    ensures i < |ch| && ChainBytes(v, ch[..i])[..total] == ChainBytes(v, ch[..i])
  {
    assert ch[..|ch|] == ch;
  }

  // ----- reading a file -----

  /** What a directory entry says about a file: its first cluster and its size. */
  datatype File = File(first: nat, size: nat)

  /** Bytes asked for, once what is left of the file is taken into account in 32 bits. */
  function Wanted(size: nat, offset: nat, len: nat): nat {
    Min(len, (size - offset) % WORD)
  }

  /** Sectors the code reads for so many bytes. It rounds up unless the number of whole
      sectors is a non-zero multiple of 512. */
  function SectorsFor(wanted: nat): nat {
    var n := wanted / BLK_SIZE;
    if n % BLK_SIZE != 0 || n == 0 then n + 1 else n
  }

  /** Bytes that so many sectors bring in, when the code gets to `reached` clusters: as
      counted within one cluster, whole clusters beyond that. */
  function Brought(cluslen: nat, reached: nat, nbsectors: nat): nat
    requires cluslen > 0
  {
    if nbsectors <= cluslen then BLK_SIZE * nbsectors
    else BytesIn(cluslen, Min(ClustersFor(nbsectors, cluslen), reached))
  }

  /** How much of the file's beginning is in memory after the read. */
  function Loaded(cluslen: nat, reached: nat, size: nat, wanted: nat): nat
    requires cluslen > 0
  {
    Min(size, Brought(cluslen, reached, SectorsFor(wanted)))
  }

  /** How many bytes the caller gets. */
  function Count(size: nat, offset: nat, len: nat): nat {
    if offset >= size then 0 else Min(len, size - offset)
  }

  /** The bytes the caller gets: file contents as far as they were loaded, and beyond that
      whatever the buffer held before. */
  function Returned(content: seq<byte>, junk: seq<byte>, loaded: nat, offset: nat, count: nat): seq<byte>
    requires count > 0 ==> offset + count <= |content| && |content| <= |junk|
  {
    seq(count, k requires 0 <= k < count => if offset + k < loaded then content[offset + k] else junk[offset + k])
  }

  /** Fill a buffer with the beginning of the file. */
  method LoadFile(v: Volume, file: File, nbsectors: nat, buff: array<byte>, ghost ch: seq<nat>) returns (total: nat)
    requires Covers(v, ch, file.size) && ch[0] == file.first && file.size <= buff.Length
    modifies buff
    ensures total == Min(file.size, Brought(v.cluslen, Reached(v, ch), nbsectors))
    ensures buff[..] == Patched(old(buff[..]), 0, ChainBytes(v, ch)[..total])
  {
    hide Patched, SectorBytes, ChainBytes, BytesIn, ClustersFor, Reached;
    var sector := v.root + (file.first - 2) * v.cluslen;
    if nbsectors <= v.cluslen {
      total := ReadShortFile(v, nbsectors, sector, file.size, buff);
      FirstCluster(v, ch, nbsectors, total);
    } else {
      total := ReadLongFile(v, nbsectors, file.size, buff, sector, ch);
    }
  }

  lemma FirstCluster(v: Volume, ch: seq<nat>, n: nat, total: nat)
    requires ch != [] && n <= v.cluslen && total <= BLK_SIZE * n
    ensures total <= |ChainBytes(v, ch)| && SectorBytes(v, SectorOf(v, ch[0]), n)[..total] == ChainBytes(v, ch)[..total]
  {
    ChainBytesPrefix(v, ch, 1);
    SectorBytesPrefix(v, SectorOf(v, ch[0]), n, v.cluslen);
    assert ch[..1][..0] == [] && ChainBytes(v, ch[..1]) == SectorBytes(v, SectorOf(v, ch[0]), v.cluslen);
  }

  /** A buffer for the whole file, with as much of it as the counted sectors hold; `junk` is
      what the allocator's memory happens to contain. */
  method FillBuffer(v: Volume, file: File, nbsectors: nat, junk: seq<byte>, ghost ch: seq<nat>)
        returns (buff: array<byte>)
    requires Covers(v, ch, file.size) && ch[0] == file.first && |junk| == file.size + 1
    ensures fresh(buff) && buff.Length == |junk|
    ensures var total := Min(file.size, Brought(v.cluslen, Reached(v, ch), nbsectors));
            forall k :: 0 <= k < file.size ==> buff[k] == if k < total then Content(v, ch, file.size)[k] else junk[k]
  {
    hide Chain, ChainBytes, Patched, Brought, Reached;
    buff := new byte[file.size + 1](i requires 0 <= i < |junk| => junk[i]);
    assert buff[..] == junk;
    var total := LoadFile(v, file, nbsectors, buff, ch);
    PatchedFront(junk, ChainBytes(v, ch)[..total]);
  }

  /** The last loop of the read: hand out what was asked for, then a NUL. */
  method CopyOut(buff: array<byte>, size: nat, offset: nat, len: nat, out: array<byte>) returns (count: nat)
    requires size < buff.Length && len < out.Length && buff != out
    modifies out
    ensures count == Count(size, offset, len)
    ensures forall k :: 0 <= k < count ==> out[k] == buff[offset + k]
    ensures out[count] == 0 && out[count + 1..] == old(out[count + 1..])
  {
    count := 0;
    while count < len && offset + count < size
      invariant count <= Count(size, offset, len)
      invariant forall k :: 0 <= k < count ==> out[k] == buff[offset + k]
      invariant out[count..] == old(out[count..])
    {
      out[count] := buff[offset + count];
      count := count + 1;
    }
    out[count] := 0;
  }

  method CountSectors(len: nat) returns (nbsectors: nat)
    ensures nbsectors == SectorsFor(len)
  {
    nbsectors := len / BLK_SIZE;
    if nbsectors % BLK_SIZE != 0 || nbsectors == 0 { nbsectors := nbsectors + 1; }
  }

  method ReadFile(v: Volume, file: File, offset: nat, len: nat, out: array<byte>, junk: seq<byte>, ghost ch: seq<nat>)
    returns (count: nat, offset': nat)
    requires Covers(v, ch, file.size) && ch[0] == file.first
    requires file.size < WORD && offset < WORD && len < WORD
    requires |junk| == file.size + 1 && len < out.Length
    modifies out
    ensures count == Count(file.size, offset, len) && offset' == offset + count
    ensures var content := Content(v, ch, file.size);
            var loaded := Loaded(v.cluslen, Reached(v, ch), file.size, Wanted(file.size, offset, len));
            out[..count] == Returned(content, junk, loaded, offset, count)
    ensures len > 0 ==> out[count] == 0
    ensures out[count + 1..] == old(out[count + 1..])
  {
    hide Chain, ChainBytes, Patched, Brought, Reached, Count, Successor, SectorsFor;
    if len == 0 {
      NothingWanted(file.size, offset);
      count, offset' := 0, offset;
    } else {
      var left, len' := (file.size - offset) % WORD, len;
      if left < len' { len' := left; }
      WantedCounts(file.size, offset, len);
      var nbsectors := CountSectors(len');
      var buff := FillBuffer(v, file, nbsectors, junk, ch);
      count := CopyOut(buff, file.size, offset, len', out);
      offset' := offset + count;
    }
  }

  lemma NothingWanted(size: nat, offset: nat)
    ensures Count(size, offset, 0) == 0
  {
  }

  /** Cutting the request to what is left does not change how many bytes come back. */
  lemma WantedCounts(size: nat, offset: nat, len: nat)
    requires size < WORD && offset < WORD && len < WORD
    ensures Count(size, offset, Wanted(size, offset, len)) == Count(size, offset, len)
    ensures Wanted(size, offset, len) <= len && Count(size, offset, len) <= len
    ensures Count(size, offset, len) > 0 ==> offset + Count(size, offset, len) <= size
  {
  }

  lemma PatchedFront(was: seq<byte>, data: seq<byte>)
    requires |data| <= |was|
    ensures forall k :: 0 <= k < |was| ==> Patched(was, 0, data)[k] == if k < |data| then data[k] else was[k]
    ensures |Patched(was, 0, data)| == |was|
  {
  }

  // ----- when a read is right -----

  /** Whatever the buffer held before, the caller gets the file's bytes. */
  ghost predicate Faithful(content: seq<byte>, loaded: nat, offset: nat, count: nat)
    requires count > 0 ==> offset + count <= |content|
  {
    forall junk: seq<byte> :: |junk| == |content| + 1 && count > 0 ==>
      Returned(content, junk, loaded, offset, count) == content[offset..offset + count]
  }

  /** The read is right for every buffer if and only if what is returned lies within the
      beginning of the file that was loaded. */
  lemma FaithfulIff(content: seq<byte>, loaded: nat, offset: nat, count: nat)
    requires count > 0 ==> offset + count <= |content|
    ensures Faithful(content, loaded, offset, count) <==> count == 0 || offset + count <= loaded
  {
    if count > 0 && offset + count > loaded {
      var last := offset + count - 1;
      var junk := seq(|content| + 1, k requires 0 <= k <= |content| =>
        if k == last && content[last] == 0 then 1 else 0);
      assert Returned(content, junk, loaded, offset, count)[count - 1] == junk[last];
      assert content[offset..offset + count][count - 1] == content[last];
    }
  }

  lemma ClustersCover(n: nat, cluslen: nat)
    requires cluslen > 0
    ensures BytesIn(cluslen, ClustersFor(n, cluslen)) >= BLK_SIZE * n
    ensures n % cluslen == 0 ==> BytesIn(cluslen, ClustersFor(n, cluslen)) == BLK_SIZE * n
  {
    var q, r := n / cluslen, n % cluslen;
    QuotientTimes(n, cluslen);
    assert cluslen * (q + 1) == cluslen * q + cluslen;
  }

  lemma QuotientTimes(n: nat, d: nat)
    requires d > 0
    ensures n == d * (n / d) + n % d && n % d < d
  {
  }

  /** The cluster sizes FAT32 allows: 1 to 128 sectors, a power of two. */
  predicate ClusterSize(cluslen: nat) {
    cluslen in {1, 2, 4, 8, 16, 32, 64, 128}
  }

  /** Sectors of the file's beginning that a read of `count` bytes fetches, wherever it
      starts: as counted within one cluster, rounded up to whole clusters beyond that. */
  function Fetched(cluslen: nat, count: nat): nat
    requires cluslen > 0
  {
    var n := SectorsFor(count);
    if n <= cluslen then n else cluslen * ClustersFor(n, cluslen)
  }

  /** Bytes read at an offset are right if and only if they end within the sectors that a
      read of their number fetches from the file's beginning, and within the clusters that
      the code gets to. */
  lemma ReadIff(cluslen: nat, reached: nat, content: seq<byte>, offset: nat, len: nat)
    requires cluslen > 0 && reached > 0 && |content| < WORD && offset < WORD && len < WORD
    ensures var count := Count(|content|, offset, len);
            var loaded := Loaded(cluslen, reached, |content|, Wanted(|content|, offset, len));
            && (count > 0 ==> offset + count <= |content|)
            && (Faithful(content, loaded, offset, count) <==>
                count == 0 || offset + count <= Min(BLK_SIZE * Fetched(cluslen, count), BytesIn(cluslen, reached)))
  {
    hide Faithful, ClustersFor, SectorsFor;
    WantedCounts(|content|, offset, len);
    var count := Count(|content|, offset, len);
    FaithfulIff(content, Loaded(cluslen, reached, |content|, Wanted(|content|, offset, len)), offset, count);
    if count > 0 {
      assert Wanted(|content|, offset, len) == count;
      BroughtIs(cluslen, reached, SectorsFor(count));
    }
  }

  lemma BroughtIs(cluslen: nat, reached: nat, n: nat)
    requires cluslen > 0 && reached > 0
    ensures Brought(cluslen, reached, n)
            == Min(BLK_SIZE * (if n <= cluslen then n else cluslen * ClustersFor(n, cluslen)),
              BytesIn(cluslen, reached))
  {
    hide ClustersFor;
    BytesInGrow(cluslen, 1, reached);
    var k := ClustersFor(n, cluslen);
    if k <= reached { BytesInGrow(cluslen, k, reached); } else { BytesInGrow(cluslen, reached, k); }
  }

  /** Rounding up to whole clusters adds less than one cluster. */
  lemma WholeClustersBounds(n: nat, cluslen: nat)
    requires cluslen > 0
    ensures n <= cluslen * ClustersFor(n, cluslen) < n + cluslen
  {
    var q, r := n / cluslen, n % cluslen;
    QuotientTimes(n, cluslen);
    assert cluslen * (q + 1) == cluslen * q + cluslen;
  }

  lemma FetchedBounds(cluslen: nat, count: nat)
    requires cluslen > 0
    ensures Fetched(cluslen, count) <= count / BLK_SIZE + cluslen
  {
    hide ClustersFor;
    WholeClustersBounds(SectorsFor(count), cluslen);
  }

  /** How many bytes a read returns: all that were asked for if the file has them, else what
      is left. */
  lemma CountIs(size: nat, offset: nat, len: nat)
    ensures offset + len <= size ==> Count(size, offset, len) == len
    ensures offset <= size < offset + len ==> offset + Count(size, offset, len) == size
    ensures offset > size ==> Count(size, offset, len) == 0
  {
  }

  /** How many sectors are fetched: those that the bytes fill and one more, the latter missing
      where the former are 512 or a multiple of that; and whole clusters beyond the first. */
  lemma FetchedIs(cluslen: nat, count: nat, full: nat, rest: nat, n: nat)
    requires cluslen > 0 && count == 512 * full + rest && rest < 512
    requires n == if full > 0 && exists k: nat :: full == 512 * k then full else full + 1
    ensures n <= cluslen ==> Fetched(cluslen, count) == n
    ensures n > cluslen ==>
              n <= Fetched(cluslen, count) < n + cluslen && exists k: nat :: Fetched(cluslen, count) == cluslen * k
  {
    assert count / 512 == full;
    if full % 512 == 0 { assert full == 512 * (full / 512); }
    assert SectorsFor(count) == n;
    WholeClustersBounds(n, cluslen);
  }

  /** Reading from the start of a file is right if and only if the code gets to all the
      clusters it takes and the request does not end inside a sector after a non-zero
      multiple of 512 whole sectors: there the sector count is not rounded up and the last
      bytes are never fetched. */
  lemma ReadFromStartIff(cluslen: nat, reached: nat, content: seq<byte>, len: nat)
    requires ClusterSize(cluslen) && reached > 0 && 0 < |content| < WORD && 0 < len < WORD
    ensures var count := Count(|content|, 0, len);
      Faithful(content, Loaded(cluslen, reached, |content|, Wanted(|content|, 0, len)), 0, count) <==>
      && count <= BytesIn(cluslen, reached)
      && !(count / BLK_SIZE > 0 && count / BLK_SIZE % BLK_SIZE == 0 && count % BLK_SIZE != 0)
  {
    var count := Count(|content|, 0, len);
    ReadIff(cluslen, reached, content, 0, len);
    var n := SectorsFor(count);
    ClustersCover(n, cluslen);
    if n == count / BLK_SIZE { WholeTracks(n, cluslen); }
  }

  /** A multiple of 512 sectors fills whole clusters, more than one. */
  lemma WholeTracks(n: nat, cluslen: nat)
    requires ClusterSize(cluslen) && n > 0 && n % BLK_SIZE == 0
    ensures n > cluslen && n % cluslen == 0
  {
    var k := n / BLK_SIZE;
    assert n == BLK_SIZE * k;
  }

  /** A file of 512 * 512 + 1 bytes read in one go comes back wrong, even when the code gets
      to all its clusters. */
  lemma ShortByOneByte(reached: nat, content: seq<byte>)
    requires reached > 0 && |content| == 262145
    ensures !Faithful(content, Loaded(8, reached, |content|, Wanted(|content|, 0, 262145)), 0, 262145)
  {
    ReadFromStartIff(8, reached, content, 262145);
  }

  /** A read inside the file that starts far enough from its beginning is always wrong. */
  lemma FarReadFails(cluslen: nat, reached: nat, content: seq<byte>, offset: nat, len: nat)
    requires cluslen > 0 && reached > 0 && |content| < WORD && 0 < len && offset + len <= |content|
    requires offset >= BLK_SIZE * (len / BLK_SIZE + cluslen)
    ensures !Faithful(content, Loaded(cluslen, reached, |content|, Wanted(|content|, offset, len)), offset, len)
  {
    ReadIff(cluslen, reached, content, offset, len);
    FetchedBounds(cluslen, len);
  }

  /** A read of one sector behind the first two comes back wrong. */
  lemma ThirdSectorFails(reached: nat, content: seq<byte>)
    requires reached > 0 && 1536 <= |content| < WORD
    ensures !Faithful(content, Loaded(8, reached, |content|, Wanted(|content|, 1024, 512)), 1024, 512)
  {
    ReadIff(8, reached, content, 1024, 512);
  }

  lemma FetchedGrows(cluslen: nat, a: nat, b: nat)
    requires cluslen > 0 && a <= b
    ensures Fetched(cluslen, a) <= Fetched(cluslen, b)
  {
    var m, n := SectorsFor(a), SectorsFor(b);
    QuotientTimes(m, cluslen);
    QuotientTimes(n, cluslen);
    WholeClustersBounds(n, cluslen);
    RoundedUpGrows(m, n, cluslen);
  }

  lemma RoundedUpGrows(m: nat, n: nat, cluslen: nat)
    requires cluslen > 0 && m <= n
    ensures cluslen * ClustersFor(m, cluslen) <= cluslen * ClustersFor(n, cluslen)
  {
    hide ClustersFor;
    WholeClustersBounds(m, cluslen);
    WholeClustersBounds(n, cluslen);
    var a, b := ClustersFor(m, cluslen), ClustersFor(n, cluslen);
    if a > b { OneMoreTimes(cluslen, b, a); }
  }

  lemma OneMoreTimes(n: nat, b: int, a: int)
    requires a > b
    ensures n * a >= n * b + n
  {
    var d := a - b - 1;
    assert n * a == n * b + n + n * d;
  }

  /** The piece numbered `k` of a file that is read in pieces of `len` bytes is right. */
  ghost predicate PieceRight(cluslen: nat, reached: nat, content: seq<byte>, len: nat, k: nat)
    requires cluslen > 0
  {
    var offset := k * len;
    var count := Count(|content|, offset, len);
    Faithful(content, Loaded(cluslen, reached, |content|, Wanted(|content|, offset, len)), offset, count)
  }

  lemma LastPiece(size: nat, len: nat) returns (k: nat)
    requires 0 < size && 0 < len
    ensures k * len + (size - 1) % len + 1 == size
    ensures forall j: nat :: j * len < size ==> j * len + len <= size || j == k
  {
    k := (size - 1) / len;
    QuotientTimes(size - 1, len);
    assert k * len == len * k;
    forall j: nat | j * len < size ensures j * len + len <= size || j == k {
      if j < k { OneMoreTimes(len, j, k); }
      if j > k { OneMoreTimes(len, k, j); }
    }
  }

  /** A file read from start to end in pieces of a fixed length comes back right if and only
      if its last piece does, that is, if the whole file lies within the sectors fetched
      for the last piece alone and within the clusters the code gets to. */
  lemma PiecesIff(cluslen: nat, reached: nat, content: seq<byte>, len: nat)
    requires cluslen > 0 && reached > 0 && 0 < |content| < WORD && 0 < len < WORD
    ensures (forall k: nat :: k * len < |content| ==> PieceRight(cluslen, reached, content, len, k)) <==>
            |content| <= Min(BLK_SIZE * Fetched(cluslen, (|content| - 1) % len + 1), BytesIn(cluslen, reached))
  {
    hide Fetched, Faithful, Loaded;
    var size, last := |content|, (|content| - 1) % len + 1;
    var k := LastPiece(size, len);
    FetchedGrows(cluslen, last, len);
    forall j: nat | j * len < size
      ensures PieceRight(cluslen, reached, content, len, j) <==>
              var count := Count(size, j * len, len);
              j * len + count <= Min(BLK_SIZE * Fetched(cluslen, count), BytesIn(cluslen, reached))
    {
      ReadIff(cluslen, reached, content, j * len, len);
    }
    assert k * len < size && Count(size, k * len, len) == last;
  }

  // ----- a volume where the code loses a file's second cluster -----

  /** A table that chains cluster 2 to cluster 3, with a reserved bit set on the way, and ends
      the chain there. */
  function TopBitTable(): Sector {
    seq(BLK_SIZE, i =>
      if i == 8 then 3 else if i == 11 then 0x80 else if 12 <= i < 15 then 0xFF else if i == 15 then 0x0F else 0)
  }

  function TopBitVolume(): Volume {
    Volume((n: int) => TopBitTable(), 1, 0, 1)
  }

  lemma TopBitEntries()
    ensures var v := TopBitVolume(); TableWord(v, 2) == 0x8000_0003 && TableWord(v, 3) == 0x0FFF_FFFF
  {
    var v, t := TopBitVolume(), TopBitTable();
    assert TableByte(v, 8) == t[8] == 3 && TableByte(v, 9) == t[9] == 0
      && TableByte(v, 10) == t[10] == 0 && TableByte(v, 11) == t[11] == 0x80;
    assert TableByte(v, 12) == t[12] == 0xFF && TableByte(v, 13) == t[13] == 0xFF
      && TableByte(v, 14) == t[14] == 0xFF && TableByte(v, 15) == t[15] == 0x0F;
  }

  /** Any file of two sectors on that chain is wrong from its second sector on. */
  lemma TopBitCutsChain(content: seq<byte>)
    requires |content| == 1024
    ensures var v, ch := TopBitVolume(), [2, 3];
            && Covers(v, ch, 1024) && Successor(v, 3) == None && NextCluster(v, 2) == None && Reached(v, ch) == 1
            && !Faithful(content, Loaded(1, Reached(v, ch), 1024, Wanted(1024, 0, 1024)), 0, 1024)
  {
    hide TableWord, NextCluster, ChainBytes, Faithful, Loaded;
    var v, ch := TopBitVolume(), [2, 3];
    TopBitEntries();
    ChainBytesLength(v, ch);
    NextIsSuccessorIff(v, 2);
    ReadIff(1, 1, content, 0, 1024);
  }
}
