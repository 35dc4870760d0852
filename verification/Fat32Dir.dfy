/** The root directory of a FAT32 volume: listing it and looking a file up in it (Microsoft
    FAT32 File System Specification, version 1.03, "FAT Directory Structure"). */
module Fat32Dir {
  import opened Bytes
  import opened Wrappers
  import opened Fat32
  import opened Fat32Read

  const ENTRY_SIZE := 32
  const DELETED := 0xE5
  const SPACE := 0x20
  const DOT := 0x2E

  /** One short-name directory entry. */
  datatype Entry = Entry(name: seq<byte>, ext: seq<byte>, attrs: byte, cluster: nat, size: nat)

  predicate Formed(e: Entry) { |e.name| == 8 && |e.ext| == 3 }

  function EntryOf(b: seq<byte>): (e: Entry)
    requires |b| == ENTRY_SIZE
    ensures Formed(e)
  {
    Entry(b[0..8], b[8..11], b[11], WordOf(b[26], b[27], b[20], b[21]), WordOf(b[28], b[29], b[30], b[31]))
  }

  /** Where an entry's fields lie: the first cluster's upper half at byte 20 and its lower half
      at byte 26. */
  lemma EntryOfBytes(b: seq<byte>)
    requires |b| == 32
    ensures var e := EntryOf(b);
            && e.cluster == 65536 * (b[20] as int + 256 * b[21] as int) + b[26] as int + 256 * b[27] as int
            && e.size == b[28] as int + 256 * b[29] as int + 65536 * b[30] as int + 16777216 * b[31] as int
            && e.name == b[..8] && e.ext == b[8..11] && e.attrs == b[11]
  {
  }

  /** The entries stored in these bytes. */
  function Entries(b: seq<byte>): (es: seq<Entry>)
    ensures |es| == |b| / ENTRY_SIZE && forall i :: 0 <= i < |es| ==> Formed(es[i])
    decreases |b|
  {
    if |b| < ENTRY_SIZE then [] else [EntryOf(b[..ENTRY_SIZE])] + Entries(b[ENTRY_SIZE..])
  }

  lemma {:induction false} EntriesConcat(a: seq<byte>, b: seq<byte>)
    requires |a| % ENTRY_SIZE == 0
    ensures Entries(a + b) == Entries(a) + Entries(b)
    decreases |a|
  {
    hide EntryOf;
    if |a| < ENTRY_SIZE {
      assert a + b == b;
    } else {
      assert (a + b)[..ENTRY_SIZE] == a[..ENTRY_SIZE] && (a + b)[ENTRY_SIZE..] == a[ENTRY_SIZE..] + b;
      EntriesConcat(a[ENTRY_SIZE..], b);
    }
  }

  // ----- which entries count -----

  lemma TailSlice(b: seq<byte>, m: nat, p: nat, q: nat)
    requires m + p <= m + q <= |b|
    ensures b[m..][p..q] == b[m + p..m + q]
  {
  }

  /** Entry `k` is made of the 32 bytes from 32 * k on. */
  lemma {:induction false} EntriesAt(b: seq<byte>, k: nat)
    requires 32 * k + 32 <= |b|
    ensures k < |Entries(b)| && Entries(b)[k] == EntryOf(b[32 * k..32 * k + 32])
    decreases k
  {
    hide EntryOf;
    if k > 0 {
      EntriesAt(b[32..], k - 1);
      TailSlice(b, 32, 32 * (k - 1), 32 * k);
      assert Entries(b)[k] == Entries(b[32..])[k - 1];
    }
  }

  /** Volume labels, directories, long-name parts and deleted files are passed over, even
      when their first byte is the end mark. */
  predicate Hidden(e: Entry)
    requires Formed(e)
  {
    e.attrs / 8 % 2 == 1 || e.attrs / 16 % 2 == 1 || e.name[0] == DELETED
  }

  predicate IsEnd(e: Entry)
    requires Formed(e)
  {
    !Hidden(e) && e.name[0] == 0
  }

  ghost predicate AllFormed(es: seq<Entry>) { forall i :: 0 <= i < |es| ==> Formed(es[i]) }

  /** The files of a directory: its entries up to the end mark, without the hidden ones. */
  function Live(es: seq<Entry>): (r: seq<Entry>)
    requires AllFormed(es)
    ensures AllFormed(r)
  {
    if es == [] || IsEnd(es[0]) then []
    else if Hidden(es[0]) then Live(es[1..])
    else [es[0]] + Live(es[1..])
  }

  predicate Ended(es: seq<Entry>)
    requires AllFormed(es)
  {
    es != [] && (IsEnd(es[0]) || Ended(es[1..]))
  }

  lemma {:induction false} LiveConcat(a: seq<Entry>, b: seq<Entry>)
    requires AllFormed(a) && AllFormed(b)
    ensures AllFormed(a + b)
    ensures Live(a + b) == if Ended(a) then Live(a) else Live(a) + Live(b)
    ensures Ended(a + b) <==> Ended(a) || Ended(b)
  {
    if a == [] {
      assert a + b == b;
    } else {
      assert (a + b)[0] == a[0] && (a + b)[1..] == a[1..] + b;
      LiveConcat(a[1..], b);
    }
  }

  // ----- names -----

  /** The characters of the name proper: up to the first NUL or space. */
  function Stem(name: seq<byte>): (s: seq<byte>)
    ensures |s| <= |name| && s == name[..|s|]
    ensures forall i :: 0 <= i < |s| ==> s[i] != 0 && s[i] != SPACE
    ensures |s| < |name| ==> name[|s|] == 0 || name[|s|] == SPACE
  {
    if name == [] || name[0] == 0 || name[0] == SPACE then [] else [name[0]] + Stem(name[1..])
  }

  function ShortName(e: Entry): seq<byte> { Stem(e.name) + [DOT] + e.ext }

  function Upper(c: byte): byte { if 97 <= c <= 122 then c - 32 else c }

  function Uppers(s: seq<byte>): (r: seq<byte>)
    ensures |r| == |s| && forall i :: 0 <= i < |s| ==> r[i] == Upper(s[i])
  {
    seq(|s|, i requires 0 <= i < |s| => Upper(s[i]))
  }

  /** What looking up `name` accepts: the entry's stem begins the name, in capitals, and its
      extension ends it. Where the stem stops is not checked. */
  predicate Accepts(e: Entry, name: seq<byte>)
    requires Formed(e) && |name| >= 3
  {
    Stem(e.name) <= Uppers(name) && e.ext == Uppers(name[|name| - 3..])
  }

  /** `check_filename` on an entry and a NUL-terminated name of at least three characters. */
  method CheckFilename(e: Entry, name: seq<byte>) returns (ok: bool)
    requires Formed(e) && |name| >= 3
    ensures ok <==> Accepts(e, name)
  {
    var i := 0;
    while i < 8 && e.name[i] != 0 && e.name[i] != SPACE
      invariant i <= |Stem(e.name)| && Stem(e.name)[..i] <= Uppers(name)
    {
      var c := if i < |name| then name[i] else 0;
      if e.name[i] != Upper(c) { return false; }
      i := i + 1;
    }
    assert i == |Stem(e.name)|;
    ok := CheckExtension(e.ext, name);
  }

  method CheckExtension(ext: seq<byte>, name: seq<byte>) returns (ok: bool)
    requires |ext| == 3 && |name| >= 3
    ensures ok <==> ext == Uppers(name[|name| - 3..])
  {
    var j, k := 2, |name| - 1;
    while j >= 0
      invariant -1 <= j <= 2 && k == |name| - 3 + j
      invariant forall l :: j < l < 3 ==> ext[l] == Upper(name[|name| - 3 + l])
    {
      if ext[j] != Upper(name[k]) { return false; }
      j, k := j - 1, k - 1;
    }
    return true;
  }

  // ----- walking the directory's clusters -----

  /** The root directory's whole chain: it starts at cluster 2 and the table ends it. */
  ghost predicate Directory(v: Volume, ch: seq<nat>) {
    Mounted(v) && Chain(v, ch) && ch[0] == 2 && Successor(v, ch[|ch| - 1]) == None
  }

  /** The part of a chain that the code gets to. */
  function Followed(v: Volume, ch: seq<nat>): seq<nat>
    requires ch != []
  {
    ch[..Reached(v, ch)]
  }

  function DirEntries(v: Volume, ch: seq<nat>): (es: seq<Entry>)
    ensures AllFormed(es)
  {
    Entries(ChainBytes(v, ch))
  }

  lemma BlocksHoldEntries(n: nat)
    ensures BLK_SIZE * n % ENTRY_SIZE == 0
  {
    assert BLK_SIZE * n == ENTRY_SIZE * (16 * n);
  }

  lemma DirEntriesGrow(v: Volume, ch: seq<nat>, i: nat)
    requires i < |ch|
    ensures DirEntries(v, ch[..i + 1])
            == DirEntries(v, ch[..i]) + Entries(SectorBytes(v, SectorOf(v, ch[i]), v.cluslen))
    ensures DirEntries(v, []) == []
  {
    assert ch[..i + 1][..i] == ch[..i] && ch[..i + 1][i] == ch[i];
    ChainBytesLength(v, ch[..i]);
    BlocksHoldEntries(v.cluslen * |ch[..i]|);
    EntriesConcat(ChainBytes(v, ch[..i]), SectorBytes(v, SectorOf(v, ch[i]), v.cluslen));
  }

  // ----- listing -----

  function Names(es: seq<Entry>): (r: seq<seq<byte>>)
    ensures |r| == |es| && forall i :: 0 <= i < |es| ==> r[i] == ShortName(es[i])
  {
    seq(|es|, i requires 0 <= i < |es| => ShortName(es[i]))
  }

  function Cut(s: seq<seq<byte>>, n: nat): (r: seq<seq<byte>>)
    ensures r <= s && |r| == Min(|s|, n)
  {
    if |s| <= n then s else s[..n]
  }

  /** What listing a directory with these entries gives, at most `max` names. */
  function Listing(es: seq<Entry>, max: nat): seq<seq<byte>>
    requires AllFormed(es)
  {
    Cut(Names(Live(es)), max)
  }

  /** Listing goes on where it stopped: the entries of the next cluster are listed unless
      the end mark was met or the list is full. */
  lemma ListingGoesOn(a: seq<Entry>, b: seq<Entry>, max: nat)
    requires AllFormed(a) && AllFormed(b)
    ensures AllFormed(a + b)
    ensures |Listing(a, max)| == max || Ended(a) ==> Listing(a + b, max) == Listing(a, max)
    ensures !Ended(a) ==> Listing(a + b, max) == Cut(Listing(a, max) + Names(Live(b)), max)
  {
    LiveConcat(a, b);
    assert !Ended(a) ==> Names(Live(a) + Live(b)) == Names(Live(a)) + Names(Live(b));
  }

  /** List the entries of one cluster behind those already listed. */
  method ListCluster(es: seq<Entry>, ghost before: seq<Entry>, names: seq<seq<byte>>, max: nat)
        returns (names': seq<seq<byte>>, done: bool)
    requires AllFormed(es) && AllFormed(before) && names == Listing(before, max)
    requires |names| < max ==> !Ended(before)
    ensures AllFormed(before + es) && names' == Listing(before + es, max)
    ensures done ==> Ended(before + es)
    ensures !done && |names'| < max ==> !Ended(before + es)
  {
    names', done := names, false;
    assert before + es[..0] == before;
    var i := 0;
    while i < |es| && |names'| < max
      invariant i <= |es| && names' == Listing(before + es[..i], max)
      invariant |names'| < max ==> !Ended(before + es[..i])
    {
      OneMore(before, es, i, max);
      if !Hidden(es[i]) {
        if IsEnd(es[i]) {
          EndsHere(before, es, i, max);
          return names', true;
        }
        names' := names' + [ShortName(es[i])];
      }
      i := i + 1;
    }
    if i == |es| {
      assert es[..i] == es;
    } else {
      assert before + es == before + es[..i] + es[i..];
      ListingGoesOn(before + es[..i], es[i..], max);
    }
  }

  lemma OneMore(before: seq<Entry>, es: seq<Entry>, i: nat, max: nat)
    requires AllFormed(before) && AllFormed(es) && i < |es|
             && !Ended(before + es[..i]) && |Listing(before + es[..i], max)| < max
    ensures AllFormed(before + es[..i + 1])
    ensures Listing(before + es[..i + 1], max) ==
            Listing(before + es[..i], max) + (if Hidden(es[i]) || IsEnd(es[i]) then [] else [ShortName(es[i])])
    ensures Ended(before + es[..i + 1]) <==> IsEnd(es[i])
  {
    assert before + es[..i + 1] == before + es[..i] + [es[i]];
    LiveConcat(before + es[..i], [es[i]]);
    ListingGoesOn(before + es[..i], [es[i]], max);
    assert Live([es[i]]) == if Hidden(es[i]) || IsEnd(es[i]) then [] else [es[i]];
    assert Ended([es[i]]) == IsEnd(es[i]);
  }

  lemma EndsHere(before: seq<Entry>, es: seq<Entry>, i: nat, max: nat)
    requires AllFormed(before) && AllFormed(es) && i < |es| && Ended(before + es[..i + 1])
    ensures AllFormed(before + es) && Ended(before + es)
            && Listing(before + es, max) == Listing(before + es[..i + 1], max)
  {
    assert es[..i + 1] + es[i + 1..] == es && before + es == before + es[..i + 1] + es[i + 1..];
    LiveConcat(before + es[..i + 1], es[i + 1..]);
    ListingGoesOn(before + es[..i + 1], es[i + 1..], max);
  }

  /** `readdir`: the names of the files in the root directory, at most eight clusters' worth. */
  method ReadDir(v: Volume, ghost ch: seq<nat>) returns (names: seq<seq<byte>>)
    requires Directory(v, ch)
    ensures names == Listing(DirEntries(v, Followed(v, ch)), 8 * (BLK_SIZE * v.cluslen / ENTRY_SIZE))
    ensures Followed(v, ch) == ch || Ended(DirEntries(v, Followed(v, ch))) ==>
              names == Listing(DirEntries(v, ch), 8 * (BLK_SIZE * v.cluslen / ENTRY_SIZE))
  {
    hide Listing, SectorBytes, ChainBytes, Entries, Live, NextCluster, Ended, Reached;
    ListedSoFar(v, ch, Reached(v, ch), 8 * (BLK_SIZE * v.cluslen / ENTRY_SIZE));
    names := ListFollowed(v, ch, Followed(v, ch));
  }

  method ListFollowed(v: Volume, ghost whole: seq<nat>, ghost ch: seq<nat>) returns (names: seq<seq<byte>>)
    requires Directory(v, whole) && ch == Followed(v, whole)
    ensures names == Listing(DirEntries(v, ch), 8 * (BLK_SIZE * v.cluslen / ENTRY_SIZE))
  {
    hide Listing, SectorBytes, ChainBytes, Entries, Live, NextCluster, Ended, Followed, Directory;
    var max := 8 * (BLK_SIZE * v.cluslen / ENTRY_SIZE);
    names := [];
    var sector, curclus, done := v.root, 2, false;
    ghost var i := 0;
    DirectoryBegins(v, whole);
    DirEntriesGrow(v, ch, 0);
    assert ch[..0] == [] && Listing(DirEntries(v, []), max) == [] && !Ended(DirEntries(v, [])) by { EmptyListing(max); }
    while true
      invariant 0 <= i < |ch| && curclus == ch[i] && sector == SectorOf(v, ch[i])
      invariant names == Listing(DirEntries(v, ch[..i]), max)
      invariant |names| < max ==> !Ended(DirEntries(v, ch[..i]))
      decreases |ch| - i
    {
      var dir := Entries(SectorBytes(v, sector, v.cluslen));
      DirEntriesGrow(v, ch, i);
      names, done := ListCluster(dir, DirEntries(v, ch[..i]), names, max);
      DirectoryGoesOn(v, whole, ch, i);
      ListedSoFar(v, ch, i + 1, max);
      if done { return; }
      match NextCluster(v, curclus)
      case None => return;
      case Some(next) =>
        curclus, sector, i := next, v.root + (next - 2) * v.cluslen, i + 1;
    }
  }

  lemma EmptyListing(max: nat)
    ensures Listing([], max) == [] && !Ended([])
  {
  }

  lemma DirectoryBegins(v: Volume, whole: seq<nat>)
    requires Directory(v, whole)
    ensures var ch := Followed(v, whole); ch != [] && ch[0] == 2 && SectorOf(v, ch[0]) == v.root
    ensures v.cluslen > 0 && forall i :: 0 <= i < |Followed(v, whole)| ==> Followed(v, whole)[i] >= 2
  {
    hide Successor, Reached;
  }

  lemma DirectoryGoesOn(v: Volume, whole: seq<nat>, ch: seq<nat>, i: nat)
    requires Directory(v, whole) && ch == Followed(v, whole) && i < |ch|
    ensures NextCluster(v, ch[i]) == if i + 1 < |ch| then Some(ch[i + 1]) else None
  {
    hide NextCluster, Successor, Reached;
    ReachedStep(v, whole, i);
  }

  /** Once the end mark is met, or the chain is used up, nothing changes any more. */
  lemma ListedSoFar(v: Volume, ch: seq<nat>, i: nat, max: nat)
    requires i <= |ch|
    ensures Ended(DirEntries(v, ch[..i])) || i == |ch| ==>
            Listing(DirEntries(v, ch), max) == Listing(DirEntries(v, ch[..i]), max)
  {
    hide Listing, Live, Ended, Entries, ChainBytes;
    var rest := RestOfDirectory(v, ch, i);
    ListingGoesOn(DirEntries(v, ch[..i]), rest, max);
    assert ch[..|ch|] == ch;
  }

  lemma RestOfDirectory(v: Volume, ch: seq<nat>, i: nat) returns (rest: seq<Entry>)
    requires i <= |ch|
    ensures AllFormed(rest) && DirEntries(v, ch) == DirEntries(v, ch[..i]) + rest
  {
    hide Entries;
    var a, b := ChainBytes(v, ch[..i]), ChainBytes(v, ch);
    ChainBytesPrefix(v, ch, i);
    ChainBytesLength(v, ch[..i]);
    BlocksHoldEntries(v.cluslen * |ch[..i]|);
    assert b == a + b[|a|..];
    EntriesConcat(a, b[|a|..]);
    rest := Entries(b[|a|..]);
  }

  // ----- lookup -----

  /** Index of the first of these files that `name` is accepted for; `|es|` if there is none. */
  function FirstAccepted(es: seq<Entry>, name: seq<byte>): (r: nat)
    requires AllFormed(es) && |name| >= 3
    ensures r <= |es| && (r < |es| ==> Accepts(es[r], name))
    ensures forall i :: 0 <= i < r ==> !Accepts(es[i], name)
  {
    if es == [] || Accepts(es[0], name) then 0 else 1 + FirstAccepted(es[1..], name)
  }

  /** What looking `name` up in a directory with these entries gives. */
  function Lookup(es: seq<Entry>, name: seq<byte>): Option<Entry>
    requires AllFormed(es) && |name| >= 3
  {
    var i := FirstAccepted(Live(es), name);
    if i < |Live(es)| then Some(Live(es)[i]) else None
  }

  lemma LookupGoesOn(a: seq<Entry>, b: seq<Entry>, name: seq<byte>)
    requires AllFormed(a) && AllFormed(b) && |name| >= 3
    ensures AllFormed(a + b)
    ensures Lookup(a + b, name) == if Ended(a) || Lookup(a, name).Some? then Lookup(a, name) else Lookup(b, name)
  {
    hide Live, Ended, Accepts;
    LiveConcat(a, b);
    FirstAcceptedConcat(Live(a), Live(b), name);
  }

  lemma {:induction false} FirstAcceptedConcat(a: seq<Entry>, b: seq<Entry>, name: seq<byte>)
    requires AllFormed(a) && AllFormed(b) && |name| >= 3
    ensures AllFormed(a + b)
    ensures FirstAccepted(a + b, name) ==
            if FirstAccepted(a, name) < |a| then FirstAccepted(a, name) else |a| + FirstAccepted(b, name)
  {
    hide Accepts;
    if a == [] {
      assert a + b == b;
    } else {
      assert (a + b)[0] == a[0] && (a + b)[1..] == a[1..] + b;
      FirstAcceptedConcat(a[1..], b, name);
    }
  }

  /** Search the entries of one cluster; `done` when the end mark is met. */
  method SearchCluster(es: seq<Entry>, name: seq<byte>) returns (found: Option<Entry>, done: bool)
    requires AllFormed(es) && |name| >= 3
    ensures found == Lookup(es, name)
    ensures found == None ==> (done <==> Ended(es))
  {
    assert es[..0] == [];
    for i := 0 to |es|
      invariant Lookup(es[..i], name) == None && !Ended(es[..i])
    {
      SearchStep(es, i, name);
      if !Hidden(es[i]) {
        if IsEnd(es[i]) { return None, true; }
        var ok := CheckFilename(es[i], name);
        if ok { return Some(es[i]), false; }
      }
    }
    assert es[..|es|] == es;
    return None, false;
  }

  lemma LookupOne(e: Entry, name: seq<byte>)
    requires Formed(e) && |name| >= 3
    ensures Ended([e]) <==> IsEnd(e)
    ensures Lookup([e], name) == if !Hidden(e) && !IsEnd(e) && Accepts(e, name) then Some(e) else None
  {
    hide Accepts;
    assert Live([e]) == if Hidden(e) || IsEnd(e) then [] else [e];
  }

  lemma SearchStep(es: seq<Entry>, i: nat, name: seq<byte>)
    requires AllFormed(es) && i < |es| && |name| >= 3
    requires Lookup(es[..i], name) == None && !Ended(es[..i])
    ensures IsEnd(es[i]) ==> Lookup(es, name) == None && Ended(es)
    ensures !Hidden(es[i]) && !IsEnd(es[i]) && Accepts(es[i], name) ==> Lookup(es, name) == Some(es[i])
    ensures !IsEnd(es[i]) && (Hidden(es[i]) || !Accepts(es[i], name)) ==>
            Lookup(es[..i + 1], name) == None && !Ended(es[..i + 1])
  {
    hide Accepts, Live, Ended, Lookup;
    LookupOne(es[i], name);
    SplitAt(es, i, name, es[..i], [es[i]]);
    assert es == es[..i + 1] + es[i + 1..];
    LookupGoesOn(es[..i + 1], es[i + 1..], name);
    LiveConcat(es[..i + 1], es[i + 1..]);
  }

  lemma SplitAt(es: seq<Entry>, i: nat, name: seq<byte>, a: seq<Entry>, one: seq<Entry>)
    requires AllFormed(es) && i < |es| && |name| >= 3 && a == es[..i] && one == [es[i]]
    ensures AllFormed(a) && AllFormed(one)
    ensures Lookup(es[..i + 1], name)
            == if Ended(a) || Lookup(a, name).Some? then Lookup(a, name) else Lookup(one, name)
    ensures Ended(es[..i + 1]) <==> Ended(a) || Ended(one)
  {
    hide Accepts, Live, Ended, Lookup;
    assert es[..i + 1] == a + one;
    LookupGoesOn(a, one, name);
    LiveConcat(a, one);
  }

  /** `get_node`: the entry a name in the root directory stands for. */
  method GetNode(v: Volume, name: seq<byte>, ghost ch: seq<nat>) returns (found: Option<Entry>)
    requires Directory(v, ch) && |name| >= 3
    ensures found == Lookup(DirEntries(v, Followed(v, ch)), name)
    ensures found.Some? ==>
              exists k: nat :: 32 * k + 32 <= |ChainBytes(v, Followed(v, ch))|
                               && Stored(found.value, ChainBytes(v, Followed(v, ch))[32 * k..32 * k + 32])
    ensures Followed(v, ch) == ch || Ended(DirEntries(v, Followed(v, ch))) || found.Some? ==>
            found == Lookup(DirEntries(v, ch), name)
  {
    hide Lookup, SectorBytes, ChainBytes, Entries, Live, NextCluster, Ended, Reached;
    LookedUpSoFar(v, ch, Reached(v, ch), name);
    found := SearchFollowed(v, name, ch, Followed(v, ch));
    if found.Some? { ghost var k := FoundIsStored(v, Followed(v, ch), name); }
  }

  method SearchFollowed(v: Volume, name: seq<byte>, ghost whole: seq<nat>, ghost ch: seq<nat>)
        returns (found: Option<Entry>)
    requires Directory(v, whole) && ch == Followed(v, whole) && |name| >= 3
    ensures found == Lookup(DirEntries(v, ch), name)
  {
    hide Lookup, SectorBytes, ChainBytes, Entries, Live, NextCluster, Ended, Followed, Directory;
    var sector, curclus := v.root, 2;
    ghost var i := 0;
    DirectoryBegins(v, whole);
    DirEntriesGrow(v, ch, 0);
    EmptyLookup(name);
    assert ch[..0] == [];
    while true
      invariant 0 <= i < |ch| && curclus == ch[i] && sector == SectorOf(v, ch[i])
      invariant Lookup(DirEntries(v, ch[..i]), name) == None && !Ended(DirEntries(v, ch[..i]))
      decreases |ch| - i
    {
      var dir, done := Entries(SectorBytes(v, sector, v.cluslen)), false;
      found, done := SearchCluster(dir, name);
      DirEntriesGrow(v, ch, i);
      LookupGoesOn(DirEntries(v, ch[..i]), dir, name);
      LiveConcat(DirEntries(v, ch[..i]), dir);
      LookedUpSoFar(v, ch, i + 1, name);
      DirectoryGoesOn(v, whole, ch, i);
      if found.Some? || done { return; }
      match NextCluster(v, curclus)
      case None => return;
      case Some(next) =>
        curclus, sector, i := next, v.root + (next - 2) * v.cluslen, i + 1;
    }
  }

  lemma EmptyLookup(name: seq<byte>)
    requires |name| >= 3
    ensures Lookup([], name) == None && !Ended([])
  {
  }

  lemma LookedUpSoFar(v: Volume, ch: seq<nat>, i: nat, name: seq<byte>)
    requires i <= |ch| && |name| >= 3
    ensures Ended(DirEntries(v, ch[..i])) || Lookup(DirEntries(v, ch[..i]), name).Some? || i == |ch|
            ==> Lookup(DirEntries(v, ch), name) == Lookup(DirEntries(v, ch[..i]), name)
  {
    hide Lookup, Live, Ended, Entries, ChainBytes;
    var rest := RestOfDirectory(v, ch, i);
    LookupGoesOn(DirEntries(v, ch[..i]), rest, name);
    assert ch[..|ch|] == ch;
  }

  // ----- what is listed and found, entry by entry -----

  /** An entry is a file to be listed if and only if its attributes have neither the bit of a
      volume label (8) nor that of a directory (16), and its first byte is neither the mark of
      a deleted file nor zero; a zero there ends the directory unless those bits are set. */
  lemma ListedIff(e: Entry, high: nat, directory: nat, volume: nat, low: nat)
    requires Formed(e) && e.attrs as int == 32 * high + 16 * directory + 8 * volume + low
    requires directory < 2 && volume < 2 && low < 8
    ensures Live([e]) == if directory == 0 && volume == 0 && e.name[0] != 0xE5 && e.name[0] != 0 then [e] else []
    ensures Ended([e]) <==> directory == 0 && volume == 0 && e.name[0] == 0
  {
    assert e.attrs / 16 == 2 * high + directory;
    assert e.attrs / 8 == 4 * high + 2 * directory + volume;
  }

  /** The name an entry is listed under: its first characters up to a NUL or a space, a dot,
      and its three extension characters. */
  lemma ShortNameIs(e: Entry)
    requires Formed(e)
    ensures var n := ShortName(e); 4 <= |n| <= 12 && var s := |n| - 4;
            && n[..s] == e.name[..s] && (forall i :: 0 <= i < s ==> e.name[i] != 0 && e.name[i] != 32)
            && (s < 8 ==> e.name[s] == 0 || e.name[s] == 32) && n[s] == 46 && n[s + 1..] == e.ext
  {
  }

  /** Small letters become capitals and nothing else changes. */
  lemma UpperIs(c: byte, k: nat)
    ensures k < 26 ==> Upper(97 + k) == 65 + k
    ensures c < 97 || c > 122 ==> Upper(c) == c
  {
  }

  /** The test of a name, character by character. */
  lemma AcceptsIff(e: Entry, name: seq<byte>)
    requires Formed(e) && |name| >= 3
    ensures var s := |Stem(e.name)|;
            Accepts(e, name) <==>
              && s <= |name| && (forall i :: 0 <= i < s ==> e.name[i] == Upper(name[i]))
              && forall j :: 0 <= j < 3 ==> e.ext[j] == Upper(name[|name| - 3 + j])
  {
    var s, up, last := Stem(e.name), Uppers(name), Uppers(name[|name| - 3..]);
    if Accepts(e, name) {
      assert forall i :: 0 <= i < |s| ==> s[i] == up[i];
      assert forall j :: 0 <= j < 3 ==> e.ext[j] == last[j];
    }
  }

  /** The listing has every file of the directory, in order, as long as there is room. */
  lemma ListingIs(es: seq<Entry>, max: nat)
    requires AllFormed(es)
    ensures |Listing(es, max)| == if |Live(es)| < max then |Live(es)| else max
    ensures forall k :: 0 <= k < |Listing(es, max)| ==> Listing(es, max)[k] == ShortName(Live(es)[k])
  {
  }

  lemma {:induction false} LiveIn(es: seq<Entry>)
    requires AllFormed(es)
    ensures forall e :: e in Live(es) ==> e in es
  {
    if es != [] { LiveIn(es[1..]); }
  }

  /** The lookup gives the first file that the test accepts, or none if it accepts none. */
  lemma LookupIs(es: seq<Entry>, name: seq<byte>)
    requires AllFormed(es) && |name| >= 3
    ensures Lookup(es, name) == None <==> forall k :: 0 <= k < |Live(es)| ==> !Accepts(Live(es)[k], name)
    ensures Lookup(es, name).Some? ==>
              exists k :: 0 <= k < |Live(es)| && Live(es)[k] == Lookup(es, name).value
                          && Accepts(Live(es)[k], name) && forall j :: 0 <= j < k ==> !Accepts(Live(es)[j], name)
  {
    hide Accepts, Live;
    var k := FirstAccepted(Live(es), name);
    if k < |Live(es)| { assert Accepts(Live(es)[k], name); }
  }

  /** The bytes `b` make up the entry `e`. */
  ghost predicate Stored(e: Entry, b: seq<byte>) {
    && |b| == 32 && e.name == b[..8] && e.ext == b[8..11] && e.attrs == b[11]
    && e.cluster == 65536 * (b[20] as int + 256 * b[21] as int) + b[26] as int + 256 * b[27] as int
    && e.size == b[28] as int + 256 * b[29] as int + 65536 * b[30] as int + 16777216 * b[31] as int
  }

  /** What is found is one of the directory's 32-byte entries, field by field. */
  lemma FoundIsStored(v: Volume, ch: seq<nat>, name: seq<byte>) returns (k: nat)
    requires |name| >= 3 && Lookup(DirEntries(v, ch), name).Some?
    ensures 32 * k + 32 <= |ChainBytes(v, ch)|
    ensures Stored(Lookup(DirEntries(v, ch), name).value, ChainBytes(v, ch)[32 * k..32 * k + 32])
  {
    hide Live, Accepts, ChainBytes, Entries;
    var es := DirEntries(v, ch);
    LookupIs(es, name);
    LiveIn(es);
    assert Lookup(es, name).value in Live(es);
    k :| 0 <= k < |es| && es[k] == Lookup(es, name).value;
    assert k < |ChainBytes(v, ch)| / 32;
    EntriesAt(ChainBytes(v, ch), k);
    EntryOfBytes(ChainBytes(v, ch)[32 * k..32 * k + 32]);
  }

  // ----- listing and lookup agree -----

  predicate Capitals(s: seq<byte>) { forall i :: 0 <= i < |s| ==> !(97 <= s[i] <= 122) }

  lemma CapitalsIff(s: seq<byte>)
    ensures Capitals(s) <==> Uppers(s) == s
  {
    if Uppers(s) == s {
      forall i | 0 <= i < |s| ensures !(97 <= s[i] <= 122) { assert Uppers(s)[i] == s[i]; }
    }
  }

  /** An entry is accepted for the name it is listed under if and only if that name is all
      in capitals, as the format asks. (A NUL in the extension would end the name early.) */
  lemma OwnNameAcceptedIff(e: Entry)
    requires Formed(e) && 0 !in e.ext
    ensures Accepts(e, ShortName(e)) <==> Capitals(Stem(e.name)) && Capitals(e.ext)
  {
    var s, n := Stem(e.name), ShortName(e);
    assert n[|n| - 3..] == e.ext;
    CapitalsIff(s);
    CapitalsIff(e.ext);
    assert Uppers(n)[..|s|] == Uppers(s);
  }

  /** `f` is also accepted for the name of `e`: same extension, and its stem begins that name. */
  predicate Shadows(f: Entry, e: Entry) {
    f.ext == e.ext && Stem(f.name) <= ShortName(e)
  }

  lemma ShadowsIff(f: Entry, e: Entry)
    requires Formed(e) && Formed(f) && Capitals(Stem(e.name)) && Capitals(e.ext)
    ensures Accepts(f, ShortName(e)) <==> Shadows(f, e)
  {
    var n := ShortName(e);
    assert n[|n| - 3..] == e.ext;
    CapitalsIff(e.ext);
    assert Capitals(n);
    CapitalsIff(n);
  }

  /** Every name a listing gives, if it is in capitals, is found; and what is found is the
      listed file itself if and only if no earlier file has the same extension and a stem
      that begins the name. */
  lemma ListedIsFound(es: seq<Entry>, max: nat, k: nat)
    requires AllFormed(es) && k < |Listing(es, max)|
    requires Capitals(Stem(Live(es)[k].name)) && Capitals(Live(es)[k].ext) && 0 !in Live(es)[k].ext
    ensures var name := Listing(es, max)[k]; var first := FirstAccepted(Live(es), name);
      && name == ShortName(Live(es)[k])
      && first <= k && Lookup(es, name) == Some(Live(es)[first])
      && (first == k <==> forall j :: 0 <= j < k ==> !Shadows(Live(es)[j], Live(es)[k]))
  {
    var live := Live(es);
    var e := live[k];
    OwnNameAcceptedIff(e);
    forall j | 0 <= j < |live| ensures Accepts(live[j], ShortName(e)) <==> Shadows(live[j], e) {
      ShadowsIff(live[j], e);
    }
  }

  const A_TXT := Entry([65, 32, 32, 32, 32, 32, 32, 32], [84, 88, 84], 0, 3, 1)
  const AB_TXT := Entry([65, 66, 32, 32, 32, 32, 32, 32], [84, 88, 84], 0, 4, 1)

  lemma ShortStems()
    ensures Stem(A_TXT.name) == [65] && Stem(AB_TXT.name) == [65, 66]
  {
    var a, ab := A_TXT.name, AB_TXT.name;
    assert a[1..][0] == SPACE && Stem(a[1..]) == [];
    assert ab[1..][1..][0] == SPACE && Stem(ab[1..][1..]) == [];
    assert Stem(ab[1..]) == [66];
  }

  /** With A.TXT before AB.TXT in the directory, looking AB.TXT up finds A.TXT. */
  lemma EarlierFileShadows()
    ensures Lookup([A_TXT, AB_TXT], ShortName(AB_TXT)) == Some(A_TXT) != Some(AB_TXT)
  {
    ShortStems();
    var es, name := [A_TXT, AB_TXT], ShortName(AB_TXT);
    ShadowsIff(A_TXT, AB_TXT);
    assert Live(es) == es by { assert es[1..] == [AB_TXT] && Live([AB_TXT]) == [AB_TXT]; }
    assert FirstAccepted(es, name) == 0;
  }
}
