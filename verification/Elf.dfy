/** Loading a 32-bit ARM executable: a file that lies in memory is spread over the places
    its program headers name. */
module Elf {
  import opened Bytes

  const EHDR_SIZE := 52
  const PHDR_SIZE := 32
  const PT_LOAD := 1
  const FAIL := WORD - 1

  type File = seq<byte>

  function HalfAt(f: File, i: nat): nat
    requires i + 2 <= |f|
  {
    f[i] as int + 256 * f[i + 1] as int
  }

  function WordAt(f: File, i: nat): Word
    requires i + 4 <= |f|
  {
    WordOf(f[i], f[i + 1], f[i + 2], f[i + 3])
  }

  datatype Segment = Segment(kind: Word, offset: Word, vaddr: Word, filesz: Word, memsz: Word)

  /** Bytes that end up in memory: entries of another kind and empty ones put none there. */
  predicate Covers(s: Segment, a: nat) {
    s.kind == PT_LOAD && s.vaddr <= a < s.vaddr + s.memsz
  }

  predicate IsArmExecutable(f: File)
    requires |f| >= EHDR_SIZE
  {
    && f[0] == 0x7F && f[1] == 'E' as int && f[2] == 'L' as int && f[3] == 'F' as int
    && f[4] == 1 && f[5] == 1 && f[6] == 1
    && HalfAt(f, 16) == 2 && HalfAt(f, 18) == 40
  }

  function TableAt(f: File): nat
    requires |f| >= EHDR_SIZE
  {
    WordAt(f, 28)
  }

  function SegmentCount(f: File): nat
    requires |f| >= EHDR_SIZE
  {
    HalfAt(f, 44)
  }

  predicate HasTable(f: File) {
    |f| >= EHDR_SIZE && TableAt(f) + PHDR_SIZE * SegmentCount(f) <= |f|
  }

  function SegmentAt(f: File, i: nat): Segment
    requires HasTable(f) && i < SegmentCount(f)
  {
    var p := TableAt(f) + PHDR_SIZE * i;
    Segment(WordAt(f, p), WordAt(f, p + 4), WordAt(f, p + 8), WordAt(f, p + 16), WordAt(f, p + 20))
  }

  /** A segment takes its bytes from the file and its place in memory away from where the
      file lies, between `at` and `at + |f|`. */
  predicate Fits(f: File, s: Segment, at: nat, size: nat) {
    s.kind == PT_LOAD && s.memsz > 0 ==>
      && s.filesz <= s.memsz && s.offset + s.filesz <= |f| && s.vaddr + s.memsz <= size
      && (s.vaddr + s.memsz <= at || at + |f| <= s.vaddr)
  }

  predicate Loadable(f: File, at: nat, size: nat) {
    HasTable(f) && forall i :: 0 <= i < SegmentCount(f) ==> Fits(f, SegmentAt(f, i), at, size)
  }

  /** The byte a segment has for one of its addresses: the file's, or zero behind those. */
  function SegmentByte(f: File, s: Segment, a: nat): byte
    requires Covers(s, a) && s.offset + s.filesz <= |f|
  {
    if a < s.vaddr + s.filesz then f[s.offset + (a - s.vaddr)] else 0
  }

  /** The words and half words of a file, lowest byte first. */
  lemma WordsOfBytes(f: File, i: nat)
    requires i + 4 <= |f|
    ensures HalfAt(f, i) == f[i] as int + 256 * f[i + 1] as int
    ensures WordAt(f, i) == HalfAt(f, i) + 65536 * HalfAt(f, i + 2)
  {
  }

  /** Which files are taken: the mark and the class, encoding and version of 32-bit little-endian
      files, an executable's type, and the ARM machine. */
  lemma ArmExecutableIff(f: File)
    requires |f| >= 52
    ensures IsArmExecutable(f) <==>
            f[0..7] == [0x7F, 0x45, 0x4C, 0x46, 1, 1, 1] && f[16..20] == [2, 0, 40, 0]
  {
    if f[0..7] == [0x7F, 0x45, 0x4C, 0x46, 1, 1, 1] && f[16..20] == [2, 0, 40, 0] {
      assert f[0] == f[0..7][0] && f[1] == f[0..7][1] && f[2] == f[0..7][2] && f[3] == f[0..7][3];
      assert f[4] == f[0..7][4] && f[5] == f[0..7][5] && f[6] == f[0..7][6];
      assert f[16] == f[16..20][0] && f[17] == f[16..20][1] && f[18] == f[16..20][2] && f[19] == f[16..20][3];
    }
  }

  /** Where the program headers lie and what is taken from them: the table's place from byte 28
      of the file, its length from byte 44, and in each 32-byte header kind, place in the file,
      address, and the two sizes. */
  lemma HeadersAre(f: File, i: nat)
    requires HasTable(f) && i < SegmentCount(f)
    ensures SegmentCount(f) == HalfAt(f, 44)
    ensures var p := WordAt(f, 28) + 32 * i;
            p + 32 <= |f| && SegmentAt(f, i)
              == Segment(WordAt(f, p), WordAt(f, p + 4), WordAt(f, p + 8), WordAt(f, p + 16), WordAt(f, p + 20))
  {
  }

  /** What an address holds once the first `n` segments are loaded: the byte of the last
      one that covers it, or else what it held before. */
  function Loaded(f: File, at: nat, size: nat, n: nat, a: nat, was: byte): byte
    requires Loadable(f, at, size) && n <= SegmentCount(f)
  {
    if n == 0 then was
    else
      var s := SegmentAt(f, n - 1);
      if Covers(s, a) then SegmentByte(f, s, a) else Loaded(f, at, size, n - 1, a, was)
  }

  /** Loading touches no address outside the segments. */
  lemma {:induction false} OthersUntouched(f: File, at: nat, size: nat, n: nat, a: nat, was: byte)
    requires Loadable(f, at, size) && n <= SegmentCount(f)
    requires forall i :: 0 <= i < n ==>
               var s := SegmentAt(f, i); s.kind != 1 || a < s.vaddr || a >= s.vaddr + s.memsz
    ensures Loaded(f, at, size, n, a, was) == was
  {
    if n > 0 { OthersUntouched(f, at, size, n - 1, a, was); }
  }

  /** An address gets the byte of the last loadable segment that it lies in, the file's or zero:
      with disjoint segments, the image is what the headers say, whatever their order. */
  lemma {:induction false} SegmentIsLoaded(f: File, at: nat, size: nat, n: nat, i: nat, a: nat, was: byte)
    requires Loadable(f, at, size) && i < n <= SegmentCount(f)
    requires var s := SegmentAt(f, i); s.kind == 1 && s.vaddr <= a < s.vaddr + s.memsz
    requires forall j :: i < j < n ==>
               var s := SegmentAt(f, j); s.kind != 1 || a < s.vaddr || a >= s.vaddr + s.memsz
    ensures var s := SegmentAt(f, i);
            && (a < s.vaddr + s.filesz ==>
                  s.offset + (a - s.vaddr) < |f| && Loaded(f, at, size, n, a, was) == f[s.offset + (a - s.vaddr)])
            && (a >= s.vaddr + s.filesz ==> Loaded(f, at, size, n, a, was) == 0)
  {
    hide SegmentAt;
    assert Fits(f, SegmentAt(f, i), at, size);
    if i < n - 1 { SegmentIsLoaded(f, at, size, n - 1, i, a, was); }
  }

  /** The file itself stays, so that headers read late are those of the file. */
  lemma {:induction false} FileUntouched(f: File, at: nat, size: nat, n: nat, k: nat)
    requires Loadable(f, at, size) && n <= SegmentCount(f) && k < |f|
    ensures Loaded(f, at, size, n, at + k, f[k]) == f[k]
  {
    if n > 0 {
      assert Fits(f, SegmentAt(f, n - 1), at, size);
      FileUntouched(f, at, size, n - 1, k);
    }
  }

  class Loader {
    const mem: array<byte>

    constructor (mem: array<byte>)
      requires mem.Length <= WORD
      ensures this.mem == mem
    {
      this.mem := mem;
    }

    method Memcpy(dest: nat, src: nat, n: nat)
      requires dest + n <= mem.Length && src + n <= mem.Length
      requires dest + n <= src || src + n <= dest
      modifies mem
      ensures forall a :: 0 <= a < mem.Length ==>
              mem[a] == if dest <= a < dest + n then old(mem[src + (a - dest)]) else old(mem[a])
    {
      var left, d, s := n, dest, src;
      while left > 0
        invariant 0 <= left <= n && d == dest + n - left && s == src + n - left
        invariant forall a :: 0 <= a < mem.Length ==>
                  mem[a] == if dest <= a < d then old(mem[src + (a - dest)]) else old(mem[a])
      {
        mem[d] := mem[s];
        left, d, s := left - 1, d + 1, s + 1;
      }
    }

    method Memset(s: nat, c: byte, n: nat)
      requires s + n <= mem.Length
      modifies mem
      ensures forall a :: 0 <= a < mem.Length ==> mem[a] == if s <= a < s + n then c else old(mem[a])
    {
      for i := 0 to n
        invariant forall a :: 0 <= a < mem.Length ==> mem[a] == if s <= a < s + i then c else old(mem[a])
      {
        mem[s + i] := c;
      }
    }

    /** The file lies at an address. */
    ghost predicate Holds(data: nat, f: File)
      requires data + |f| <= mem.Length
      reads mem
    {
      forall k :: 0 <= k < |f| ==> mem[data + k] == f[k]
    }

    function WordIn(p: nat): Word
      requires p + 4 <= mem.Length
      reads mem
    {
      WordOf(mem[p], mem[p + 1], mem[p + 2], mem[p + 3])
    }

    function HalfIn(p: nat): nat
      requires p + 2 <= mem.Length
      reads mem
    {
      mem[p] as int + 256 * mem[p + 1] as int
    }

    /** The program header at `phead`, of the file at `data`, is carried out. */
    method LoadSegment(data: nat, phead: nat, ghost f: File, ghost s: Segment)
      requires data + |f| <= mem.Length && Holds(data, f) && phead + PHDR_SIZE <= mem.Length
      requires s == Segment(WordIn(phead), WordIn(phead + 4), WordIn(phead + 8), WordIn(phead + 16), WordIn(phead + 20))
      requires s.kind == PT_LOAD && Fits(f, s, data, mem.Length)
      modifies mem
      ensures forall a :: 0 <= a < mem.Length ==> mem[a] == if Covers(s, a) then SegmentByte(f, s, a) else old(mem[a])
    {
      hide WordOf;
      var memsz := WordIn(phead + 20);
      if memsz == 0 { return; }
      var filesz: nat, mempos: nat, filepos: nat := WordIn(phead + 16), WordIn(phead + 8), WordIn(phead + 4);
      Memcpy(mempos, data + filepos, filesz);
      Memset(mempos + filesz, 0, memsz - filesz);
    }

    method CheckElf(hdr: nat, ghost f: File) returns (ok: bool)
      requires hdr + |f| <= mem.Length && Holds(hdr, f) && |f| >= EHDR_SIZE
      ensures ok <==> IsArmExecutable(f)
    {
      if mem[hdr] != 0x7F { return false; }
      if mem[hdr + 1] != 'E' as int { return false; }
      if mem[hdr + 2] != 'L' as int { return false; }
      if mem[hdr + 3] != 'F' as int { return false; }
      if mem[hdr + 4] != 1 { return false; }
      if mem[hdr + 5] != 1 { return false; }
      if HalfIn(hdr + 18) != 40 { return false; }
      if mem[hdr + 6] != 1 { return false; }
      if HalfIn(hdr + 16) != 2 { return false; }
      ok := true;
    }

    /** The file read to `buf`: refused without a trace if it is no ARM executable, and
        spread over memory otherwise. */
    method LoadElf(buf: nat, ghost f: File) returns (entry: Word)
      requires buf + |f| <= mem.Length && Holds(buf, f) && |f| >= EHDR_SIZE
      requires IsArmExecutable(f) ==> Loadable(f, buf, mem.Length)
      modifies mem
      ensures !IsArmExecutable(f) ==> entry == FAIL && mem[..] == old(mem[..])
      ensures IsArmExecutable(f) ==> entry == WordAt(f, 24)
      ensures IsArmExecutable(f) ==>
                forall a :: 0 <= a < mem.Length ==>
                  mem[a] == Loaded(f, buf, mem.Length, SegmentCount(f), a, old(mem[a]))
    {
      hide WordOf, SegmentByte, Covers, IsArmExecutable, Fits, SegmentAt;
      var ok := CheckElf(buf, f);
      if !ok { return FAIL; }
      var ptab := buf + WordIn(buf + 28);
      var i := 0;
      while i < HalfIn(buf + 44)
        invariant i <= SegmentCount(f)
        invariant forall a :: 0 <= a < mem.Length ==> mem[a] == Loaded(f, buf, mem.Length, i, a, old(mem[a]))
        invariant Holds(buf, f)
        decreases SegmentCount(f) - i
      {
        LoadEntry(ptab + PHDR_SIZE * i, buf, f, i);
        i := i + 1;
        forall k | 0 <= k < |f| ensures mem[buf + k] == f[k] {
          FileUntouched(f, buf, mem.Length, i, k);
        }
      }
      entry := WordIn(buf + 24);
    }

    method LoadEntry(phead: nat, buf: nat, ghost f: File, ghost i: nat)
      requires buf + |f| <= mem.Length && Holds(buf, f) && Loadable(f, buf, mem.Length)
      requires i < SegmentCount(f) && phead == buf + TableAt(f) + PHDR_SIZE * i
      modifies mem
      ensures var s := SegmentAt(f, i);
              forall a :: 0 <= a < mem.Length ==> mem[a] == if Covers(s, a) then SegmentByte(f, s, a) else old(mem[a])
    {
      hide WordOf;
      if WordIn(phead) == PT_LOAD { LoadSegment(buf, phead, f, SegmentAt(f, i)); }
    }
  }
}
