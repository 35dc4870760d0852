/** Descriptors over one mounted system of in-memory files. */
module Vfs {
  import opened Bytes
  import opened Vffs

  const NBMAX_FD := 4096
  const SEEK_SET := 0
  const SEEK_CUR := 1
  const SEEK_END := 2

  /** Which of the four masks are fully set in the word given to `open`. */
  datatype Mode = Mode(creat: bool, append: bool, rdwr: bool, rdonly: bool)

  /** Where a seek puts the offset; the end counts from the last byte, not after it. */
  function Sought(at: Word, size: nat, offset: Word, whence: int): Word {
    if whence == SEEK_SET then offset
    else if whence == SEEK_CUR then (at + offset) % WORD
    else (size - 1 + offset) % WORD
  }

  /** Where the three kinds of seek lead, as long as no sum leaves the 32 bits; at the end of an
      empty file they wrap around. */
  lemma SoughtIs(at: Word, size: nat, offset: Word)
    requires size < WORD
    ensures Sought(at, size, offset, 0) == offset
    ensures at + offset < WORD ==> Sought(at, size, offset, 1) == at + offset
    ensures at + offset >= WORD ==> Sought(at, size, offset, 1) == at + offset - WORD
    ensures 0 <= size - 1 + offset < WORD ==> Sought(at, size, offset, 2) == size - 1 + offset
    ensures size - 1 + offset >= WORD ==> Sought(at, size, offset, 2) == size - 1 + offset - WORD
    ensures size == 0 && offset == 0 ==> Sought(at, size, offset, 2) == WORD - 1
  {
  }

  class Vfs {
    const fs: FileSystem
    const addr: array<VFile?>
    const offset: array<Word>
    const mode: array<Mode>
    ghost var files: set<VFile>  // every file ever reachable

    constructor ()
      ensures Valid() && fresh(Repr()) && fs.Files() == []
      ensures forall fd :: 0 <= fd < NBMAX_FD ==> addr[fd] == null
    {
      fs := new FileSystem();
      addr := new VFile?[NBMAX_FD](_ => null);
      offset := new Word[NBMAX_FD];
      mode := new Mode[NBMAX_FD];
      files := {};
    }

    predicate Shaped() {
      addr.Length == offset.Length == mode.Length == NBMAX_FD
    }

    ghost predicate Valid()
      reads this, fs, fs.list, addr, files, set f | f in files :: f.data
    {
      && fs.Valid() && addr != fs.list && Shaped()
      && (forall f :: f in fs.Files() ==> f in files)
      && (forall fd :: 0 <= fd < NBMAX_FD && addr[fd] != null ==> addr[fd] in files)
      && (forall f :: f in files ==> f.Valid() && !f.lock && f.size < WORD)
      && (forall f, g :: f in files && g in files && f != g ==> f.data != g.data)
    }

    /** What the kernel may write here: the tables, the files and their bytes. */
    ghost function Repr(): set<object?>
      reads this, files
    {
      {this, fs, fs.list, addr, offset, mode} + files + set f | f in files :: f.data
    }

    predicate IsOpen(fd: int)
      requires Shaped()
      reads addr
    {
      0 <= fd < NBMAX_FD && addr[fd] != null
    }

    /** New files and new bytes are freshly allocated. */
    twostate predicate BytesOwned()
      reads this, files
    {
      && fresh(files - old(files))
      && forall f :: f in files ==> f.data == null || fresh(f.data) || (f in old(files) && f.data == old(f.data))
    }

    /** Every file but one keeps its bytes. */
    twostate predicate OthersKeep(new file: VFile?)
      requires old(Valid())
      requires old(files) <= files
      reads this, files, set f | f in files :: f.data
    {
      forall f :: f in old(files) && f != file ==>
        f.Valid() && f.Contents() == old(f.Contents()) && f.perm == old(f.perm)
    }

    /** The descriptors but one stay as they are. */
    twostate predicate DescriptorsKeep(fd: int)
      requires Shaped()
      reads addr, offset, mode
    {
      forall k :: 0 <= k < NBMAX_FD && k != fd ==>
        addr[k] == old(addr[k]) && offset[k] == old(offset[k]) && mode[k] == old(mode[k])
    }

    method Close(fd: int) returns (r: int)
      requires Valid()
      modifies addr
      ensures Valid() && files == old(files) && OthersKeep(null) && DescriptorsKeep(fd)
      ensures r == (if old(IsOpen(fd)) then fd else FAIL) && !IsOpen(fd)
    {
      if fd >= NBMAX_FD || fd < 0 { return FAIL; }
      if addr[fd] != null {
        addr[fd] := null;
        r := fd;
      } else {
        r := FAIL;
      }
    }

    method Read(fd: int, buf: array<byte>, len: nat) returns (r: int)
      requires Valid() && buf !in Repr()
      requires IsOpen(fd) ==> Readable(addr[fd].Contents(), offset[fd], len) < buf.Length
      modifies buf, offset
      ensures Valid() && files == old(files) && OthersKeep(null) && DescriptorsKeep(fd)
      ensures r == FAIL <==> !IsOpen(fd) || !addr[fd].perm.read
      ensures r == FAIL ==> buf[..] == old(buf[..]) && DescriptorsKeep(FAIL)
      ensures r != FAIL ==>
              r == Readable(addr[fd].Contents(), old(offset[fd]), len) && offset[fd] == old(offset[fd]) + r
      ensures r > 0 ==>
              && old(offset[fd]) + r <= addr[fd].size
              && buf[..r] == addr[fd].Contents()[old(offset[fd])..old(offset[fd]) + r]
    {
      hide FileSystem.Valid, VFile.Valid, VFile.Contents, Readable;
      if fd < 0 || fd >= NBMAX_FD || addr[fd] == null { return FAIL; }
      var next;
      r, next := addr[fd].Read(offset[fd], buf, len);
      offset[fd] := next;
    }

    /** The file is lost if and only if the write needs more memory and gets none. */
    method Write(fd: int, buf: seq<byte>, memory: bool) returns (r: int)
      requires Valid() && (IsOpen(fd) ==> offset[fd] + |buf| + 1 < WORD)
      modifies offset, files, set f | f in files :: f.data
      ensures files == old(files) && fs.Valid() && fs.Files() == old(fs.Files()) && DescriptorsKeep(fd) && BytesOwned()
      ensures r == FAIL <==> !IsOpen(fd) || mode[fd].rdonly || !addr[fd].perm.write
      ensures r == FAIL ==> Valid() && OthersKeep(null) && DescriptorsKeep(FAIL)
      ensures r != FAIL ==>
                && (Valid() <==> old(offset[fd]) + |buf| + 1 <= old(addr[fd].size) || memory)
                && (addr[fd].Valid() <==> Valid())
      ensures r != FAIL ==>
              && r == |buf| && addr[fd] == old(addr[fd]) && offset[fd] == old(offset[fd]) + |buf|
              && OthersKeep(addr[fd]) && addr[fd].perm == old(addr[fd].perm)
      ensures r != FAIL && Valid() && old(offset[fd]) <= old(addr[fd].size)
              ==> addr[fd].Contents() == Written(old(addr[fd].Contents()), old(offset[fd]), buf)
    {
      hide FileSystem.Valid, VFile.Valid, VFile.Contents, Written, FileSystem.Files;
      if fd < 0 || fd >= NBMAX_FD || addr[fd] == null || mode[fd].rdonly { return FAIL; }
      var next;
      r, next := addr[fd].Write(offset[fd], buf, memory);
      offset[fd] := next;
    }

    method Seek(fd: int, to: Word, whence: int) returns (r: int)
      requires Shaped()
      modifies offset
      ensures DescriptorsKeep(fd) && (Valid() <==> old(Valid()))
      ensures old(Valid()) ==> OthersKeep(null)
      ensures !IsOpen(fd) || whence !in {SEEK_SET, SEEK_CUR, SEEK_END} ==> r == FAIL && DescriptorsKeep(FAIL)
      ensures IsOpen(fd) && whence in {SEEK_SET, SEEK_CUR, SEEK_END} ==>
              && offset[fd] == Sought(old(offset[fd]), addr[fd].size, to, whence)
              && r == if offset[fd] < 0x8000_0000 then offset[fd] as int else offset[fd] as int - 0x1_0000_0000
    {
      if fd < 0 || fd >= NBMAX_FD || addr[fd] == null { return FAIL; }
      var len := addr[fd].size;
      if whence == SEEK_SET {
        offset[fd] := to;
      } else if whence == SEEK_CUR {
        offset[fd] := (offset[fd] + to) % WORD;
      } else if whence == SEEK_END {
        offset[fd] := (len - 1 + to) % WORD;
      } else {
        return FAIL;
      }
      r := Signed(offset[fd]);
    }

    /** A file by that name can be had and may be opened in that mode; `room` says whether
        the allocator has memory for a new one. */
    ghost predicate Granted(name: string, m: Mode, room: bool)
      requires Valid()
      reads this, fs, fs.list, addr, files, set f | f in files :: f.data
    {
      if fs.Has(name) then m.rdwr ==> forall f :: f in fs.Files() && f.name == name ==> f.perm.write
      else m.creat && fs.nbfiles < NBMAX_FILE && room
    }

    ghost predicate IsNamed(f: VFile, name: string)
      requires fs.Valid()
      reads fs, fs.list
    {
      f in fs.Files() && f.name == name
    }

    /** The file by that name, created if there is none and the mode asks for it. */
    method Obtain(name: string, creat: bool, room: bool) returns (file: VFile?)
      requires Valid()
      modifies this`files, fs, fs.list
      ensures Valid() && files == old(files) + (if file == null then {} else {file}) && BytesOwned()
      ensures file != null <==> old(fs.Has(name)) || (creat && old(fs.nbfiles) < NBMAX_FILE && room)
      ensures file != null ==> IsNamed(file, name)
      ensures old(fs.Has(name)) ==> file in old(files) && fs.Files() == old(fs.Files())
      ensures !old(fs.Has(name)) && file != null ==>
                && fresh(file) && fresh(file.data) && file.Contents() == []
                && file.perm.write && fs.Files() == old(fs.Files()) + [file]
      ensures file == null ==> fs.Files() == old(fs.Files())
    {
      hide FileSystem.Valid, VFile.Valid, VFile.Contents, FileSystem.Files, FileSystem.Has;
      file := fs.Get(name);
      if file == null && creat {
        var r;
        r, file := fs.Create(name, room);
        if r == 0 {
          files := files + {file};
          assert file in fs.Files();
        }
      }
    }

    /** `getnode`: the file and where to start in it. Without the append mask the file is
        emptied, even when it is to be read only, and lost when there is no `memory` for the
        one byte that an empty file takes. */
    method GetNode(name: string, m: Mode, room: bool, memory: bool) returns (file: VFile?, start: Word)
      requires Valid()
      modifies this`files, fs, fs.list, files
      ensures old(files) <= files && BytesOwned() && fs.Valid()
      ensures file != null <==> old(Granted(name, m, room))
      ensures Valid() <==> file == null || m.append || memory
      ensures file != null ==> file in files && IsNamed(file, name) && start == file.size && (file.Valid() <==> Valid())
      ensures file != null ==> (old(fs.Has(name)) <==> file in old(files))
      ensures file != null && file in old(files) && m.append ==> file.Contents() == old(file.Contents())
      ensures file != null && Valid() && (file !in old(files) || !m.append) ==> file.Contents() == []
      ensures OthersKeep(file)
      ensures fs.Files() == old(fs.Files()) + (if file == null || old(fs.Has(name)) then [] else [file])
    {
      hide FileSystem.Valid, VFile.Valid, VFile.Contents, FileSystem.Files, FileSystem.Has;
      start := 0;
      fs.NamesAreUnique();
      file := Obtain(name, m.creat, room);
      if file == null { return; }
      if m.rdwr && !file.perm.write { return null, 0; }
      start := Prepare(file, m.append, memory);
    }

    /** Where to start in a file that is opened; unless it is for appending, it is emptied. */
    method Prepare(file: VFile, append: bool, memory: bool) returns (start: Word)
      requires Valid() && file in files
      modifies file
      ensures files == old(files) && BytesOwned() && fs.Valid() && fs.Files() == old(fs.Files())
      ensures (Valid() <==> append || memory) && (file.Valid() <==> Valid())
      ensures start == file.size && file.perm == old(file.perm) && OthersKeep(file)
      ensures append ==> file.Contents() == old(file.Contents())
      ensures !append && Valid() ==> file.Contents() == []
    {
      hide FileSystem.Valid, VFile.Valid, VFile.Contents;
      start := 0;
      if append {
        start := file.size;
      } else {
        file.Truncate(memory);
      }
    }

    /** The lowest free descriptor is set up for a file; FAIL if there is none. */
    method TakeDescriptor(file: VFile, start: Word, m: Mode) returns (r: int)
      requires Shaped() && fs.Valid() && addr != fs.list && file in files
      modifies addr, offset, mode
      ensures fs.Valid() && fs.Files() == old(fs.Files()) && (Valid() <==> old(Valid()))
      ensures r != FAIL <==> exists fd :: 0 <= fd < NBMAX_FD && old(addr[fd]) == null
      ensures r == FAIL ==> DescriptorsKeep(FAIL)
      ensures r != FAIL ==> 0 <= r < NBMAX_FD && old(addr[r]) == null && forall k :: 0 <= k < r ==> addr[k] != null
      ensures r != FAIL ==> addr[r] == file && mode[r] == m && offset[r] == start && DescriptorsKeep(r)
    {
      hide FileSystem.Valid, FileSystem.Files, VFile.Valid;
      var i := 0;
      while i < NBMAX_FD && addr[i] != null
        invariant 0 <= i <= NBMAX_FD && forall k :: 0 <= k < i ==> addr[k] != null
        modifies {}
      {
        i := i + 1;
      }
      if i == NBMAX_FD { return FAIL; }
      addr[i], offset[i], mode[i] := file, start, m;
      assert forall fd :: 0 <= fd < NBMAX_FD && fd != i ==> addr[fd] == old(addr[fd]);
      assert forall f :: f in files ==> (f.Valid() <==> old(f.Valid()));
      r := i;
    }

    /** The lowest free descriptor takes the file, at its end; with none free the file may
        have been created or emptied all the same. */
    method Open(name: string, m: Mode, room: bool, memory: bool) returns (r: int)
      requires Valid()
      modifies this`files, fs, fs.list, addr, offset, mode, files
      ensures old(files) <= files && BytesOwned() && fs.Valid()
      ensures r != FAIL <==> old(Granted(name, m, room)) && exists fd :: 0 <= fd < NBMAX_FD && old(addr[fd]) == null
      ensures Valid() <==> !old(Granted(name, m, room)) || m.append || memory
      ensures r == FAIL ==> DescriptorsKeep(FAIL)
      ensures r != FAIL ==> 0 <= r < NBMAX_FD && old(addr[r]) == null && forall k :: 0 <= k < r ==> addr[k] != null
      ensures r != FAIL ==>
              IsOpen(r) && IsNamed(addr[r], name) && mode[r] == m && offset[r] == addr[r].size && DescriptorsKeep(r)
      ensures r != FAIL ==> (old(fs.Has(name)) <==> addr[r] in old(files))
      ensures r != FAIL && Valid() ==> var f := addr[r];
                && (f in old(files) && m.append ==> f.Contents() == old(f.Contents()))
                && (f !in old(files) || !m.append ==> f.Contents() == [])
      ensures forall f :: f in old(files) && !IsNamed(f, name) ==>
              f.Valid() && f.Contents() == old(f.Contents()) && f.perm == old(f.perm)
      ensures if !old(Granted(name, m, room)) || old(fs.Has(name)) then fs.Files() == old(fs.Files())
              else exists g :: fresh(g) && fs.Files() == old(fs.Files()) + [g]
      ensures old(Granted(name, m, room)) && !m.append && memory ==>
                forall f :: IsNamed(f, name) ==> f in files && f.Contents() == []
    {
      hide FileSystem.Valid, VFile.Valid, VFile.Contents, Granted, FileSystem.Files;
      var file, start := GetNode(name, m, room, memory);
      if file == null { return FAIL; }
      fs.NamesAreUnique();
      r := TakeDescriptor(file, start, m);
      assert forall f :: IsNamed(f, name) ==> f == file;
    }

    /** What the example program does with an open file: write, go back to where the write
        began and read. It gets its data back up to the first end-of-file mark in it, if and
        as long as there is room for it; otherwise the file is lost, and what reading it
        gives is not part of this model. */
    method WriteThenRead(fd: int, data: seq<byte>, buf: array<byte>, memory: bool) returns (kept: bool, n: int)
      requires Valid() && IsOpen(fd) && !mode[fd].rdonly && addr[fd].perm == Perm(true, true)
      requires offset[fd] <= addr[fd].size && offset[fd] + |data| + 1 < WORD && buf !in Repr() && |data| < buf.Length
      modifies buf, offset, files, set f | f in files :: f.data
      ensures IsOpen(fd) && addr[fd] == old(addr[fd]) && DescriptorsKeep(fd)
      ensures kept == (old(offset[fd]) + |data| + 1 <= old(addr[fd].size) || memory) && (Valid() <==> kept)
      ensures kept ==> n == Until(data) && buf[..n] == data[..n]
      ensures kept ==> addr[fd].Contents() == Written(old(addr[fd].Contents()), old(offset[fd]), data)
      ensures kept ==> offset[fd] == old(offset[fd]) + n
    {
      hide FileSystem.Valid, VFile.Valid, VFile.Contents, Readable, Written, FileSystem.Files;
      ghost var c := addr[fd].Contents();
      var start := offset[fd];
      kept, n := start + |data| + 1 <= addr[fd].size || memory, 0;
      var w := Write(fd, data, memory);
      var s := Seek(fd, start, SEEK_SET);
      if !kept { return; }
      ReadBackIff(c, start, data, |data|);
      n := Read(fd, buf, |data|);
    }
  }
}
