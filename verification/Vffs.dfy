/** Files kept in memory: growable bytes closed by an end-of-file mark, in a packed table. */
module Vffs {
  import opened Bytes

  const EOF: byte := 0xFF
  const NBMAX_FILE := 4096
  const FAIL := -1

  /** Whether the masks PERM_READ and PERM_WRITE are fully set. */
  datatype Perm = Perm(read: bool, write: bool)

  /** The length of the longest part from the start that has no end-of-file mark. */
  function Until(s: seq<byte>): (n: nat)
    ensures n <= |s| && EOF !in s[..n]
    ensures n < |s| ==> s[n] == EOF
  {
    if s == [] || s[0] == EOF then 0
    else
      var n := Until(s[1..]);
      assert s[..1 + n] == [s[0]] + s[1..][..n];
      1 + n
  }

  /** How many bytes a read of at most `len` from `offset` returns. */
  function Readable(c: seq<byte>, offset: nat, len: nat): nat {
    if offset >= |c| then 0
    else if Until(c[offset..]) < len then Until(c[offset..]) else len
  }

  /** A file after a write: what was before the offset, then the data; the rest is gone. */
  function Written(c: seq<byte>, offset: nat, data: seq<byte>): seq<byte>
    requires offset <= |c|
  {
    c[..offset] + data
  }

  /** Reading back from where a write started returns what was written, up to the first
      end-of-file mark in it: all of it exactly when it holds no such mark. */
  lemma ReadBackIff(c: seq<byte>, offset: nat, data: seq<byte>, len: nat)
    requires offset <= |c| && len >= |data|
    ensures var w := Written(c, offset, data);
            var n := Readable(w, offset, len);
            && n == Until(data) && offset + n <= |w| && w[offset..offset + n] == data[..n]
            && (n == |data| <==> EOF !in data)
  {
    hide Until;
    var w := Written(c, offset, data);
    assert w[offset..] == data;
    var n := Until(data);
    assert data[..|data|] == data;
    if n < |data| { assert data[n] in data; }
  }

  /** A read returns as many bytes as it can: it stops at the length asked for, at the end, or
      at an end-of-file mark, and not before. */
  lemma ReadableIff(c: seq<byte>, offset: nat, len: nat, n: nat)
    requires n > 0 ==> offset + n <= |c|
    ensures Readable(c, offset, len) == n <==>
              && n <= len && (forall k :: offset <= k < offset + n ==> c[k] != EOF)
              && (n == len || offset + n >= |c| || c[offset + n] == EOF)
  {
    if offset < |c| {
      var s := c[offset..];
      var m := Until(s);
      assert forall k :: offset <= k < offset + m ==> c[k] == s[..m][k - offset];
      if && n <= len && (forall k :: offset <= k < offset + n ==> c[k] != EOF)
         && (n == len || offset + n >= |c| || c[offset + n] == EOF)
      {
        assert forall k :: 0 <= k < n ==> s[k] == c[offset + k];
        StopsThere(s, n, len);
      }
    }
  }

  /** A file after a write, byte by byte. */
  lemma WrittenIs(c: seq<byte>, offset: nat, data: seq<byte>)
    requires offset <= |c|
    ensures var w := Written(c, offset, data);
            && |w| == offset + |data| && (forall k :: 0 <= k < offset ==> w[k] == c[k])
            && forall k :: 0 <= k < |data| ==> w[offset + k] == data[k]
  {
  }

  /** Writes that follow one another from an offset leave their data there, joined. */
  lemma WritesJoin(c: seq<byte>, offset: nat, a: seq<byte>, b: seq<byte>)
    requires offset <= |c|
    ensures offset + |a| <= |Written(c, offset, a)|
    ensures Written(Written(c, offset, a), offset + |a|, b) == Written(c, offset, a + b)
  {
  }

  class VFile {
    const name: string
    var size: nat
    var data: array?<byte>  // null once the allocator had no room for the file
    var perm: Perm
    var lock: bool

    constructor (name: string)
      ensures Valid() && fresh(data) && this.name == name
      ensures Contents() == [] && perm == Perm(true, true) && !lock
    {
      this.name, size, perm, lock := name, 0, Perm(true, true), false;
      data := new byte[1](_ => EOF);
    }

    /** The mark stands right after the contents, in memory the file owns. */
    ghost predicate Valid()
      reads this, data
      ensures Valid() ==> data != null
    {
      data != null && size < data.Length && data[size] == EOF
    }

    ghost function Contents(): (c: seq<byte>)
      requires Valid()
      reads this, data
      ensures |c| == size
    {
      data[..size]
    }

    /** `krealloc`, which may find no `memory`: bytes that fit stay, the others have any
        value. */
    method Resize(n: nat, memory: bool)
      requires data != null
      modifies `data
      ensures !memory ==> data == null
      ensures memory ==> data != null && fresh(data) && data.Length == n
      ensures memory ==> forall k :: 0 <= k < n && k < old(data.Length) ==> data[k] == old(data[k])
    {
      if !memory {
        data := null;
        return;
      }
      var from: array<byte> := data;
      var m := if from.Length < n then from.Length else n;
      var resized := new byte[n];
      for k := 0 to m
        invariant forall l :: 0 <= l < k ==> resized[l] == from[l]
      {
        resized[k] := from[k];
      }
      data := resized;
    }

    /** Reading stops at the end, at a mark inside the file or after `len` bytes, and puts a
        NUL behind what it read. */
    method Read(offset: nat, buff: array<byte>, len: nat) returns (r: int, next: nat)
      requires Valid() && buff != data && Readable(Contents(), offset, len) < buff.Length
      modifies buff
      ensures !perm.read ==> r == FAIL && next == offset && buff[..] == old(buff[..])
      ensures perm.read ==> r == Readable(Contents(), offset, len) && next == offset + r
      ensures perm.read ==> offset + r <= size || r == 0
      ensures perm.read && r > 0 ==> buff[..r] == Contents()[offset..offset + r]
      ensures perm.read ==> buff[r] == 0 && forall k :: r < k < buff.Length ==> buff[k] == old(buff[k])
    {
      hide Until, Readable;
      r, next := FAIL, offset;
      if !perm.read { return; }
      ghost var rest := if offset < size then Contents()[offset..] else [];
      ghost var n := Readable(Contents(), offset, len);
      RestReadable(Contents(), offset, len, rest);
      var bytes: array<byte> := data;
      var count: nat := 0;
      var i := offset;
      while i < size && bytes[i] != EOF && count < len
        invariant i == offset + count && count <= len && count <= |rest|
        invariant count <= n < buff.Length
        invariant forall k :: 0 <= k < count ==> rest[k] != EOF && buff[k] == rest[k]
        invariant forall k :: count <= k < buff.Length ==> buff[k] == old(buff[k])
      {
        MarkIsLater(rest, count);
        buff[count] := bytes[i];
        count := count + 1;
        i := i + 1;
      }
      StopsThere(rest, count, len);
      buff[count] := 0;
      r, next := count, offset + count;
    }

    /** A write replaces everything from its offset on. Past the end it leaves a gap whose
        first byte is the old mark, so that no read from before it gets across. Without room
        to grow the file is lost: all its bytes are, though the write reports success; the
        data goes to the addresses from zero on, which are not part of this model. */
    method Write(offset: nat, buff: seq<byte>, memory: bool) returns (r: int, next: nat)
      requires Valid() && offset + |buff| + 1 < WORD
      modifies this, data
      ensures !lock == !old(lock) && perm == old(perm)
      ensures data == old(data) || data == null || fresh(data)
      ensures !perm.write || lock ==> r == FAIL && next == offset && Valid() && Contents() == old(Contents())
      ensures perm.write && !lock ==> r == |buff| && next == offset + |buff| == size
      ensures perm.write && !lock ==> (Valid() <==> offset + |buff| + 1 <= old(size) || memory)
      ensures perm.write && !lock && Valid() && offset <= old(size) ==>
              Contents() == Written(old(Contents()), offset, buff)
      ensures perm.write && !lock && Valid() && offset > old(size) ==>
                && Contents()[..old(size)] == old(Contents()) && Contents()[old(size)] == EOF
                && Contents()[offset..] == buff
    {
      r, next := FAIL, offset;
      if !perm.write || lock { return; }
      lock := true;
      if offset + |buff| + 1 > size { Resize(offset + |buff| + 1, memory); }
      size := offset + |buff|;
      if data != null { Store(offset, buff); }
      lock := false;
      r, next := |buff|, offset + |buff|;
    }

    /** The data in its place, with the mark behind it. */
    method Store(offset: nat, buff: seq<byte>)
      requires data != null && offset + |buff| < data.Length
      modifies data
      ensures data[offset..offset + |buff|] == buff && data[offset + |buff|] == EOF
      ensures forall k :: 0 <= k < offset ==> data[k] == old(data[k])
    {
      var count := 0;
      while count < |buff|
        invariant count <= |buff|
        invariant forall k :: 0 <= k < count ==> data[offset + k] == buff[k]
        invariant forall k :: 0 <= k < offset ==> data[k] == old(data[k])
      {
        data[offset + count] := buff[count];
        count := count + 1;
      }
      data[offset + count] := EOF;
    }

    /** What opening a file does to it when it is not opened for appending. */
    method Truncate(memory: bool)
      requires Valid()
      modifies this
      ensures Valid() <==> memory
      ensures size == 0 && (if memory then fresh(data) && Contents() == [] else data == null)
      ensures perm == old(perm) && lock == old(lock)
    {
      Resize(1, memory);
      if data != null { data[0] := EOF; }
      size := 0;
    }
  }

  /** The flat table of files: packed from the front, one file to a name. */
  class FileSystem {
    const list: array<VFile?>
    var nbfiles: nat

    constructor ()
      ensures Valid() && fresh(list) && Files() == []
    {
      list := new VFile?[NBMAX_FILE](_ => null);
      nbfiles := 0;
    }

    ghost predicate Valid()
      reads this, list
    {
      && nbfiles <= list.Length == NBMAX_FILE
      && (forall i :: 0 <= i < list.Length ==> (list[i] == null <==> i >= nbfiles))
      && (forall i, j :: 0 <= i < j < nbfiles ==> list[i].name != list[j].name)
    }

    ghost function Files(): (fs: seq<VFile>)
      requires Valid()
      reads this, list
      ensures |fs| == nbfiles && forall i :: 0 <= i < nbfiles ==> fs[i] == list[i]
    {
      list[..nbfiles]
    }

    ghost predicate Has(name: string)
      requires Valid()
      reads this, list
    {
      exists f :: f in Files() && f.name == name
    }

    /** A name stands for one file. */
    lemma NamesAreUnique()
      requires Valid()
      ensures forall f, g :: f in Files() && g in Files() && f.name == g.name ==> f == g
    {
      forall f, g | f in Files() && g in Files() && f.name == g.name ensures f == g {
        var i :| 0 <= i < nbfiles && Files()[i] == f;
        var j :| 0 <= j < nbfiles && Files()[j] == g;
      }
    }

    method Get(name: string) returns (f: VFile?)
      requires Valid()
      ensures f != null <==> Has(name)
      ensures f != null ==> f in Files() && f.name == name
    {
      for i := 0 to nbfiles
        invariant forall k :: 0 <= k < i ==> list[k].name != name
      {
        if list[i].name == name {
          f := list[i];
          assert Files()[i] == f;
          return;
        }
      }
      f := null;
    }

    /** A new empty file comes last, unless the table is full, the name is taken or there is
        no memory for it. */
    method Create(name: string, memory: bool) returns (r: int, f: VFile?)
      requires Valid()
      modifies this, list
      ensures Valid()
      ensures r == FAIL || r == 0
      ensures r == FAIL <==> old(nbfiles) == NBMAX_FILE || old(Has(name)) || !memory
      ensures r == FAIL ==> f == null && Files() == old(Files())
      ensures r == 0 ==> f != null && fresh(f) && fresh(f.data) && Files() == old(Files()) + [f]
      ensures r == 0 ==> f.Valid() && f.name == name && f.Contents() == [] && f.perm == Perm(true, true) && !f.lock
    {
      r, f := FAIL, null;
      if nbfiles >= NBMAX_FILE { return; }
      for i := 0 to nbfiles
        invariant forall k :: 0 <= k < i ==> list[k].name != name
      {
        if list[i].name == name {
          assert Files()[i].name == name;
          return;
        }
      }
      if !memory { return; }
      f := new VFile(name);
      list[nbfiles] := f;
      nbfiles := nbfiles + 1;
      r := 0;
    }

    /** The file leaves its place and those behind it move up, in the same order. */
    method Remove(name: string) returns (r: int)
      requires Valid()
      modifies this, list
      ensures Valid()
      ensures r == FAIL || r == 0
      ensures r == 0 <==> old(Has(name))
      ensures r == FAIL ==> Files() == old(Files())
      ensures r == 0 ==> !Has(name)
      ensures r == 0 ==> exists i :: 0 <= i < old(nbfiles) && old(Files())[i].name == name
                                     && Files() == old(Files())[..i] + old(Files())[i + 1..]
    {
      ghost var was := Files();
      for i := 0 to nbfiles
        invariant nbfiles == old(nbfiles) && list[..] == old(list[..])
        invariant forall k :: 0 <= k < i ==> list[k].name != name
      {
        if list[i].name == name {
          assert was[i].name == name;
          for j := i to nbfiles - 1
            invariant i <= j && nbfiles == old(nbfiles)
            invariant forall k :: 0 <= k < i || j <= k < list.Length ==> list[k] == old(list[k])
            invariant forall k :: i <= k < j ==> list[k] == old(list[k + 1])
          {
            list[j] := list[j + 1];
          }
          list[nbfiles - 1] := null;
          nbfiles := nbfiles - 1;
          assert Valid();
          assert Files() == was[..i] + was[i + 1..];
          return 0;
        }
      }
      r := FAIL;
    }
  }

  lemma RestReadable(c: seq<byte>, offset: nat, len: nat, rest: seq<byte>)
    requires rest == if offset < |c| then c[offset..] else []
    ensures Readable(c, offset, len) == if Until(rest) < len then Until(rest) else len
  {
  }

  lemma MarkIsLater(s: seq<byte>, count: nat)
    requires count < |s| && forall k :: 0 <= k <= count ==> s[k] != EOF
    ensures Until(s) > count
  {
  }

  lemma StopsThere(s: seq<byte>, count: nat, len: nat)
    requires count <= |s| && count <= len && forall k :: 0 <= k < count ==> s[k] != EOF
    requires count == |s| || s[count] == EOF || count == len
    ensures count == if Until(s) < len then Until(s) else len
  {
    forall k | 0 <= k < Until(s) ensures s[k] != EOF { assert s[..Until(s)][k] == s[k]; }
  }
}
