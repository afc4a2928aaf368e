/** The nodes of kernel/src/fs/ramfs.c: a growing byte buffer for files, a list of children for
    directories. Buffers come from kmalloc, which is taken to succeed. */
module RamFs {
  import opened Bits
  import opened CString
  import opened Wrappers
  import opened Paths
  import opened DirTree
  import opened FileTable

  const FS_FILE: nat := 1
  const FS_DIRECTORY: nat := 2

  // The test `flags & FS_DIRECTORY`.
  predicate DirectoryFlag(flags: nat) {
    Bit(flags, 1)
  }

  // (int64_t)size for a 64-bit size
  function Signed64(size: nat): int {
    if size < 0x8000_0000_0000_0000 then size else size - TWO_64
  }

  // It is the signed number that is the size modulo 2^64.
  lemma Signed64Is(size: nat)
    requires size < TWO_64
    ensures -0x8000_0000_0000_0000 <= Signed64(size) < 0x8000_0000_0000_0000
    ensures (size - Signed64(size)) % TWO_64 == 0
  {
  }

  lemma SignedZero()
    ensures Signed64(0) == 0
  {
  }

  class RamfsEntry {
    var name: Name
    var flags: nat
    var length: nat
    var plain: bool               // read and write are set
    var listed: bool              // finddir is set
    var data: array?<Byte>
    var capacity: nat
    var children: seq<RamfsEntry> // children[..child_count]

    constructor (name: Name, flags: nat, plain: bool, listed: bool)
      ensures this.name == name && this.flags == flags && this.plain == plain && this.listed == listed
      ensures length == capacity == 0 && data == null && children == []
    {
      this.name, this.flags, this.plain, this.listed := name, flags, plain, listed;
      length, capacity, data, children := 0, 0, null, [];
    }

    // The buffer is as long as the capacity says, and covers the length; the name is a C string.
    ghost predicate Valid()
      reads this
    {
      && 0 !in name
      && length <= capacity
      && (data == null ==> capacity == 0)
      && (data != null ==> data.Length == capacity)
    }

    ghost function Content(): (c: Bytes)
      reads this, data
      requires Valid()
      ensures |c| == length
    {
      if data == null then [] else data[..length]
    }

    ghost function Links(): seq<Link<RamfsEntry>>
      reads this, children
    {
      seq(|children|, i requires 0 <= i < |children| reads this, children => Link(children[i].name, children[i]))
    }

    // ramfs_read
    method Read(offset: nat, size: nat, buffer: array<Byte>) returns (n: int)
      requires Valid() && size <= buffer.Length && offset + size < TWO_64 && buffer != data
      modifies buffer
      ensures n == Signed64(|ReadAt(Content(), offset, size)|)
      ensures var d := ReadAt(Content(), offset, size);
              |d| <= size && buffer[..] == d + old(buffer[..])[|d|..]
      ensures var len := if offset >= length then 0 else if size < length - offset then size else length - offset;
              && n == Signed64(len)
              && forall k :: 0 <= k < buffer.Length ==>
                   buffer[k] == if k < len then Content()[offset + k] else old(buffer[k])
    {
      hide Signed64, ReadAt;
      ReadAtIs(Content(), offset, size);
      SignedZero();
      ghost var before := buffer[..];
      if offset >= length {
        return 0;
      }
      var count := size;
      if offset + size > length {
        count := length - offset;
      }
      assert ReadAt(Content(), offset, size) == data[offset..offset + count];
      Copy(buffer, 0, data, offset, count);
      ReadInto(Content(), offset, size, before, buffer[..]);
      n := Signed64(count);
    }

    // ramfs_write. Inside the file or at its end the content becomes that of WriteAt; past the end
    // the bytes between the old end and the offset are whatever the buffer holds.
    method Write(offset: nat, size: nat, buffer: array<Byte>) returns (n: int)
      requires Valid() && size <= buffer.Length && offset + size + 511 < TWO_64 && buffer != data
      modifies this`length, this`data, this`capacity, data
      ensures Valid() && n == Signed64(size) && name == old(name)
      ensures data == old(data) || fresh(data)
      ensures data != buffer && buffer[..] == old(buffer[..])
      ensures Wrote(Content(), old(Content()), offset, buffer[..size])
      ensures offset <= old(length) ==> Content() == WriteAt(old(Content()), offset, buffer[..size])
      ensures length == if offset + size > old(length) then offset + size else old(length)
      ensures forall k :: 0 <= k < size ==> Content()[offset + k] == buffer[k]
      ensures forall k :: 0 <= k < old(length) && !(offset <= k < offset + size) ==> Content()[k] == old(Content())[k]
      ensures if offset + size <= old(capacity) then capacity == old(capacity) && data == old(data)
              else capacity % 512 == 0 && offset + size <= capacity < offset + size + 512
    {
      ghost var was := Content();
      if offset + size > capacity {
        Grow((offset + size + 511) / 512 * 512);
      }
      Store(offset, size, buffer);
      WroteInside(Content(), was, offset, buffer[..size]);
      n := Signed64(size);
    }

    // The rest of ramfs_write, once the buffer is large enough.
    method Store(offset: nat, size: nat, buffer: array<Byte>)
      requires Valid() && size <= buffer.Length && buffer != data && offset + size <= capacity
      modifies this`length, data
      ensures Valid() && data == old(data) && capacity == old(capacity)
      ensures buffer[..] == old(buffer[..])
      ensures Wrote(Content(), old(Content()), offset, buffer[..size])
    {
      if data != null {
        Copy(data, offset, buffer, 0, size);
      }
      if offset + size > length {
        length := offset + size;
      }
    }

    // The reallocation of ramfs_write: a larger buffer with the old content at its start.
    method Grow(cap: nat)
      requires Valid() && cap >= length
      modifies this`data, this`capacity
      ensures Valid() && capacity == cap && data != null && fresh(data)
      ensures Content() == old(Content())
    {
      var bigger := new Byte[cap];
      if data != null {
        Copy(bigger, 0, data, 0, length);
      }
      data, capacity := bigger, cap;
    }

    // ramfs_finddir
    method Finddir(name: Name) returns (child: RamfsEntry?)
      requires 0 !in name && forall c :: c in children ==> 0 !in c.name
      ensures child == null <==> Find(Links(), name).None?
      ensures child != null ==> Find(Links(), name) == Some(child)
    {
      var i := 0;
      while i < |children|
        invariant 0 <= i <= |children|
        invariant forall j :: 0 <= j < i ==> children[j].name != name
      {
        CompareIsOrder(children[i].name, name);
        if Compare(children[i].name, name) == 0 {
          FindIsFirst(Links(), name);
          assert IsFirst(Links(), name, i);
          return children[i];
        }
        i := i + 1;
      }
      FindIsFirst(Links(), name);
      return null;
    }
  }

  lemma WroteInside(c: Bytes, was: Bytes, offset: nat, buf: Bytes)
    requires Wrote(c, was, offset, buf)
    ensures offset <= |was| ==> c == WriteAt(was, offset, buf)
  {
    if offset <= |was| {
      var w := WriteAt(was, offset, buf);
      forall k | 0 <= k < |c|
        ensures c[k] == w[k]
      {
        if offset <= k < offset + |buf| {
          assert c[k] == buf[k - offset] by {
            assert k == offset + (k - offset);
          }
        }
      }
    }
  }
}
