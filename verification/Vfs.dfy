/** The descriptor table and path lookup of kernel/src/fs/vfs.c over RamFS nodes. */
module VfsCode {
  import opened Bits
  import CString
  import opened Wrappers
  import opened Paths
  import opened DirTree
  import opened FileTable
  import opened RamFs

  // file_desc_t
  datatype FileDesc = FileDesc(node: RamfsEntry?, offset: nat, flags: int)

  // The effect of a read or write that reports `bytes` bytes: 2^63 and more are negative as an
  // int64_t, and the offset stays where it is.
  ghost function Moved(st: Files<RamfsEntry>, op: Op<RamfsEntry>, bytes: nat): Files<RamfsEntry> {
    if bytes < 0x8000_0000_0000_0000 then Step(st, op) else Step(st, op).(fds := st.fds)
  }

  function SlotOf(d: FileDesc): Slot<RamfsEntry> {
    var node: Option<RamfsEntry> := if d.node == null then None else (var n: RamfsEntry := d.node; Some(n));
    Slot(node, d.offset, d.flags)
  }

  class Vfs {
    var root: RamfsEntry?            // g_vfs_root
    const fds: array<FileDesc>       // s_fd_table
    ghost var nodes: set<RamfsEntry> // every node created so far

    ghost function Buffers(): set<object>
      reads this, nodes
    {
      set n | n in nodes && n.data != null :: n.data as object
    }

    ghost predicate Valid()
      reads this, fds, nodes
    {
      && fds.Length == 64 && fds as object !in Buffers()
      && (root != null ==> root in nodes)
      && (forall n :: n in nodes ==> n.Valid() && n.plain != n.listed && n.listed == DirectoryFlag(n.flags))
      && (forall n, c :: n in nodes && c in n.children ==> c in nodes)
      && (forall n, m :: n in nodes && m in nodes && n != m && n.data != null ==> n.data != m.data)
      && (forall i :: 0 <= i < 64 && fds[i].node != null ==> fds[i].node in nodes)
      && (forall i :: 0 <= i < 64 && fds[i].node != null && fds[i].node.plain ==> fds[i].offset <= fds[i].node.length)
    }

    ghost function Slots(): seq<Slot<RamfsEntry>>
      reads this, fds
    {
      seq(fds.Length, i requires 0 <= i < fds.Length reads this, fds => SlotOf(fds[i]))
    }

    // The plain files with their contents, and the descriptors.
    ghost function State(): Files<RamfsEntry>
      reads this, fds, nodes, Buffers()
      requires Valid()
    {
      Files(map n | n in nodes && n.plain :: n.Content(), Slots())
    }

    // The directories with their children.
    ghost function Dirs(): Dirs<RamfsEntry>
      reads this, fds, nodes
      requires Valid()
    {
      map n | n in nodes && n.listed :: n.Links()
    }

    // vfs_init
    constructor ()
      ensures Valid() && fresh(fds) && root == null && nodes == {}
      ensures forall i :: 0 <= i < 64 ==> Slots()[i].node.None?
    {
      fds := new FileDesc[64](_ => FileDesc(null, 0, 0));
      root, nodes := null, {};
    }

    lemma StateInv()
      requires Valid()
      ensures Inv(State())
    {
    }

    // From any state of the table on, whatever is opened, closed, read and written, no descriptor
    // of a plain file ever stands past its end.
    lemma OffsetsStayInside(ops: seq<Op<RamfsEntry>>, fd: int)
      requires Valid()
      ensures var z := Run(State(), ops);
              OnFile(z, fd) ==> z.fds[fd].offset <= |z.content[z.fds[fd].node.value]|
    {
      StateInv();
      RunInv(State(), ops);
      hide Valid, State, Run;
    }

    // vfs_lookup: cuts the path into components as it walks down.
    method Lookup(path: Name) returns (r: RamfsEntry?)
      requires Valid() && 0 !in path
      ensures root == null ==> r == null
      ensures root != null && r == null ==> DirTree.Lookup(Dirs(), root, path).None?
      ensures root != null && r != null ==> DirTree.Lookup(Dirs(), root, path) == Some(r)
      ensures r != null ==> r in nodes
    {
      if root == null {
        return null;
      }
      hide Valid, Tokens, Fold;
      RootIsNode();
      if path == [SLASH] {
        return root;
      }
      if path != [] && path[0] == SLASH {
        r := Walk(root, path, 1);
      } else {
        assert path[0..] == path;
        r := Walk(root, path, 0);
      }
    }

    lemma RootIsNode()
      requires Valid()
      ensures root != null ==> root in nodes
    {
    }

    // The outer loop of vfs_lookup, from the byte at `start`.
    method Walk(n: RamfsEntry, path: Name, start: nat) returns (r: RamfsEntry?)
      requires Valid() && n in nodes && start <= |path| && 0 !in path
      ensures r == null <==> Fold(Dirs(), n, Tokens(path[start..])).None?
      ensures r != null ==> Fold(Dirs(), n, Tokens(path[start..])) == Some(r) && r in nodes
    {
      hide Valid, Tokens, Fold, First, Rest, Find, ScanEnd;
      r := n;
      var p := start;
      ghost var dirs := Dirs();
      while p < |path|
        invariant p <= |path| && r != null && r in nodes
        invariant Fold(dirs, n, Tokens(path[start..])) == Fold(dirs, r, Tokens(path[p..]))
        decreases |path| - p
      {
        FoldStep<RamfsEntry>(dirs, r, path[p..]);
        FirstNamed(path, p);
        var component, next := Component(path, p);
        p := next;
        r := Child(r, component);
        if r == null {
          return;
        }
      }
      assert path[p..] == [];
      FoldEnd<RamfsEntry>(dirs, r);
    }

    // The step of vfs_lookup from a node to its child.
    method Child(n: RamfsEntry, component: Name) returns (child: RamfsEntry?)
      requires Valid() && n in nodes && 0 !in component
      ensures child == null <==> n !in Dirs() || Find(Dirs()[n], component).None?
      ensures child != null ==> n in Dirs() && Find(Dirs()[n], component) == Some(child) && child in nodes
    {
      if !n.listed {
        return null;
      }
      forall c | c in n.children
        ensures 0 !in c.name
      {
        assert c in nodes && c.Valid();
      }
      child := n.Finddir(component);
      if child != null {
        ChildIsNode(n, component, child);
      }
    }

    // vfs_open: the lowest free descriptor, at offset 0.
    method Open(path: Name, flags: int) returns (fd: int)
      requires Valid() && 0 !in path
      modifies fds
      ensures Valid() && Dirs() == old(Dirs())
      ensures root == null || DirTree.Lookup(old(Dirs()), root, path).None? ==> fd == -1 && State() == old(State())
      ensures root != null && DirTree.Lookup(old(Dirs()), root, path).Some? ==>
                var node := DirTree.Lookup(old(Dirs()), root, path).value;
                var i := LowestFree(old(Slots()), 0);
                && fd == (if i < 64 then i else -1)
                && State() == Step(old(State()), FileTable.Open(node, flags))
    {
      var node := Lookup(path);
      if node == null {
        return -1;
      }
      var i := 0;
      while i < 64
        invariant 0 <= i <= 64
        invariant LowestFree(Slots(), 0) == LowestFree(Slots(), i)
      {
        if fds[i].node == null {
          SetSlot(i, FileDesc(node, 0, flags));
          return i;
        }
        i := i + 1;
      }
      return -1;
    }

    // An assignment to s_fd_table[i].
    method SetSlot(i: int, d: FileDesc)
      requires Valid() && 0 <= i < 64
      requires d.node != null ==> d.node in nodes && (d.node.plain ==> d.offset <= d.node.length)
      modifies fds
      ensures Valid() && Dirs() == old(Dirs()) && fds[i] == d
      ensures forall j :: 0 <= j < 64 && j != i ==> fds[j] == old(fds[j])
      ensures State() == old(State()).(fds := old(State()).fds[i := SlotOf(d)])
    {
      fds[i] := d;
      hide Slots;
      SameDirs();
      SameContents();
      SlotChanged(i);
    }

    twostate lemma SameContents()
      requires old(Valid()) && Valid() && nodes == old(nodes)
      requires forall n :: n in nodes ==> n.plain == old(n.plain) && n.Content() == old(n.Content())
      ensures State().content == old(State()).content
    {
    }

    twostate lemma SlotChanged(i: int)
      requires 0 <= i < fds.Length && fds[..] == old(fds[..])[i := fds[i]]
      ensures Slots() == old(Slots())[i := SlotOf(fds[i])]
    {
      assert forall j :: 0 <= j < fds.Length ==> fds[j] == fds[..][j] && old(fds[j]) == old(fds[..])[j];
    }

    // vfs_close
    method Close(fd: int)
      requires Valid()
      modifies fds
      ensures 0 <= fd < 64 ==> fds[fd].node == null
      ensures forall j :: 0 <= j < 64 && j != fd ==> fds[j] == old(fds[j])
      ensures Valid() && Dirs() == old(Dirs())
      ensures State() == Step(old(State()), FileTable.Close(fd))
    {
      if fd < 0 || fd >= 64 || fds[fd].node == null {
        return;
      }
      SetSlot(fd, fds[fd].(node := null));
    }

    // vfs_read: -1 when the descriptor is not open on a file, else the number of bytes delivered as
    // a signed number; the offset moves on when that is positive.
    method Read(fd: int, buffer: array<Byte>, count: nat) returns (n: int)
      requires Valid() && buffer !in Buffers() && buffer as object != fds
      requires count <= buffer.Length && (IsOpen(State(), fd) ==> fds[fd].offset + count < TWO_64)
      modifies fds, buffer
      ensures Valid() && Dirs() == old(Dirs())
      ensures if old(OnFile(State(), fd))
              then var d := old(Delivered(State(), fd, count));
                   && n == Signed64(|d|) && |d| <= count && buffer[..] == d + old(buffer[..])[|d|..]
                   && State() == Moved(old(State()), FileTable.Read(fd, count), |d|)
              else n == -1 && buffer[..] == old(buffer[..]) && State() == old(State())
      ensures old(OnFile(State(), fd)) ==>
                var off := old(State()).fds[fd].offset;
                var c := old(State()).content[old(State()).fds[fd].node.value];
                var len := if off >= |c| then 0 else if count < |c| - off then count else |c| - off;
                && n == Signed64(len)
                && (forall k :: 0 <= k < buffer.Length ==>
                      buffer[k] == if k < len then c[off + k] else old(buffer[k]))
                && fds[fd].offset == off + (if n > 0 then n else 0)
                && fds[fd].node == old(fds[fd].node)
    {
      if fd < 0 || fd >= 64 || fds[fd].node == null {
        return -1;
      }
      var node := fds[fd].node;
      if !node.plain {
        return -1;
      }
      n := ReadNode(node, fd, buffer, count);
      hide Valid, State, ReadAt;
      Skip(fd, n);
    }

    // node->read for a node of this file system, at the offset of a descriptor.
    method ReadNode(node: RamfsEntry, fd: int, buffer: array<Byte>, count: nat) returns (n: int)
      requires Valid() && 0 <= fd < 64 && fds[fd].node == node && node.plain
      requires buffer !in Buffers() && buffer as object != fds
      requires count <= buffer.Length && fds[fd].offset + count < TWO_64
      modifies buffer
      ensures Valid() && Dirs() == old(Dirs()) && State() == old(State()) && fds[..] == old(fds[..])
      ensures OnFile(State(), fd) && State().fds[fd].node == Some(node) && State().fds[fd].offset == fds[fd].offset
      ensures var c, off := State().content[node], fds[fd].offset;
              var d := ReadAt(c, off, count);
              var len := if off >= |c| then 0 else if count < |c| - off then count else |c| - off;
              && |d| == len && n == Signed64(len) && off + len <= node.length && n <= len
              && buffer[..] == d + old(buffer[..])[len..]
              && forall k :: 0 <= k < buffer.Length ==>
                   buffer[k] == if k < len then c[off + k] else old(buffer[k])
    {
      ghost var c := State().content[node];
      n := node.Read(fds[fd].offset, count, buffer);
      ReadAtIs(c, fds[fd].offset, count);
    }

    // vfs_write: -1 when the descriptor is not open on a file, else all bytes are written and their
    // number returned as a signed number; the offset moves on when that is positive.
    method Write(fd: int, buffer: array<Byte>, count: nat) returns (n: int)
      requires Valid() && buffer !in Buffers() && buffer as object != fds
      requires count <= buffer.Length && (IsOpen(State(), fd) ==> fds[fd].offset + count + 511 < TWO_64)
      modifies fds, nodes, Buffers()
      ensures Valid() && nodes == old(nodes) && Dirs() == old(Dirs())
      ensures buffer[..] == old(buffer[..])
      ensures State() == Moved(old(State()), FileTable.Write(fd, buffer[..count]), count)
      ensures n == if old(OnFile(State(), fd)) then Signed64(count) else -1
      ensures old(OnFile(State(), fd)) ==>
                var off, node := old(State()).fds[fd].offset, old(State()).fds[fd].node.value;
                var c, c' := old(State()).content[node], State().content[node];
                && Wrote(c', c, off, buffer[..count])
                && State().fds[fd].offset == off + (if n > 0 then n else 0)
    {
      ghost var st := State();
      if fd < 0 || fd >= 64 || fds[fd].node == null {
        return -1;
      }
      var node := fds[fd].node;
      if !node.plain {
        return -1;
      }
      WriteAtIs(st.content[node], fds[fd].offset, buffer[..count]);
      n := WriteNode(node, fds[fd].offset, buffer, count);
      hide Valid, State, WriteAt, Wrote;
      Skip(fd, n);
    }

    // node->write for a node of this file system.
    method WriteNode(node: RamfsEntry, offset: nat, buffer: array<Byte>, count: nat) returns (n: int)
      requires Valid() && node in nodes && node.plain && offset <= node.length
      requires buffer !in Buffers() && buffer as object != fds
      requires count <= buffer.Length && offset + count + 511 < TWO_64
      modifies nodes, Buffers()
      ensures Valid() && nodes == old(nodes) && Dirs() == old(Dirs()) && fds[..] == old(fds[..])
      ensures buffer[..] == old(buffer[..]) && n == Signed64(count)
      ensures node.plain && offset + count <= node.length
      ensures node in old(State()).content
      ensures var was := old(State()).content;
              State() == old(State()).(content := was[node := WriteAt(was[node], offset, buffer[..count])])
    {
      n := WriteEntry(node, offset, buffer, count);
      SameDirs();
      FileChanged(node);
    }

    method WriteEntry(node: RamfsEntry, offset: nat, buffer: array<Byte>, count: nat) returns (n: int)
      requires Valid() && node in nodes && node.plain && offset <= node.length
      requires buffer !in Buffers() && buffer as object != fds
      requires count <= buffer.Length && offset + count + 511 < TWO_64
      modifies nodes, Buffers()
      ensures Valid() && nodes == old(nodes) && fds[..] == old(fds[..])
      ensures forall m :: m in nodes ==> m.name == old(m.name) && m.children == old(m.children)
                                         && m.listed == old(m.listed) && m.plain == old(m.plain)
      ensures forall m :: m in nodes && m != node ==> m.Content() == old(m.Content())
      ensures buffer[..] == old(buffer[..]) && n == Signed64(count) && offset + count <= node.length
      ensures node.Content() == WriteAt(old(node.Content()), offset, buffer[..count])
    {
      n := node.Write(offset, count, buffer);
    }

    // One file has new content, the rest is as it was.
    twostate lemma FileChanged(node: RamfsEntry)
      requires old(Valid()) && Valid() && nodes == old(nodes) && fds[..] == old(fds[..]) && node in nodes
      requires node.plain && forall m :: m in nodes ==> m.plain == old(m.plain)
      requires forall m :: m in nodes && m != node ==> m.Content() == old(m.Content())
      ensures State() == old(State()).(content := old(State()).content[node := node.Content()])
    {
      assert forall i :: 0 <= i < 64 ==> fds[i] == fds[..][i] && old(fds[i]) == old(fds[..])[i];
    }

    // The directories depend on names and children only.
    twostate lemma SameDirs()
      requires old(Valid()) && Valid() && nodes == old(nodes)
      requires forall n :: n in nodes ==>
                 n.name == old(n.name) && n.children == old(n.children) && n.listed == old(n.listed)
      ensures Dirs() == old(Dirs())
    {
      forall n | n in nodes
        ensures n.Links() == old(n.Links())
      {
        assert forall i :: 0 <= i < |n.children| ==> n.children[i] in nodes;
      }
    }

    // The offset update of vfs_read and vfs_write.
    method Skip(fd: int, n: int)
      requires Valid() && 0 <= fd < 64 && fds[fd].node != null && fds[fd].node.plain
      requires fds[fd].offset + n <= fds[fd].node.length
      modifies fds
      ensures Valid() && Dirs() == old(Dirs())
      ensures fds[fd] == old(fds[fd]).(offset := old(fds[fd]).offset + if n > 0 then n else 0)
      ensures State() == if n > 0 then Advance(old(State()), fd, n) else old(State())
    {
      if n > 0 {
        SetSlot(fd, fds[fd].(offset := fds[fd].offset + n));
      }
    }

    // ramfs_create_root
    method MountRoot()
      requires Valid()
      modifies this
      ensures Valid() && root != null && fresh(root) && nodes == old(nodes) + {root}
      ensures Dirs() == old(Dirs())[root := []] && State() == old(State())
      ensures root.name == [SLASH] && root.children == [] && root.listed && !root.plain && root.flags == FS_DIRECTORY
    {
      var dir := new RamfsEntry([SLASH], FS_DIRECTORY, false, true);
      DirectoryFlags();
      hide Valid, State, Dirs;
      Adopt(dir);
      SetRoot(dir);
    }

    method SetRoot(n: RamfsEntry)
      requires Valid() && n in nodes
      modifies this`root
      ensures Valid() && root == n && nodes == old(nodes) && Dirs() == old(Dirs()) && State() == old(State())
    {
      root := n;
    }

    // A new node without parent.
    ghost method Adopt(n: RamfsEntry)
      requires Valid() && n !in nodes && n.Valid() && n.children == [] && n as object !in Buffers()
      requires n.plain != n.listed && n.listed == DirectoryFlag(n.flags)
      requires n.data != null ==> n.data !in Buffers() && n.data as object != fds
      modifies this`nodes
      ensures Valid() && nodes == old(nodes) + {n} && root == old(root)
      ensures Dirs() == if n.listed then old(Dirs())[n := []] else old(Dirs())
      ensures State().fds == old(State()).fds
      ensures State().content == if n.plain then old(State()).content[n := n.Content()] else old(State()).content
    {
      hide State, Dirs;
      nodes := nodes + {n};
      AdoptedDirs(n);
      AdoptedFiles(n);
    }

    twostate lemma AdoptedDirs(n: RamfsEntry)
      requires old(Valid()) && Valid() && n !in old(nodes) && nodes == old(nodes) + {n} && n.children == []
      requires forall m :: m in nodes ==>
                 m.name == old(m.name) && m.children == old(m.children) && m.listed == old(m.listed)
      ensures Dirs() == if n.listed then old(Dirs())[n := []] else old(Dirs())
    {
      forall m | m in old(nodes)
        ensures m.Links() == old(m.Links())
      {
        assert forall i :: 0 <= i < |m.children| ==> m.children[i] in old(nodes);
      }
      assert n.Links() == [];
    }

    twostate lemma AdoptedFiles(n: RamfsEntry)
      requires old(Valid()) && Valid() && n !in old(nodes) && nodes == old(nodes) + {n} && fds[..] == old(fds[..])
      requires forall m :: m in nodes ==> m.plain == old(m.plain)
      requires forall m :: m in old(nodes) ==> m.Content() == old(m.Content())
      ensures State().fds == old(State()).fds
      ensures State().content == if n.plain then old(State()).content[n := n.Content()] else old(State()).content
    {
      assert forall i :: 0 <= i < 64 ==> fds[i] == fds[..][i] && old(fds[i]) == old(fds[..])[i];
    }

    // p->children[p->child_count++] = child
    method AddChild(parent: RamfsEntry, child: RamfsEntry)
      requires Valid() && parent in nodes && parent.listed && child in nodes
      modifies parent`children
      ensures Valid() && State() == old(State())
      ensures parent.children == old(parent.children) + [child]
      ensures Dirs() == AddLink(old(Dirs()), parent, Link(child.name, child))
    {
      parent.children := parent.children + [child];
      AddedChild(parent, child);
      SameState();
    }

    twostate lemma AddedChild(parent: RamfsEntry, new child: RamfsEntry)
      requires old(Valid()) && Valid() && nodes == old(nodes) && parent in nodes && parent.listed && child in nodes
      requires forall n :: n in nodes ==> n.name == old(n.name) && n.listed == old(n.listed)
      requires forall n :: n in nodes && n != parent ==> n.children == old(n.children)
      requires parent.children == old(parent.children) + [child]
      ensures parent in old(Dirs())
      ensures Dirs() == AddLink(old(Dirs()), parent, Link(child.name, child))
    {
      forall n | n in nodes && n != parent
        ensures n.Links() == old(n.Links())
      {
        assert forall i :: 0 <= i < |n.children| ==> n.children[i] in nodes;
      }
      assert parent.Links() == old(parent.Links()) + [Link(child.name, child)] by {
        assert forall i :: 0 <= i < |old(parent.children)| ==> parent.children[i] == old(parent.children)[i];
        assert forall i :: 0 <= i < |parent.children| ==> parent.children[i] in nodes;
      }
    }

    twostate lemma SameState()
      requires old(Valid()) && Valid() && nodes == old(nodes) && fds[..] == old(fds[..])
      requires forall n :: n in nodes ==> n.plain == old(n.plain) && n.Content() == old(n.Content())
      ensures State() == old(State())
    {
      assert forall i :: 0 <= i < 64 ==> fds[i] == fds[..][i] && old(fds[i]) == old(fds[..])[i];
    }

    // The tests both create functions start with.
    predicate HasRoom(parent: RamfsEntry?)
      reads parent
    {
      parent != null && DirectoryFlag(parent.flags) && |parent.children| < 32
    }

    lemma RoomIff(parent: RamfsEntry?)
      requires Valid() && (parent != null ==> parent in nodes)
      ensures HasRoom(parent) <==> parent != null && parent in Dirs() && |Dirs()[parent]| < 32
      ensures HasRoom(parent) ==> parent.listed
    {
    }

    // The last step of both: the new node becomes the last child.
    method Attach(parent: RamfsEntry, n: RamfsEntry)
      requires Valid() && parent in nodes && parent.listed
      requires n !in nodes && n.Valid() && n.children == [] && n as object !in Buffers()
      requires n.plain != n.listed && n.listed == DirectoryFlag(n.flags)
      requires n.data != null ==> n.data !in Buffers() && n.data as object != fds
      modifies this`nodes, parent`children
      ensures Valid() && nodes == old(nodes) + {n} && root == old(root)
      ensures parent.children == old(parent.children) + [n]
      ensures Dirs() == AddLink(if n.listed then old(Dirs())[n := []] else old(Dirs()), parent, Link(n.name, n))
      ensures State().fds == old(State()).fds
      ensures State().content == if n.plain then old(State()).content[n := n.Content()] else old(State()).content
    {
      hide Valid, State, Dirs;
      Adopt(n);
      AddChild(parent, n);
    }

    // ramfs_create_dir
    method CreateDir(parent: RamfsEntry?, name: Name) returns (dir: RamfsEntry?)
      requires 0 !in name
      requires Valid() && (parent != null ==> parent in nodes)
      modifies this, parent
      ensures Valid() && root == old(root)
      ensures dir == null <==> parent == null || parent !in old(Dirs()) || |old(Dirs())[parent]| >= 32
      ensures dir == null ==> Dirs() == old(Dirs()) && nodes == old(nodes) && State() == old(State())
      ensures dir != null ==> && fresh(dir) && nodes == old(nodes) + {dir}
                              && Dirs() == Create(old(Dirs()), parent, name, dir, true)
                              && State() == old(State())
      ensures dir != null ==> && parent.children == old(parent.children) + [dir] && dir.children == []
                              && dir.name == (if |name| < 127 then name else name[..127])
                              && dir.listed && !dir.plain && dir.flags == FS_DIRECTORY
    {
      hide Valid, State, Dirs, Stored, DirectoryFlag;
      DirectoryFlags();
      RoomIff(parent);
      if !HasRoom(parent) {
        return null;
      }
      StoredNamed(name);
      StoredIs(name);
      dir := new RamfsEntry(Stored(name), FS_DIRECTORY, false, true);
      Attach(parent, dir);
    }

    // ramfs_create_file; a null or empty content leaves the file empty and without a buffer.
    method CreateFile(parent: RamfsEntry?, name: Name, content: array?<Byte>, size: nat) returns (file: RamfsEntry?)
      requires 0 !in name
      requires Valid() && (parent != null ==> parent in nodes)
      requires content != null ==> size <= content.Length
      modifies this, parent
      ensures Valid() && root == old(root) && State().fds == old(State()).fds
      ensures file == null <==> parent == null || parent !in old(Dirs()) || |old(Dirs())[parent]| >= 32
      ensures file == null ==> Dirs() == old(Dirs()) && nodes == old(nodes) && State() == old(State())
      ensures file != null ==>
                && fresh(file) && nodes == old(nodes) + {file}
                && Dirs() == Create(old(Dirs()), parent, name, file, false)
                && State().content == old(State()).content[file := if content == null then [] else content[..size]]
      ensures file != null ==> && parent.children == old(parent.children) + [file] && file.children == []
                               && file.name == (if |name| < 127 then name else name[..127])
                               && file.plain && !file.listed && file.flags == FS_FILE
    {
      hide Valid, State, Dirs, Stored, DirectoryFlag;
      DirectoryFlags();
      RoomIff(parent);
      if !HasRoom(parent) {
        return null;
      }
      StoredNamed(name);
      StoredIs(name);
      file := NewFile(Stored(name), content, size);
      Attach(parent, file);
    }
  }

  // The node ramfs_create_file makes before it links it.
  method NewFile(name: Name, content: array?<Byte>, size: nat) returns (file: RamfsEntry)
    requires 0 !in name && (content != null ==> size <= content.Length)
    ensures fresh(file) && file.Valid() && (file.data != null ==> fresh(file.data))
    ensures file.name == name && file.plain && !file.listed && file.children == [] && file.flags == FS_FILE
    ensures file.Content() == if content == null then [] else content[..size]
  {
    DirectoryFlags();
    file := new RamfsEntry(name, FS_FILE, true, false);
    if size > 0 && content != null {
      var data := new Byte[size];
      CString.Copy(data, 0, content, 0, size);
      file.data, file.capacity, file.length := data, size, size;
    }
  }

  // The inner loop of vfs_lookup: the component at p, and where the next one starts.
  method Component(path: Name, p: nat) returns (component: Name, next: nat)
    requires p < |path|
    ensures component == First(path[p..])
    ensures p < next <= |path| && path[next..] == Rest(path[p..])
  {
    ghost var rest := path[p..];
    var i := 0;
    component := [];
    while p + i < |path| && path[p + i] != SLASH && i < 127
      invariant 0 <= i && p + i <= |path| && component == rest[..i]
      invariant ScanEnd(rest, 0) == ScanEnd(rest, i)
    {
      component := component + [path[p + i]];
      i := i + 1;
    }
    next := p + i;
    if next < |path| && path[next] == SLASH {
      next := next + 1;
    }
  }

  lemma FirstNamed(path: Name, p: nat)
    requires p <= |path| && 0 !in path
    ensures 0 !in First(path[p..])
  {
  }

  lemma StoredNamed(name: Name)
    requires 0 !in name
    ensures 0 !in Stored(name)
  {
  }

  lemma StoredIs(name: Name)
    ensures Stored(name) == if |name| < 127 then name else name[..127]
  {
  }

  lemma FoldEnd<N>(dirs: Dirs<N>, n: N)
    ensures Fold(dirs, n, Tokens([])) == Some(n)
  {
  }

  lemma FoldStep<N>(dirs: Dirs<N>, n: N, path: Name)
    requires path != []
    ensures Fold(dirs, n, Tokens(path))
         == if n !in dirs then None
            else match Find(dirs[n], First(path))
                 case None => None
                 case Some(child) => Fold(dirs, child, Tokens(Rest(path)))
  {
    TokensUnfold(path);
    var ts := Tokens(Rest(path));
    assert ([First(path)] + ts)[1..] == ts;
  }

  lemma ChildIsNode(n: RamfsEntry, name: Name, child: RamfsEntry)
    requires Find(n.Links(), name) == Some(child)
    ensures child in n.children
  {
    FindIsFirst(n.Links(), name);
    var k :| IsFirst(n.Links(), name, k);
    assert n.Links()[k].node == n.children[k];
  }

  lemma DirectoryFlags()
    ensures DirectoryFlag(FS_DIRECTORY) && !DirectoryFlag(FS_FILE)
  {
    assert Bit(1, 0) && !Bit(0, 0);
  }
}
