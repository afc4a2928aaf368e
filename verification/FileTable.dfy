/** Open files as values: the contents of plain files and the table of descriptors of
    kernel/src/fs/vfs.c, over the reads and writes of kernel/src/fs/ramfs.c. */
module FileTable {
  import opened Bits
  import opened Wrappers

  // An entry of s_fd_table; it is free when it has no node.
  datatype Slot<N> = Slot(node: Option<N>, offset: nat, flags: int)

  // The contents of the plain files, and the descriptors.
  datatype Files<N> = Files(content: map<N, Bytes>, fds: seq<Slot<N>>)

  // ramfs_read: the slice asked for, clipped at the end of the file.
  function ReadAt(c: Bytes, off: nat, count: nat): Bytes {
    if off >= |c| then [] else if off + count > |c| then c[off..] else c[off..off + count]
  }

  // ramfs_write at an offset inside the file or at its end.
  function WriteAt(c: Bytes, off: nat, buf: Bytes): Bytes
    requires off <= |c|
  {
    c[..off] + buf + (if off + |buf| < |c| then c[off + |buf|..] else [])
  }

  datatype Op<N> =
    | Open(node: N, mode: int)
    | Close(fd: int)
    | Read(fd: int, count: nat)
    | Write(fd: int, buf: Bytes)

  // The lowest free slot at or after i, |fds| when there is none.
  function LowestFree<N>(fds: seq<Slot<N>>, i: nat): (r: nat)
    requires i <= |fds|
    ensures i <= r <= |fds|
    ensures r < |fds| ==> fds[r].node.None?
    ensures forall j :: i <= j < r ==> fds[j].node.Some?
    decreases |fds| - i
  {
    if i == |fds| || fds[i].node.None? then i else LowestFree(fds, i + 1)
  }

  predicate IsOpen<N>(st: Files<N>, fd: int) {
    0 <= fd < |st.fds| && st.fds[fd].node.Some?
  }

  // The descriptor is open on a plain file; others have no read and no write.
  ghost predicate OnFile<N>(st: Files<N>, fd: int) {
    IsOpen(st, fd) && st.fds[fd].node.value in st.content
  }

  // The bytes a read returns.
  ghost function Delivered<N>(st: Files<N>, fd: int, count: nat): Bytes
    requires OnFile(st, fd)
  {
    ReadAt(st.content[st.fds[fd].node.value], st.fds[fd].offset, count)
  }

  ghost function Step<N>(st: Files<N>, op: Op<N>): Files<N> {
    match op
    case Open(node, mode) =>
      var i := LowestFree(st.fds, 0);
      if i == |st.fds| then st else st.(fds := st.fds[i := Slot(Some(node), 0, mode)])
    case Close(fd) =>
      if IsOpen(st, fd) then st.(fds := st.fds[fd := st.fds[fd].(node := None)]) else st
    case Read(fd, count) =>
      if OnFile(st, fd) then Advance(st, fd, |Delivered(st, fd, count)|) else st
    case Write(fd, buf) =>
      if OnFile(st, fd) then
        var node := st.fds[fd].node.value;
        var c := st.content[node];
        if st.fds[fd].offset <= |c| then
          Advance(st.(content := st.content[node := WriteAt(c, st.fds[fd].offset, buf)]), fd, |buf|)
        else st
      else st
  }

  ghost function Advance<N>(st: Files<N>, fd: int, n: nat): Files<N>
    requires 0 <= fd < |st.fds|
  {
    st.(fds := st.fds[fd := st.fds[fd].(offset := st.fds[fd].offset + n)])
  }

  ghost function Run<N>(st: Files<N>, ops: seq<Op<N>>): Files<N> {
    if ops == [] then st else Step(Run(st, ops[..|ops| - 1]), ops[|ops| - 1])
  }

  // No descriptor of a plain file stands past its end, so no write leaves a hole.
  ghost predicate Inv<N>(st: Files<N>) {
    forall fd :: OnFile(st, fd) ==> st.fds[fd].offset <= |st.content[st.fds[fd].node.value]|
  }

  lemma StepInv<N>(st: Files<N>, op: Op<N>)
    requires Inv(st)
    ensures Inv(Step(st, op)) && |Step(st, op).fds| == |st.fds| && Step(st, op).content.Keys == st.content.Keys
  {
    var z := Step(st, op);
    forall fd | OnFile(z, fd)
      ensures z.fds[fd].offset <= |z.content[z.fds[fd].node.value]|
    {
      assert z.fds[fd] == st.fds[fd] ==> OnFile(st, fd);
    }
  }

  lemma {:induction false} RunInv<N>(st: Files<N>, ops: seq<Op<N>>)
    requires Inv(st)
    ensures Inv(Run(st, ops)) && |Run(st, ops).fds| == |st.fds| && Run(st, ops).content.Keys == st.content.Keys
  {
    if ops != [] {
      RunInv(st, ops[..|ops| - 1]);
      StepInv(Run(st, ops[..|ops| - 1]), ops[|ops| - 1]);
    }
  }

  // The descriptor an operation is about.
  ghost predicate About<N>(st: Files<N>, op: Op<N>, fd: int) {
    match op
    case Open(_, _) => fd == LowestFree(st.fds, 0)
    case Close(g) => g == fd
    case Read(g, _) => g == fd
    case Write(g, _) => g == fd
  }

  // An operation leaves every other descriptor alone, and only a write to an open plain file
  // changes contents, those of that file.
  lemma OthersUntouched<N>(st: Files<N>, op: Op<N>, fd: int, node: N)
    requires Inv(st)
    requires 0 <= fd < |st.fds| && !About(st, op, fd)
    ensures Step(st, op).fds[fd] == st.fds[fd]
    ensures node in st.content && !(op.Write? && OnFile(st, op.fd) && st.fds[op.fd].node == Some(node))
            ==> node in Step(st, op).content && Step(st, op).content[node] == st.content[node]
  {
  }

  // vfs_open takes the lowest free descriptor, with offset 0, and fails when there is none.
  lemma OpenTakesLowest<N>(st: Files<N>, node: N, mode: int)
    ensures var z := Step(st, Open(node, mode));
            var i := LowestFree(st.fds, 0);
            && (i < |st.fds| ==> !IsOpen(st, i) && z.fds[i] == Slot(Some(node), 0, mode))
            && (forall j :: 0 <= j < i ==> IsOpen(st, j))
            && (i == |st.fds| ==> z == st)
  {
  }

  // vfs_close frees its descriptor and changes no content.
  lemma CloseFrees<N>(st: Files<N>, fd: int)
    ensures var z := Step(st, Close(fd));
            && |z.fds| == |st.fds| && z.content == st.content
            && (0 <= fd < |st.fds| ==> z.fds[fd].node == None)
            && forall j :: 0 <= j < |st.fds| && j != fd ==> z.fds[j] == st.fds[j]
  {
  }

  // An open after a close succeeds, at a descriptor no higher than the one closed.
  lemma ReopenSucceeds<N>(st: Files<N>, fd: int, node: N, mode: int) returns (i: nat)
    requires 0 <= fd < |st.fds|
    ensures i <= fd
    ensures Step(st, Close(fd)).fds[i].node == None
    ensures Step(Step(st, Close(fd)), Open(node, mode)).fds[i] == Slot(Some(node), 0, mode)
  {
    var closed := Step(st, Close(fd));
    CloseFrees(st, fd);
    i := LowestFree(closed.fds, 0);
  }

  // ----- the bytes read and written -----

  // A read delivers the bytes from the offset on, as many as asked for or as there are.
  lemma ReadAtIs(c: Bytes, off: nat, count: nat)
    ensures |ReadAt(c, off, count)| == if off >= |c| then 0 else if count < |c| - off then count else |c| - off
    ensures forall k :: 0 <= k < |ReadAt(c, off, count)| ==> ReadAt(c, off, count)[k] == c[off + k]
  {
  }

  // c is `was` with buf written at offset; past the old end only the bytes of buf are determined.
  ghost predicate Wrote(c: Bytes, was: Bytes, offset: nat, buf: Bytes) {
    && |c| == (if offset + |buf| > |was| then offset + |buf| else |was|)
    && (forall k :: 0 <= k < |buf| ==> c[offset + k] == buf[k])
    && (forall k :: 0 <= k < |was| && !(offset <= k < offset + |buf|) ==> c[k] == was[k])
  }

  // A write puts its bytes at the offset, makes the file longer when they reach past its end, and
  // leaves every other byte; and that leaves no choice.
  lemma WriteAtIs(c: Bytes, off: nat, buf: Bytes)
    requires off <= |c|
    ensures Wrote(WriteAt(c, off, buf), c, off, buf)
    ensures |WriteAt(c, off, buf)| == if off + |buf| > |c| then off + |buf| else |c|
    ensures forall k :: 0 <= k < |WriteAt(c, off, buf)| ==>
              WriteAt(c, off, buf)[k] == if off <= k < off + |buf| then buf[k - off] else c[k]
  {
  }

  // What was written at an offset is read back there.
  lemma WrittenIsRead(c: Bytes, off: nat, buf: Bytes)
    requires off <= |c|
    ensures ReadAt(WriteAt(c, off, buf), off, |buf|) == buf
  {
    var w := WriteAt(c, off, buf);
    WriteAtIs(c, off, buf);
    ReadAtIs(w, off, |buf|);
    hide WriteAt, ReadAt;
  }

  // A buffer that starts with what was read and is otherwise as it was, byte by byte.
  lemma ReadInto(c: Bytes, off: nat, count: nat, before: Bytes, after: Bytes)
    requires var d := ReadAt(c, off, count); |d| <= |before| && after == d + before[|d|..]
    ensures |after| == |before|
    ensures var len := if off >= |c| then 0 else if count < |c| - off then count else |c| - off;
            forall k :: 0 <= k < |after| ==> after[k] == if k < len then c[off + k] else before[k]
  {
    ReadAtIs(c, off, count);
    hide ReadAt;
  }

  // ----- reading and writing in pieces -----

  lemma ReadsJoin(c: Bytes, off: nat, a: nat, b: nat)
    requires off <= |c|
    ensures ReadAt(c, off, a) + ReadAt(c, off + |ReadAt(c, off, a)|, b) == ReadAt(c, off, a + b)
  {
  }

  lemma WritesJoin(c: Bytes, off: nat, a: Bytes, b: Bytes)
    requires off <= |c|
    ensures off + |a| <= |WriteAt(c, off, a)|
    ensures WriteAt(WriteAt(c, off, a), off + |a|, b) == WriteAt(c, off, a + b)
  {
    var w := WriteAt(c, off, a);
    assert w[..off + |a|] == c[..off] + a;
    assert off + |a + b| < |c| ==> w[off + |a| + |b|..] == c[off + |a| + |b|..];
  }

  // Nobody closes the descriptor, and nobody writes to its file but, perhaps, through it.
  ghost predicate Alone<N>(st: Files<N>, op: Op<N>, fd: int, node: N) {
    && op != Close(fd)
    && (op.Write? && OnFile(st, op.fd) && op.fd != fd ==> st.fds[op.fd].node != Some(node))
  }

  ghost predicate AloneThroughout<N>(st: Files<N>, ops: seq<Op<N>>, fd: int, node: N) {
    ops == [] || (AloneThroughout(st, ops[..|ops| - 1], fd, node)
                  && Alone(Run(st, ops[..|ops| - 1]), ops[|ops| - 1], fd, node))
  }

  // What the reads of fd return during a run, in order, and how much they ask for.
  ghost function Received<N>(st: Files<N>, ops: seq<Op<N>>, fd: int): Bytes {
    if ops == [] then []
    else
      var before, op := Run(st, ops[..|ops| - 1]), ops[|ops| - 1];
      Received(st, ops[..|ops| - 1], fd)
      + (if op.Read? && op.fd == fd && OnFile(before, fd) then Delivered(before, fd, op.count) else [])
  }

  function Requested<N>(ops: seq<Op<N>>, fd: int): nat {
    if ops == [] then 0
    else Requested(ops[..|ops| - 1], fd)
         + (var op := ops[|ops| - 1]; if op.Read? && op.fd == fd then op.count else 0)
  }

  // What the writes through fd carry, in order.
  function Sent<N>(ops: seq<Op<N>>, fd: int): Bytes {
    if ops == [] then []
    else Sent(ops[..|ops| - 1], fd)
         + (var op := ops[|ops| - 1]; if op.Write? && op.fd == fd then op.buf else [])
  }

  // Reads in any chunk sizes, with anything going on in between on other descriptors and other
  // files, deliver together the clipped slice of the content.
  lemma {:induction false} ChunkedReads<N>(st: Files<N>, ops: seq<Op<N>>, fd: int, node: N)
    requires Inv(st) && OnFile(st, fd) && st.fds[fd].node == Some(node)
    requires AloneThroughout(st, ops, fd, node)
    requires forall op :: op in ops ==> !(op.Write? && op.fd == fd)
    ensures var z := Run(st, ops);
            && OnFile(z, fd) && z.fds[fd].node == Some(node) && z.content[node] == st.content[node]
            && Received(st, ops, fd) == ReadAt(st.content[node], st.fds[fd].offset, Requested(ops, fd))
            && z.fds[fd].offset == st.fds[fd].offset + |Received(st, ops, fd)|
  {
    var c, off := st.content[node], st.fds[fd].offset;
    if ops != [] {
      var init, op := ops[..|ops| - 1], ops[|ops| - 1];
      assert op in ops && forall o :: o in init ==> o in ops;
      ChunkedReads(st, init, fd, node);
      RunInv(st, init);
      var y := Run(st, init);
      OneRead(y, op, fd, node);
      ReadsJoin(c, off, Requested(init, fd), if op.Read? && op.fd == fd then op.count else 0);
    }
  }

  lemma OneRead<N>(y: Files<N>, op: Op<N>, fd: int, node: N)
    requires Inv(y) && OnFile(y, fd) && y.fds[fd].node == Some(node)
    requires Alone(y, op, fd, node) && !(op.Write? && op.fd == fd)
    ensures var z := Step(y, op);
            && OnFile(z, fd) && z.fds[fd].node == Some(node) && z.content[node] == y.content[node]
            && z.fds[fd].offset == y.fds[fd].offset
               + (if op.Read? && op.fd == fd then |Delivered(y, fd, op.count)| else 0)
  {
  }

  // Writes in any chunk sizes leave the content that one write of all the bytes would leave.
  lemma {:induction false} ChunkedWrites<N>(st: Files<N>, ops: seq<Op<N>>, fd: int, node: N)
    requires Inv(st) && OnFile(st, fd) && st.fds[fd].node == Some(node)
    requires AloneThroughout(st, ops, fd, node)
    requires forall op :: op in ops ==> !(op.Read? && op.fd == fd)
    ensures var z := Run(st, ops);
            && OnFile(z, fd) && z.fds[fd].node == Some(node)
            && z.content[node] == WriteAt(st.content[node], st.fds[fd].offset, Sent(ops, fd))
            && z.fds[fd].offset == st.fds[fd].offset + |Sent(ops, fd)|
  {
    var c, off := st.content[node], st.fds[fd].offset;
    if ops == [] {
      assert WriteAt(c, off, []) == c;
    } else {
      var init, op := ops[..|ops| - 1], ops[|ops| - 1];
      assert op in ops && forall o :: o in init ==> o in ops;
      ChunkedWrites(st, init, fd, node);
      RunInv(st, init);
      var y := Run(st, init);
      OneWrite(y, op, fd, node);
      var b := if op.Write? && op.fd == fd then op.buf else [];
      WritesJoin(c, off, Sent(init, fd), b);
      assert Sent(init, fd) + [] == Sent(init, fd);
    }
  }

  lemma OneWrite<N>(y: Files<N>, op: Op<N>, fd: int, node: N)
    requires Inv(y) && OnFile(y, fd) && y.fds[fd].node == Some(node)
    requires Alone(y, op, fd, node) && !(op.Read? && op.fd == fd)
    ensures var z := Step(y, op);
            && OnFile(z, fd) && z.fds[fd].node == Some(node)
            && var b := if op.Write? && op.fd == fd then op.buf else [];
               z.content[node] == (if op.Write? && op.fd == fd then WriteAt(y.content[node], y.fds[fd].offset, b)
                                   else y.content[node])
               && z.fds[fd].offset == y.fds[fd].offset + |b|
  {
  }
}
