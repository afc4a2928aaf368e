/** Page tables in raw physical memory: the tables as kernel/src/mm/vmm.c writes them, the
    four-level walk as the processor reads them (sections 4.5 and 4.6 of the Intel 64 and IA-32
    SDM, Volume 3A), and the invariant that ties the two to a tree of table frames. */
module Paging {
  import opened Bits
  import opened Pmm

  // Physical memory as 64-bit words, 512 to a frame; at most 2^52 frames.
  type Memory = m: seq<Word> | |m| <= 512 * TWO_52 witness []

  const PTE_PRESENT: nat := 1
  const PTE_WRITABLE: nat := 2
  const PTE_USER: nat := 4

  predicate Present(e: nat) {
    Bit(e, 0)
  }

  predicate Writable(e: nat) {
    Bit(e, 1)
  }

  predicate User(e: nat) {
    Bit(e, 2)
  }

  // e & ~0xFFF, as a frame number.
  function FrameOf(e: nat): nat {
    e / 4096
  }

  predicate InMem(m: seq<Word>, f: nat) {
    512 * (f + 1) <= |m|
  }

  function Entry(m: seq<Word>, f: nat, i: nat): Word
    requires InMem(m, f) && i < 512
  {
    m[512 * f + i]
  }

  function SetEntry(m: Memory, f: nat, i: nat, e: Word): (r: Memory)
    requires InMem(m, f) && i < 512
    ensures |r| == |m|
    ensures forall g: nat, j: nat :: InMem(m, g) && j < 512
              ==> Entry(r, g, j) == if g == f && j == i then e else Entry(m, g, j)
  {
    m[512 * f + i := e]
  }

  // memset(frame, 0, PAGE_SIZE)
  function ZeroFrame(m: Memory, f: nat): (r: Memory)
    requires InMem(m, f)
    ensures |r| == |m|
    ensures forall g: nat, j: nat :: InMem(m, g) && j < 512
              ==> Entry(r, g, j) == if g == f then 0 else Entry(m, g, j)
  {
    seq(|m|, k requires 0 <= k < |m| => if 512 * f <= k < 512 * f + 512 then 0 else m[k])
  }

  // Table flags of a new table: present, writable, and user when the page is a user page.
  function TableFlags(user: bool): nat {
    if user then 7 else 3
  }

  lemma FlagBits(user: bool)
    ensures Or(PTE_PRESENT, PTE_WRITABLE) == 3 && Or(3, PTE_USER) == 7
    ensures Present(TableFlags(user)) && Writable(TableFlags(user)) && (User(TableFlags(user)) <==> user)
    ensures !Present(PTE_USER) && !Writable(PTE_USER) && User(PTE_USER)
    ensures Present(PTE_PRESENT) && !Writable(PTE_PRESENT) && !User(PTE_PRESENT)
    ensures !Present(0)
  {
    assert Or(0, 1) == 1;
    assert Or(1, 2) == 3 by {
      assert Or(0, 1) == 1;
    }
    assert Or(1, 2) == 1 + 2 * Or(0, 1);
    assert Or(3, 4) == 1 + 2 * Or(1, 2);
    assert Bit(7, 2) == Bit(3, 1) == Bit(1, 0);
    assert Bit(3, 2) == Bit(1, 1) == Bit(0, 0);
    assert Bit(4, 2) == Bit(2, 1) == Bit(1, 0);
    assert Bit(1, 2) == Bit(0, 1);
    assert Bit(4, 1) == Bit(2, 0);
    assert Bit(1, 1) == Bit(0, 0);
  }

  // What a table entry is made of.
  lemma TableEntry(f: nat, user: bool)
    requires f < TWO_52
    ensures Or(f * 4096, TableFlags(user)) < TWO_64
    ensures var e := Or(f * 4096, TableFlags(user));
            FrameOf(e) == f && Present(e) && Writable(e) && (User(e) <==> user)
  {
    var flags := TableFlags(user);
    FlagBits(user);
    OrWord(f * 4096, flags);
    OrPage(f * 4096, flags);
    OrBit(f * 4096, flags, 0);
    OrBit(f * 4096, flags, 1);
    OrBit(f * 4096, flags, 2);
    PageBits(f);
  }

  lemma PageBits(f: nat)
    ensures !User(f * 4096) && !Writable(f * 4096) && !Present(f * 4096)
  {
    assert f * 4096 / 2 == f * 2048 && f * 2048 / 2 == f * 1024;
    assert Bit(f * 4096, 1) == Bit(f * 2048, 0);
    assert Bit(f * 4096, 2) == Bit(f * 2048, 1) == Bit(f * 1024, 0);
  }

  // entry |= PTE_USER
  lemma AddUser(e: Word)
    ensures Or(e, PTE_USER) < TWO_64
    ensures var r := Or(e, PTE_USER);
            FrameOf(r) == FrameOf(e) && (Present(r) <==> Present(e)) && (Writable(r) <==> Writable(e)) && User(r)
  {
    FlagBits(true);
    OrWord(e, PTE_USER);
    OrPage(e, PTE_USER);
    OrBit(e, PTE_USER, 0);
    OrBit(e, PTE_USER, 1);
    OrBit(e, PTE_USER, 2);
  }

  // phys | flags | PTE_PRESENT
  function LeafWord(phys: Word, flags: Word): (r: Word)
    ensures Present(r)
    ensures User(r) <==> User(phys) || User(flags)
    ensures Writable(r) <==> Writable(phys) || Writable(flags)
  {
    OrWord(phys, flags);
    OrWord(Or(phys, flags), PTE_PRESENT);
    OrBit(phys, flags, 1);
    OrBit(phys, flags, 2);
    OrBit(Or(phys, flags), PTE_PRESENT, 0);
    OrBit(Or(phys, flags), PTE_PRESENT, 1);
    OrBit(Or(phys, flags), PTE_PRESENT, 2);
    FlagBits(true);
    Or(Or(phys, flags), PTE_PRESENT)
  }

  // The rights are bits 0, 1 and 2 of an entry.
  lemma FlagsAre(e: nat)
    ensures (Present(e) <==> e % 2 == 1) && (Writable(e) <==> e / 2 % 2 == 1) && (User(e) <==> e / 4 % 2 == 1)
  {
    assert Bit(e, 1) == Bit(e / 2, 0);
    assert Bit(e, 2) == Bit(e / 2, 1) == Bit(e / 2 / 2, 0);
  }

  // Bit by bit the leaf is the address, the flags and the present bit together.
  lemma LeafBits(phys: Word, flags: Word, k: nat)
    ensures Bit(LeafWord(phys, flags), k) <==> Bit(phys, k) || Bit(flags, k) || k == 0
  {
    OrBit(phys, flags, k);
    OrBit(Or(phys, flags), PTE_PRESENT, k);
    Pow2Bit(0, k);
    assert Pow2(0) == PTE_PRESENT;
  }

  // A leaf made from a page address and flags below a page offset gives both back.
  lemma LeafDecodes(phys: Word, flags: Word)
    requires phys % 4096 == 0 && flags < 4096
    ensures FrameOf(LeafWord(phys, flags)) * 4096 == phys
    ensures LeafWord(phys, flags) % 4096 == Or(flags, PTE_PRESENT)
  {
    OrPage(phys, flags);
    var both := Or(phys, flags);
    OrLow12(both, PTE_PRESENT);
  }

  lemma OrLow12(x: nat, b: nat)
    requires b < 4096
    ensures Or(x, b) / 4096 == x / 4096 && Or(x, b) % 4096 == Or(x % 4096, b)
  {
    Pow2Values();
    OrLow(x / 4096, x % 4096, b, 12);
    Shl12(x / 4096);
    OrBound(x % 4096, b, 12);
    assert x == 4096 * (x / 4096) + x % 4096;
  }

  // The table indices of an address, top level first.
  type Path = seq<nat>

  ghost predicate IsPath(p: Path) {
    forall k :: 0 <= k < |p| ==> p[k] < 512
  }

  function Indices(virt: nat): (p: Path)
    ensures |p| == 4 && IsPath(p)
  {
    [virt / 0x80_0000_0000 % 512, virt / 0x4000_0000 % 512, virt / 0x20_0000 % 512, virt / 0x1000 % 512]
  }

  // Bits 12 to 47 of an address.
  function PageNumber(virt: nat): nat {
    virt / 0x1000 % 0x10_0000_0000
  }

  function PageFromIndices(p: Path): nat
    requires |p| == 4
  {
    ((p[0] * 512 + p[1]) * 512 + p[2]) * 512 + p[3]
  }

  lemma IndicesGivePage(virt: nat)
    ensures PageFromIndices(Indices(virt)) == PageNumber(virt)
  {
    var a := virt / 0x1000;
    assert virt / 0x20_0000 == a / 512;
    assert virt / 0x4000_0000 == a / 512 / 512;
    assert virt / 0x80_0000_0000 == a / 512 / 512 / 512;
    var b := a / 512;
    var c := b / 512;
    var d := c / 512;
    var e := d / 512;
    assert a == 512 * b + a % 512;
    assert b == 512 * c + b % 512;
    assert c == 512 * d + c % 512;
    assert d == 512 * e + d % 512;
    assert a == 0x10_0000_0000 * e + PageFromIndices(Indices(virt));
  }

  // Two addresses share their table indices exactly when they lie in the same page.
  lemma SamePage(v: nat, w: nat)
    ensures Indices(v) == Indices(w) <==> PageNumber(v) == PageNumber(w)
  {
    IndicesGivePage(v);
    IndicesGivePage(w);
    var p, q := Indices(v), Indices(w);
    if PageNumber(v) == PageNumber(w) {
      assert p[0] == q[0] && p[1] == q[1] && p[2] == q[2] && p[3] == q[3];
      assert p == [p[0], p[1], p[2], p[3]] && q == [q[0], q[1], q[2], q[3]];
    }
  }
}
