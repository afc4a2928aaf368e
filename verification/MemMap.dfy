/** The boot memory map and what pmm_init (kernel/src/mm/pmm.c) makes of it. */
module MemMap {
  import opened Bits
  import opened Bitmap

  // An entry of the Limine memory map; `usable` stands for its type.
  datatype Entry = Entry(base: nat, length: nat, usable: bool)

  // The boot protocol's promise: usable entries are page aligned and do not overlap.
  ghost predicate WellFormed(es: seq<Entry>) {
    && (forall i :: 0 <= i < |es| && es[i].usable ==> es[i].base % 4096 == 0 && es[i].length % 4096 == 0)
    && (forall i, j :: 0 <= i < j < |es| && es[i].usable && es[j].usable
          ==> es[i].base + es[i].length <= es[j].base || es[j].base + es[j].length <= es[i].base)
  }

  // The end of the highest usable entry.
  function Highest(es: seq<Entry>): nat {
    if es == [] then 0
    else
      var e := es[|es| - 1];
      var rest := Highest(es[..|es| - 1]);
      if e.usable && e.base + e.length > rest then e.base + e.length else rest
  }

  function TotalPages(es: seq<Entry>): nat {
    Highest(es) / 4096
  }

  function BitmapSize(es: seq<Entry>): nat {
    (TotalPages(es) + 7) / 8
  }

  // The pages that `n` bytes touch, which is also the number of steps of the loop that frees an
  // entry page by page.
  function Steps(n: nat): nat {
    (n + 4095) / 4096
  }

  // (n + PAGE_SIZE - 1) & ~(PAGE_SIZE - 1)
  function RoundUp(n: nat): nat {
    Steps(n) * 4096
  }

  predicate CanHost(e: Entry, size: nat) {
    e.usable && e.length >= size
  }

  // The first entry that can hold the bitmap.
  ghost predicate IsHost(es: seq<Entry>, size: nat, h: nat) {
    h < |es| && CanHost(es[h], size) && forall i :: 0 <= i < h ==> !CanHost(es[i], size)
  }

  // The host entry after the bitmap is cut off: the base moves by the rounded size, the length
  // shrinks by the size itself.
  function CutBitmap(e: Entry, size: nat): Entry
    requires size <= e.length
  {
    e.(base := e.base + RoundUp(size), length := e.length - size)
  }

  function Adjusted(es: seq<Entry>, size: nat, h: nat): seq<Entry>
    requires h < |es| && size <= es[h].length
  {
    es[h := CutBitmap(es[h], size)]
  }

  // The pages cleared for one entry, and for the entries es[..n].
  ghost function PagesOf(e: Entry): set<nat> {
    if e.usable then Span(e.base / 4096, e.base / 4096 + Steps(e.length)) else {}
  }

  ghost function Freed(es: seq<Entry>): set<nat> {
    if es == [] then {} else Freed(es[..|es| - 1]) + PagesOf(es[|es| - 1])
  }

  // The number of times the counter is bumped.
  function Bumps(e: Entry): nat {
    if e.usable then Steps(e.length) else 0
  }

  function FreedCount(es: seq<Entry>): nat {
    if es == [] then 0 else FreedCount(es[..|es| - 1]) + Bumps(es[|es| - 1])
  }

  // What pmm_init is meant to free: the usable pages without those that hold the bitmap.
  ghost function BitmapPages(es: seq<Entry>, h: nat): set<nat>
    requires h < |es|
  {
    Span(es[h].base / 4096, es[h].base / 4096 + Steps(BitmapSize(es)))
  }

  ghost function Intended(es: seq<Entry>, h: nat): set<nat>
    requires h < |es|
  {
    Freed(es) - BitmapPages(es, h)
  }

  lemma {:induction false} FreedIff(es: seq<Entry>, p: nat)
    ensures p in Freed(es) <==> exists i :: 0 <= i < |es| && p in PagesOf(es[i])
  {
    hide PagesOf;
    if es != [] {
      var last := |es| - 1;
      var init := es[..last];
      FreedIff(init, p);
      if p in Freed(init) {
        var i :| 0 <= i < |init| && p in PagesOf(init[i]);
        assert es[i] == init[i];
      } else {
        forall i | 0 <= i < last
          ensures p !in PagesOf(es[i])
        {
          assert es[i] == init[i];
        }
      }
    }
  }

  // Well-formed maps free no page twice, so the counter is exact before the bitmap is cut off.
  lemma {:induction false} FreedSize(es: seq<Entry>)
    requires WellFormed(es)
    ensures |Freed(es)| == FreedCount(es)
  {
    if es != [] {
      var last := |es| - 1;
      FreedSize(es[..last]);
      LastApart(es);
      PagesCount(es[last]);
      hide PagesOf, Bumps, WellFormed;
    }
  }

  lemma LastApart(es: seq<Entry>)
    requires WellFormed(es) && es != []
    ensures Freed(es[..|es| - 1]) !! PagesOf(es[|es| - 1])
  {
    hide PagesOf, Freed;
    var last := |es| - 1;
    forall p | p in Freed(es[..last])
      ensures p !in PagesOf(es[last])
    {
      FreedIff(es[..last], p);
      var i :| 0 <= i < last && p in PagesOf(es[..last][i]);
      PagesApart(es[i], es[last], p);
    }
  }

  lemma PagesCount(e: Entry)
    ensures |PagesOf(e)| == Bumps(e)
  {
  }

  lemma PagesApart(a: Entry, b: Entry, p: nat)
    requires a.usable && b.usable ==>
               a.base % 4096 == 0 && a.length % 4096 == 0 && b.base % 4096 == 0 && b.length % 4096 == 0
    requires a.usable && b.usable ==> a.base + a.length <= b.base || b.base + b.length <= a.base
    ensures !(p in PagesOf(a) && p in PagesOf(b))
  {
  }

  // Replacing one entry changes the number of bumps by the difference of that entry alone.
  lemma {:induction false} FreedCountUpdate(es: seq<Entry>, h: nat, e: Entry)
    requires h < |es|
    ensures FreedCount(es[h := e]) + Bumps(es[h]) == FreedCount(es) + Bumps(e)
  {
    var last := |es| - 1;
    var fs := es[h := e];
    if h == last {
      assert fs[..last] == es[..last];
    } else {
      assert fs[..last] == es[..last][h := e];
      FreedCountUpdate(es[..last], h, e);
    }
  }

  lemma {:induction false} HighestBounds(es: seq<Entry>, i: nat)
    requires i < |es| && es[i].usable
    ensures es[i].base + es[i].length <= Highest(es)
  {
    var last := |es| - 1;
    if i < last {
      assert es[..last][i] == es[i];
      HighestBounds(es[..last], i);
    }
  }

  // The highest address is the end of some usable entry, unless there is none above 0, and no
  // usable entry ends above it.
  lemma {:induction false} HighestIs(es: seq<Entry>)
    ensures forall i :: 0 <= i < |es| && es[i].usable ==> es[i].base + es[i].length <= Highest(es)
    ensures Highest(es) == 0 || exists i :: 0 <= i < |es| && es[i].usable && es[i].base + es[i].length == Highest(es)
  {
    forall i | 0 <= i < |es| && es[i].usable
      ensures es[i].base + es[i].length <= Highest(es)
    {
      HighestBounds(es, i);
    }
    if es != [] {
      var rest := es[..|es| - 1];
      HighestIs(rest);
      if i :| 0 <= i < |rest| && rest[i].usable && rest[i].base + rest[i].length == Highest(rest) {
        assert es[i] == rest[i];
      }
    }
  }

  // One bit for each page, in as few bytes as possible.
  lemma BitmapSizeIs(es: seq<Entry>)
    ensures TotalPages(es) <= 8 * BitmapSize(es) < TotalPages(es) + 8
  {
  }

  // The pages freed for a map before the bitmap is cut off are those that start in a usable entry.
  lemma FreedMeans(es: seq<Entry>, p: nat)
    requires WellFormed(es)
    ensures p in Freed(es)
            <==> exists i :: 0 <= i < |es| && es[i].usable && es[i].base <= 4096 * p < es[i].base + es[i].length
  {
    FreedIff(es, p);
    forall i | 0 <= i < |es|
      ensures p in PagesOf(es[i]) <==> es[i].usable && es[i].base <= 4096 * p < es[i].base + es[i].length
    {
      PageMeans(es[i], p);
    }
    hide Freed, PagesOf, WellFormed;
  }

  lemma PageMeans(e: Entry, p: nat)
    requires e.usable ==> e.base % 4096 == 0 && e.length % 4096 == 0
    ensures p in PagesOf(e) <==> e.usable && e.base <= 4096 * p < e.base + e.length
  {
  }

  lemma CutArithmetic(base: nat, length: nat, size: nat)
    requires size <= length && base % 4096 == 0 && length % 4096 == 0
    ensures RoundUp(size) <= length
    ensures (base + RoundUp(size)) / 4096 == base / 4096 + Steps(size)
    ensures (base + length) / 4096 == base / 4096 + length / 4096
    ensures Steps(length) == length / 4096
    ensures Steps(length - size) + Steps(size) == length / 4096 + Spare(size)
    ensures Steps(size) <= length / 4096
  {
    var b, l, s, r := base / 4096, length / 4096, size / 4096, size % 4096;
    assert base == 4096 * b && length == 4096 * l && size == 4096 * s + r;
    if r == 0 {
      assert Steps(size) == s;
    } else {
      assert Steps(size) == s + 1;
    }
  }

  // 1 when a bitmap of `size` bytes ends inside a page.
  function Spare(size: nat): nat {
    if size % 4096 == 0 then 0 else 1
  }

  // The page after an entry, when a bitmap of `size` bytes ends inside a page of it.
  ghost function Spill(e: Entry, size: nat): set<nat> {
    var next := e.base / 4096 + e.length / 4096;
    Span(next, next + Spare(size))
  }

  lemma BumpsOfCut(e: Entry, size: nat)
    requires e.usable && size <= e.length && e.base % 4096 == 0 && e.length % 4096 == 0
    ensures Bumps(CutBitmap(e, size)) + Steps(size) == Bumps(e) + Spare(size)
  {
    CutArithmetic(e.base, e.length, size);
    hide RoundUp, Steps;
  }

  // The pages of the host after the cut, in terms of its pages before.
  lemma CutPages(e: Entry, size: nat, p: nat)
    requires e.usable && size <= e.length && e.base % 4096 == 0 && e.length % 4096 == 0
    ensures var cut := Span(e.base / 4096, e.base / 4096 + Steps(size));
            && (p in cut ==> p in PagesOf(e))
            && (p in PagesOf(CutBitmap(e, size)) <==> (p in PagesOf(e) && p !in cut) || p in Spill(e, size))
  {
    CutArithmetic(e.base, e.length, size);
    hide RoundUp, Steps;
    var c := CutBitmap(e, size);
    assert c.base / 4096 == e.base / 4096 + Steps(size);
    assert c.base / 4096 + Steps(c.length) == e.base / 4096 + e.length / 4096 + Spare(size);
  }

  ghost predicate InOthers(es: seq<Entry>, h: nat, p: nat) {
    exists i :: 0 <= i < |es| && i != h && p in PagesOf(es[i])
  }

  lemma FreedUpdate(es: seq<Entry>, h: nat, e: Entry, p: nat)
    requires h < |es|
    ensures p in Freed(es[h := e]) <==> p in PagesOf(e) || InOthers(es, h, p)
  {
    hide PagesOf, Freed;
    var fs := es[h := e];
    FreedIff(fs, p);
    assert fs[h] == e;
    assert forall i :: 0 <= i < |es| && i != h ==> fs[i] == es[i];
    if InOthers(es, h, p) {
      var i :| 0 <= i < |es| && i != h && p in PagesOf(es[i]);
      assert p in PagesOf(fs[i]);
    }
  }

  // Exactly what the code frees: the intended pages and, unless the bitmap is a whole number of
  // pages, also the page that follows the region the bitmap was placed in.
  lemma InitFrees(es: seq<Entry>, h: nat)
    requires WellFormed(es) && IsHost(es, BitmapSize(es), h)
    ensures Freed(Adjusted(es, BitmapSize(es), h))
         == Intended(es, h) + Spill(es[h], BitmapSize(es))
  {
    var size := BitmapSize(es);
    hide BitmapSize, PagesOf, Freed, CutBitmap, BitmapPages, Spill;
    forall p: nat
      ensures p in Freed(Adjusted(es, size, h)) <==> p in Intended(es, h) + Spill(es[h], size)
    {
      InitFreesAt(es, h, p);
    }
  }

  lemma InitFreesAt(es: seq<Entry>, h: nat, p: nat)
    requires WellFormed(es) && IsHost(es, BitmapSize(es), h)
    ensures var size := BitmapSize(es);
            p in Freed(es[h := CutBitmap(es[h], size)])
            <==> (p in Freed(es) && p !in BitmapPages(es, h)) || p in Spill(es[h], size)
  {
    var size := BitmapSize(es);
    CutPages(es[h], size, p);
    hide BitmapSize, RoundUp, PagesOf, Freed, CutBitmap, InOthers, Spill;
    FreedUpdate(es, h, CutBitmap(es[h], size), p);
    FreedUpdate(es, h, es[h], p);
    assert es[h := es[h]] == es;
    if p in BitmapPages(es, h) {
      OthersKeep(es, h, p);
    }
  }

  // The same in bytes: the pages that start in a usable entry and not in the bitmap and, unless the
  // bitmap is a whole number of pages, the page that starts where the host entry ends.
  lemma InitFreesMeans(es: seq<Entry>, h: nat, p: nat)
    requires WellFormed(es) && IsHost(es, BitmapSize(es), h)
    ensures var size := BitmapSize(es);
            p in Freed(Adjusted(es, size, h))
            <==> || ((exists i :: 0 <= i < |es| && es[i].usable && es[i].base <= 4096 * p < es[i].base + es[i].length)
                     && !(es[h].base <= 4096 * p < es[h].base + size))
                 || (size % 4096 != 0 && 4096 * p == es[h].base + es[h].length)
  {
    InitFreesAt(es, h, p);
    FreedMeans(es, p);
    BitmapMeans(es[h], BitmapSize(es), p);
    hide Freed, BitmapSize, CutBitmap, Spill, Steps;
  }

  lemma BitmapMeans(e: Entry, size: nat, p: nat)
    requires e.base % 4096 == 0 && e.length % 4096 == 0
    ensures p in Span(e.base / 4096, e.base / 4096 + Steps(size)) <==> e.base <= 4096 * p < e.base + size
    ensures p in Spill(e, size) <==> size % 4096 != 0 && 4096 * p == e.base + e.length
  {
  }

  // A page of the bitmap belongs to no entry but the host.
  lemma OthersKeep(es: seq<Entry>, h: nat, p: nat)
    requires WellFormed(es) && IsHost(es, BitmapSize(es), h)
    requires p in BitmapPages(es, h)
    ensures !InOthers(es, h, p)
  {
    CutPages(es[h], BitmapSize(es), p);
    forall i | 0 <= i < |es| && i != h
      ensures p !in PagesOf(es[i])
    {
      PagesApart(es[i], es[h], p);
    }
  }

  // Exactly what the counter ends at: one too many unless the bitmap is a whole number of pages.
  lemma InitCounts(es: seq<Entry>, h: nat)
    requires WellFormed(es) && IsHost(es, BitmapSize(es), h)
    ensures FreedCount(Adjusted(es, BitmapSize(es), h))
         == |Intended(es, h)| + (if BitmapSize(es) % 4096 == 0 then 0 else 1)
  {
    var size := BitmapSize(es);
    BumpsOfCut(es[h], size);
    hide BitmapSize, RoundUp, PagesOf, Freed, CutBitmap, Bumps;
    FreedCountUpdate(es, h, CutBitmap(es[h], size));
    FreedSize(es);
    BitmapInside(es, h);
    var b := BitmapPages(es, h);
    assert |Freed(es) - b| == |Freed(es)| - |b|;
  }

  lemma BitmapInside(es: seq<Entry>, h: nat)
    requires WellFormed(es) && IsHost(es, BitmapSize(es), h)
    ensures BitmapPages(es, h) <= Freed(es)
    ensures |BitmapPages(es, h)| == Steps(BitmapSize(es))
  {
    hide PagesOf, Freed, BitmapSize, RoundUp;
    forall p | p in BitmapPages(es, h)
      ensures p in Freed(es)
    {
      CutPages(es[h], BitmapSize(es), p);
      assert p in PagesOf(es[h]);
      FreedIff(es, p);
    }
  }

  // pmm_init does what it is meant to, for the set and for the counter, exactly when the bitmap
  // is a whole number of pages.
  lemma InitMeetsIntent(es: seq<Entry>, h: nat)
    requires WellFormed(es) && IsHost(es, BitmapSize(es), h)
    ensures var fs := Adjusted(es, BitmapSize(es), h);
            (Freed(fs) == Intended(es, h) && FreedCount(fs) == |Intended(es, h)|)
            <==> BitmapSize(es) % 4096 == 0
  {
    InitFrees(es, h);
    InitCounts(es, h);
  }

  // A concrete machine that misses it: 16 MB of usable memory above the first page. The page
  // after the end of memory is counted as free.
  lemma InitMissesIntent()
    ensures var es := [Entry(4096, 0xFFF000, true)];
            && WellFormed(es) && IsHost(es, BitmapSize(es), 0)
            && TotalPages(es) == 4096
            && 4096 in Freed(Adjusted(es, BitmapSize(es), 0))
            && FreedCount(Adjusted(es, BitmapSize(es), 0)) == |Intended(es, 0)| + 1
  {
    var es := [Entry(4096, 0xFFF000, true)];
    assert es[..0] == [];
    assert Highest(es) == 0x1000000;
    assert BitmapSize(es) == 512;
    InitFrees(es, 0);
    InitCounts(es, 0);
  }

  function ReservedInBetween(): seq<Entry> {
    [Entry(4096, 0xFFF000, true), Entry(0x1000000, 4096, false), Entry(0x1001000, 4096, true)]
  }

  // A machine on which the page freed by mistake is reserved memory that the allocator may hand
  // out: it lies below the page count and in no usable entry.
  lemma InitFreesReserved()
    ensures var es := ReservedInBetween();
            && WellFormed(es) && IsHost(es, BitmapSize(es), 0)
            && 4096 < TotalPages(es)
            && (forall i :: 0 <= i < |es| && es[i].usable ==> 4096 !in PagesOf(es[i]))
            && 4096 in Freed(Adjusted(es, BitmapSize(es), 0))
  {
    var es := ReservedInBetween();
    ReservedSize();
    hide Highest, Freed, BitmapSize, Intended;
    InitFrees(es, 0);
  }

  lemma ReservedSize()
    ensures Highest(ReservedInBetween()) == 0x1002000 && BitmapSize(ReservedInBetween()) == 513
  {
    var es := ReservedInBetween();
    var two, one := es[..2], es[..1];
    assert es[..|es| - 1] == two && two[..|two| - 1] == one && one[..|one| - 1] == [];
    assert Highest(one) == 0x1000000;
    assert Highest(two) == 0x1000000;
  }

  ghost predicate FitsBits(e: Entry, bits: nat) {
    e.usable ==> e.base / 4096 + Steps(e.length) <= bits
  }

  // Every page cleared lies below the end of the bytes reserved for the bitmap.
  lemma FreedInBitmap(es: seq<Entry>, h: nat)
    requires WellFormed(es) && IsHost(es, BitmapSize(es), h)
    ensures forall i :: 0 <= i < |es| ==> FitsBits(Adjusted(es, BitmapSize(es), h)[i], 8 * RoundUp(BitmapSize(es)))
  {
    var size, total := BitmapSize(es), TotalPages(es);
    BitmapCovers(total);
    forall i | 0 <= i < |es|
      ensures FitsBits(Adjusted(es, size, h)[i], 8 * RoundUp(size))
    {
      if es[i].usable {
        HighestBounds(es, i);
        EntryFits(es[i], total, size, 8 * RoundUp(size), i == h);
      }
    }
  }

  lemma EntryFits(e: Entry, total: nat, size: nat, bits: nat, host: bool)
    requires e.usable && e.base % 4096 == 0 && e.length % 4096 == 0 && (e.base + e.length) / 4096 <= total
    requires total <= bits && (size % 4096 != 0 ==> total < bits)
    requires host ==> size <= e.length
    ensures FitsBits(if host then CutBitmap(e, size) else e, bits)
  {
    if host {
      CutArithmetic(e.base, e.length, size);
      hide RoundUp, Steps;
    }
  }

  lemma BitmapCovers(total: nat)
    ensures total <= 8 * ((total + 7) / 8) <= 8 * RoundUp((total + 7) / 8)
    ensures (total + 7) / 8 % 4096 != 0 ==> total < 8 * RoundUp((total + 7) / 8)
  {
    var size := (total + 7) / 8;
    var q := (size + 4095) / 4096;
    assert RoundUp(size) == 4096 * q;
  }

  // The bitmap after the freeing loop over es.
  function InitBits(bm: seq<Byte>, es: seq<Entry>): (r: seq<Byte>)
    requires forall i :: 0 <= i < |es| ==> FitsBits(es[i], 8 * |bm|)
    ensures |r| == |bm|
  {
    if es == [] then bm
    else
      var e := es[|es| - 1];
      assert FitsBits(e, 8 * |bm|);
      var rest := InitBits(bm, es[..|es| - 1]);
      if e.usable then ClearRange(rest, e.base / 4096, e.base / 4096 + Steps(e.length)) else rest
  }

  lemma {:induction false} InitBitsTest(bm: seq<Byte>, es: seq<Entry>, p: nat)
    requires forall i :: 0 <= i < |es| ==> FitsBits(es[i], 8 * |bm|)
    requires p < 8 * |bm|
    ensures TestBit(InitBits(bm, es), p) <==> TestBit(bm, p) && p !in Freed(es)
  {
    if es != [] {
      InitBitsTest(bm, es[..|es| - 1], p);
      InitBitsStep(bm, es, p);
    }
  }

  lemma InitBitsStep(bm: seq<Byte>, es: seq<Entry>, p: nat)
    requires forall i :: 0 <= i < |es| ==> FitsBits(es[i], 8 * |bm|)
    requires p < 8 * |bm| && es != []
    ensures var init, last := es[..|es| - 1], es[|es| - 1];
            && (TestBit(InitBits(bm, es), p) <==> TestBit(InitBits(bm, init), p) && p !in PagesOf(last))
            && (p in Freed(es) <==> p in Freed(init) || p in PagesOf(last))
  {
    var init, e := es[..|es| - 1], es[|es| - 1];
    assert FitsBits(e, 8 * |bm|);
    PagesOfMember(e, 8 * |bm|, p);
    if e.usable {
      TestClearRange(InitBits(bm, init), e.base / 4096, e.base / 4096 + Steps(e.length), p);
    }
    hide TestBit, Steps, FitsBits, ClearRange, PagesOf;
  }

  lemma PagesOfMember(e: Entry, bits: nat, p: nat)
    requires FitsBits(e, bits)
    ensures p in PagesOf(e) <==> e.usable && e.base / 4096 <= p < e.base / 4096 + Steps(e.length)
    ensures e.usable ==> e.base / 4096 + Steps(e.length) <= bits
  {
  }

  // From an all-ones bitmap, the free set is what the loop cleared below the page count.
  lemma InitFree(bm: seq<Byte>, es: seq<Entry>, total: nat)
    requires forall i :: 0 <= i < |es| ==> FitsBits(es[i], 8 * |bm|)
    requires total <= 8 * |bm| && forall p: nat :: p < total ==> TestBit(bm, p)
    ensures forall p: nat :: p in FreeIn(InitBits(bm, es), total) <==> p < total && p in Freed(es)
  {
    forall p: nat | p < 8 * |bm| {
      InitBitsTest(bm, es, p);
    }
  }
}
