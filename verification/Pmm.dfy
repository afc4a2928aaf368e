/** The physical page allocator of kernel/src/mm/pmm.c. */
module Pmm {
  import opened Bits
  import opened Bitmap
  import opened MemMap
  import opened Wrappers

  // Byte addresses and page numbers; PAGE_SIZE is 4096.
  function PageOf(addr: nat): nat {
    addr / 4096
  }

  function AddrOf(page: nat): nat {
    page * 4096
  }

  // Pages start .. start + count - 1 are all free.
  ghost predicate IsRun(free: set<nat>, start: nat, count: nat) {
    forall i: nat :: start <= i < start + count ==> i in free
  }

  // The lowest start at or above `from` of a free run that ends below `total`.
  ghost function RunFrom(free: set<nat>, total: nat, count: nat, from: nat): Option<nat>
    decreases total - from
  {
    if from + count > total || from >= total then None
    else if IsRun(free, from, count) then Some(from)
    else RunFrom(free, total, count, from + 1)
  }

  // What pmm_alloc_pages promises: the lowest run of `count` pages. A request for no pages fails.
  ghost function LowestRun(free: set<nat>, total: nat, count: nat): Option<nat> {
    if count == 0 then None else RunFrom(free, total, count, 0)
  }

  lemma {:induction false} RunFromIsLowest(free: set<nat>, total: nat, count: nat, from: nat)
    requires count > 0
    ensures var r := RunFrom(free, total, count, from);
            && (r.Some? ==> from <= r.value && r.value + count <= total && IsRun(free, r.value, count))
            && (forall s: nat :: from <= s && s + count <= total && IsRun(free, s, count)
                                 ==> r.Some? && r.value <= s)
    decreases total - from
  {
    if from + count <= total && from < total && !IsRun(free, from, count) {
      RunFromIsLowest(free, total, count, from + 1);
    }
  }

  // A run found is free, in range, and no lower run exists; none found means none exists.
  lemma LowestRunIsLowest(free: set<nat>, total: nat, count: nat)
    requires count > 0
    ensures var r := LowestRun(free, total, count);
            && (r.None? <==> !exists s: nat :: s + count <= total && IsRun(free, s, count))
            && (r.Some? ==> && r.value + count <= total
                            && IsRun(free, r.value, count)
                            && forall s: nat :: s + count <= total && IsRun(free, s, count) ==> r.value <= s)
  {
    RunFromIsLowest(free, total, count, 0);
  }

  ghost predicate NoRunBelow(free: set<nat>, count: nat, lo: nat) {
    forall s: nat :: s < lo ==> !IsRun(free, s, count)
  }

  lemma NoneBelowZero(free: set<nat>, count: nat)
    ensures NoRunBelow(free, count, 0)
  {
  }

  lemma LowestRunWitness(free: set<nat>, total: nat, count: nat, start: nat)
    requires count > 0 && start + count <= total && IsRun(free, start, count)
    requires NoRunBelow(free, count, start)
    ensures LowestRun(free, total, count) == Some(start)
  {
    LowestRunIsLowest(free, total, count);
  }

  lemma NoRunLeft(free: set<nat>, total: nat, count: nat, lo: nat)
    requires count > 0 ==> NoRunBelow(free, count, lo) && total < lo + count
    ensures LowestRun(free, total, count) == None
  {
    if count > 0 {
      LowestRunIsLowest(free, total, count);
    }
  }

  // A page and a run of one page are found at the same place.
  lemma SingleRun(free: set<nat>, total: nat, start: nat)
    requires start < total && start in free
    requires forall s: nat :: s < start ==> s !in free
    ensures LowestRun(free, total, 1) == Some(start)
  {
    forall s: nat | s < start
      ensures !IsRun(free, s, 1)
    {
      assert s !in free;
    }
    LowestRunWitness(free, total, 1, start);
  }

  class PageAllocator {
    var bitmap: array<Byte>   // s_bitmap
    var totalPages: nat       // s_total_pages
    var freePages: nat        // s_free_pages

    ghost predicate Shaped()
      reads this, bitmap
    {
      totalPages <= 8 * bitmap.Length
    }

    ghost function Free(): set<nat>
      reads this, bitmap
      requires Shaped()
    {
      FreeIn(bitmap[..], totalPages)
    }

    // The counter is the number of free pages.
    ghost predicate Valid()
      reads this, bitmap
    {
      Shaped() && freePages == |Free()|
    }

    // pmm_init. The bitmap occupies whole pages of its host entry; only its own bytes are set.
    constructor Init(entries: array<Entry>)
      requires WellFormed(entries[..])
      requires (exists i :: 0 <= i < entries.Length && entries[i].usable)
               ==> exists h :: IsHost(entries[..], BitmapSize(entries[..]), h)
      modifies entries
      ensures totalPages == TotalPages(old(entries[..])) && Shaped() && fresh(bitmap)
      ensures forall e :: e in old(entries[..]) && e.usable ==> (e.base + e.length) / 4096 <= totalPages
      ensures totalPages == 0
              || exists e :: e in old(entries[..]) && e.usable && (e.base + e.length) / 4096 == totalPages
      ensures freePages == FreedCount(entries[..])
      ensures forall p: nat :: p in Free() <==> p < totalPages && p in Freed(entries[..])
      ensures forall h :: IsHost(old(entries[..]), BitmapSize(old(entries[..])), h)
                          ==> entries[..] == Adjusted(old(entries[..]), BitmapSize(old(entries[..])), h)
      ensures (forall h :: !IsHost(old(entries[..]), BitmapSize(old(entries[..])), h))
              ==> entries[..] == old(entries[..]) && totalPages == 0
    {
      HighestEnds(entries[..]);
      var highest := FindHighest(entries);
      var total := highest / 4096;
      var bits := PlaceBitmap(entries, total);
      hide BitmapSize, RoundUp, Steps, CutBitmap, TestBit, FreeIn, FitsBits, IsHost;
      bitmap, totalPages, freePages := bits, total, 0;
      new;
      ghost var ones := bits[..];
      FreeRegions(entries);
      InitFree(ones, entries[..], total);
    }

    // The loop that frees the usable regions.
    method FreeRegions(entries: array<Entry>)
      requires entries as object != bitmap
      requires forall i :: 0 <= i < entries.Length ==> FitsBits(entries[i], 8 * bitmap.Length)
      modifies this`freePages, bitmap
      ensures forall i :: 0 <= i < entries.Length ==> FitsBits(entries[i], 8 * bitmap.Length)
      ensures bitmap[..] == InitBits(old(bitmap[..]), entries[..])
      ensures freePages == FreedCount(entries[..])
    {
      freePages := 0;
      var i := 0;
      while i < entries.Length
        invariant i <= entries.Length
        invariant forall j :: 0 <= j < entries.Length ==> FitsBits(entries[..][j], 8 * bitmap.Length)
        invariant bitmap[..] == InitBits(old(bitmap[..]), entries[..i])
        invariant freePages == FreedCount(entries[..i])
      {
        assert entries[..i + 1][..i] == entries[..i];
        if entries[i].usable {
          FreeRegion(entries[i]);
        }
        i := i + 1;
      }
      assert entries[..i] == entries[..];
    }

    method FreeRegion(e: Entry)
      requires e.usable && FitsBits(e, 8 * bitmap.Length)
      modifies this`freePages, bitmap
      ensures bitmap[..] == ClearRange(old(bitmap[..]), e.base / 4096, e.base / 4096 + Steps(e.length))
      ensures freePages == old(freePages) + Steps(e.length)
    {
      hide Steps;
      StepPage(e.base, e.length, 0);
      ghost var k := 0;
      var addr := e.base;
      while addr < e.base + e.length
        invariant addr == e.base + 4096 * k && k <= Steps(e.length)
        invariant bitmap[..] == ClearRange(old(bitmap[..]), e.base / 4096, e.base / 4096 + k)
        invariant freePages == old(freePages) + k
      {
        StepPage(e.base, e.length, k);
        Clear(addr / 4096);
        freePages := freePages + 1;
        addr, k := addr + 4096, k + 1;
      }
      StepPage(e.base, e.length, k);
    }

    method Set(bit: nat)
      requires bit < 8 * bitmap.Length
      modifies bitmap
      ensures bitmap[..] == SetBit(old(bitmap[..]), bit)
    {
      ByteOps(bitmap[bit / 8], bit % 8);
      bitmap[bit / 8] := Or(bitmap[bit / 8], Pow2(bit % 8));
    }

    method Clear(bit: nat)
      requires bit < 8 * bitmap.Length
      modifies bitmap
      ensures bitmap[..] == ClearBit(old(bitmap[..]), bit)
    {
      ByteOps(bitmap[bit / 8], bit % 8);
      bitmap[bit / 8] := And(bitmap[bit / 8], 255 - Pow2(bit % 8));
    }

    method Test(bit: nat) returns (r: bool)
      requires bit < 8 * bitmap.Length
      ensures r == TestBit(bitmap[..], bit)
      ensures Shaped() && bit < totalPages ==> r == (bit !in Free())
    {
      r := Bit(bitmap[bit / 8], bit % 8);
    }

    // Returns the byte address of the lowest free page, 0 when there is none.
    method AllocPage() returns (addr: nat)
      requires Valid()
      modifies this`freePages, bitmap
      ensures Valid()
      ensures match LowestRun(old(Free()), totalPages, 1)
              case None => addr == 0 && old(Free()) == {}
                           && bitmap[..] == old(bitmap[..]) && freePages == old(freePages)
              case Some(i) => addr == AddrOf(i) && i < totalPages
                              && bitmap[..] == SetBit(old(bitmap[..]), i)
                              && freePages == old(freePages) - 1
                              && i in old(Free()) && Free() == old(Free()) - {i}
    {
      hide TestBit, FreeIn, LowestRun, IsRun, Span;
      ghost var was := Free();
      var i := 0;
      while i < totalPages
        invariant i <= totalPages
        invariant bitmap[..] == old(bitmap[..]) && freePages == old(freePages)
        invariant forall j: nat :: j < i ==> j !in was
      {
        var used := Test(i);
        if !used {
          SingleRun(was, totalPages, i);
          TakenPage(bitmap[..], totalPages, i);
          Set(i);
          freePages := freePages - 1;
          return AddrOf(i);
        }
        i := i + 1;
      }
      NoFreePage(bitmap[..], totalPages);
      NothingFree(totalPages);
      return 0;
    }

    // Returns the byte address of the lowest run of `count` free pages, 0 when there is none.
    method AllocPages(count: nat) returns (addr: nat)
      requires Valid()
      modifies this`freePages, bitmap
      ensures Valid()
      ensures match LowestRun(old(Free()), totalPages, count)
              case None => addr == 0 && bitmap[..] == old(bitmap[..]) && freePages == old(freePages)
              case Some(s) => addr == AddrOf(s) && s + count <= totalPages
                              && bitmap[..] == SetRange(old(bitmap[..]), s, s + count)
                              && freePages == old(freePages) - count
                              && Free() == old(Free()) - Span(s, s + count)
    {
      hide LowestRun, IsRun, FreeIn, Span;
      var found, start := FindRun(count);
      if found {
        addr := TakeRun(start, count);
      } else {
        addr := 0;
      }
    }

    // The scan of pmm_alloc_pages, up to the page that completes a run.
    method FindRun(count: nat) returns (found: bool, start: nat)
      requires Shaped()
      ensures found <==> LowestRun(Free(), totalPages, count).Some?
      ensures found ==> && LowestRun(Free(), totalPages, count) == Some(start)
                        && start + count <= totalPages && IsRun(Free(), start, count)
    {
      hide TestBit, FreeIn, NoRunBelow, LowestRun, RunFrom;
      ghost var free := Free();
      NoneBelowZero(free, count);
      var consecutive := 0;
      found, start := false, 0;
      var i := 0;
      while i < totalPages
        invariant i <= totalPages && consecutive <= i
        invariant consecutive > 0 ==> start == i - consecutive
        invariant IsRun(free, i - consecutive, consecutive)
        invariant consecutive < i ==> i - consecutive - 1 !in free
        invariant count > 0 ==> consecutive < count
        invariant count > 0 ==> NoRunBelow(free, count, i - consecutive)
      {
        var used := Test(i);
        if !used {
          if consecutive == 0 {
            start := i;
          }
          consecutive := consecutive + 1;
          if consecutive == count {
            LowestRunWitness(free, totalPages, count, start);
            return true, start;
          }
        } else {
          if count > 0 {
            UsedPageEndsRuns(free, count, i - consecutive, i);
          }
          consecutive := 0;
        }
        i := i + 1;
      }
      NoRunLeft(free, totalPages, count, totalPages - consecutive);
      return false, start;
    }

    // A run found: its pages are marked used and counted.
    method TakeRun(start: nat, count: nat) returns (addr: nat)
      requires Valid() && start + count <= totalPages && IsRun(Free(), start, count)
      modifies this`freePages, bitmap
      ensures Valid()
      ensures addr == AddrOf(start)
      ensures bitmap[..] == SetRange(old(bitmap[..]), start, start + count)
      ensures freePages == old(freePages) - count
      ensures Free() == old(Free()) - Span(start, start + count)
    {
      hide IsRun, FreeIn, Span;
      TakenRun(bitmap[..], totalPages, start, count);
      SetAll(start, start + count);
      freePages := freePages - count;
      addr := AddrOf(start);
    }

    // The inner loop of pmm_alloc_pages.
    method SetAll(lo: nat, hi: nat)
      requires lo <= hi <= 8 * bitmap.Length
      modifies bitmap
      ensures bitmap[..] == SetRange(old(bitmap[..]), lo, hi)
    {
      var j := lo;
      while j < hi
        invariant lo <= j <= hi
        invariant bitmap[..] == SetRange(old(bitmap[..]), lo, j)
      {
        Set(j);
        j := j + 1;
      }
    }

    // Frees one page; freeing a free page or a page past the end does nothing.
    method FreePage(addr: nat)
      requires Valid()
      modifies this`freePages, bitmap
      ensures Valid()
      ensures var page := PageOf(addr);
              if page < totalPages
              then bitmap[..] == ClearBit(old(bitmap[..]), page) && Free() == old(Free()) + {page}
              else bitmap[..] == old(bitmap[..]) && Free() == old(Free())
    {
      var page := PageOf(addr);
      if page < totalPages {
        ClearBitFree(bitmap[..], totalPages, page);
        ClearBitCount(bitmap[..], totalPages, page);
        FreeBit(page);
      }
    }

    // The guarded step of pmm_free_page and pmm_free_pages.
    method FreeBit(bit: nat)
      requires bit < 8 * bitmap.Length
      modifies this`freePages, bitmap
      ensures bitmap[..] == ClearBit(old(bitmap[..]), bit)
      ensures freePages == old(freePages) + (if TestBit(old(bitmap[..]), bit) then 1 else 0)
    {
      ClearFreeBit(bitmap[..], bit);
      var used := Test(bit);
      if used {
        Clear(bit);
        freePages := freePages + 1;
      }
    }

    // Frees `count` pages from `addr`; there is no check against the number of pages, so the
    // counter also counts bits past it.
    method FreePages(addr: nat, count: nat)
      requires Shaped()
      requires PageOf(addr) + count <= 8 * bitmap.Length
      modifies this`freePages, bitmap
      ensures Shaped()
      ensures bitmap[..] == ClearRange(old(bitmap[..]), PageOf(addr), PageOf(addr) + count)
      ensures freePages == old(freePages)
                           + CountUsed(old(bitmap[..]), PageOf(addr), PageOf(addr) + count)
      ensures Free() == old(Free()) + Span(PageOf(addr), Min(PageOf(addr) + count, totalPages))
    {
      hide PageOf, TestBit, SetBit, ClearBit;
      var start := PageOf(addr);
      var i := 0;
      while i < count
        invariant i <= count
        invariant bitmap[..] == ClearRange(old(bitmap[..]), start, start + i)
        invariant freePages == old(freePages) + CountUsed(old(bitmap[..]), start, start + i)
      {
        TestClearRange(old(bitmap[..]), start, start + i, start + i);
        FreeBit(start + i);
        i := i + 1;
      }
      ClearRangeFree(old(bitmap[..]), totalPages, start, start + count);
    }
  }

  lemma StepPage(base: nat, length: nat, k: nat)
    ensures (base + 4096 * k) / 4096 == base / 4096 + k
    ensures 4096 * k < length <==> k < Steps(length)
  {
  }

  lemma HighestEnds(es: seq<Entry>)
    ensures forall e :: e in es && e.usable ==> (e.base + e.length) / 4096 <= TotalPages(es)
    ensures TotalPages(es) == 0 || exists e :: e in es && e.usable && (e.base + e.length) / 4096 == TotalPages(es)
  {
    HighestIs(es);
    forall e | e in es && e.usable
      ensures (e.base + e.length) / 4096 <= TotalPages(es)
    {
      var i :| 0 <= i < |es| && es[i] == e;
      assert e.base + e.length <= Highest(es);
    }
    if Highest(es) != 0 {
      var i :| 0 <= i < |es| && es[i].usable && es[i].base + es[i].length == Highest(es);
      assert es[i] in es;
    }
  }

  method FindHighest(entries: array<Entry>) returns (highest: nat)
    ensures highest == Highest(entries[..])
    ensures forall i :: 0 <= i < entries.Length && entries[i].usable ==> entries[i].base + entries[i].length <= highest
    ensures highest == 0 || exists i :: 0 <= i < entries.Length && entries[i].usable
                                        && entries[i].base + entries[i].length == highest
  {
    HighestIs(entries[..]);
    highest := 0;
    var i := 0;
    while i < entries.Length
      invariant i <= entries.Length
      invariant highest == Highest(entries[..i])
    {
      assert entries[..i + 1][..i] == entries[..i];
      if entries[i].usable {
        var top := entries[i].base + entries[i].length;
        if top > highest {
          highest := top;
        }
      }
      i := i + 1;
    }
    assert entries[..i] == entries[..];
  }

  // Cuts the bitmap out of the first entry that can hold it and marks every page used.
  method PlaceBitmap(entries: array<Entry>, total: nat) returns (bits: array<Byte>)
    requires WellFormed(entries[..]) && total == TotalPages(entries[..])
    requires (exists i :: 0 <= i < entries.Length && entries[i].usable)
             ==> exists h :: IsHost(entries[..], BitmapSize(entries[..]), h)
    modifies entries
    ensures fresh(bits) && total <= 8 * bits.Length
    ensures forall p: nat :: p < total ==> TestBit(bits[..], p)
    ensures forall i :: 0 <= i < entries.Length ==> FitsBits(entries[i], 8 * bits.Length)
    ensures forall h :: IsHost(old(entries[..]), BitmapSize(old(entries[..])), h)
                        ==> entries[..] == Adjusted(old(entries[..]), BitmapSize(old(entries[..])), h)
    ensures (forall h :: !IsHost(old(entries[..]), BitmapSize(old(entries[..])), h))
            ==> entries[..] == old(entries[..]) && total == 0
  {
    ghost var es := entries[..];
    var size := (total + 7) / 8;
    var h := FindHost(entries, size);
    if h < entries.Length {
      BitmapCovers(total);
      FreedInBitmap(es, h);
      bits := new Byte[RoundUp(size)];
      Fill(bits, size);
      hide RoundUp, Steps, CutBitmap, TestBit, FitsBits, WellFormed;
      entries[h] := CutBitmap(entries[h], size);
      assert entries[..] == Adjusted(es, size, h);
    } else {
      NoUsable(es);
      bits := new Byte[0];
    }
  }

  // The first usable entry that can hold `size` bytes, or the number of entries.
  method FindHost(entries: array<Entry>, size: nat) returns (h: nat)
    ensures h <= entries.Length
    ensures h < entries.Length ==> IsHost(entries[..], size, h)
    ensures h == entries.Length ==> forall j :: 0 <= j < entries.Length ==> !CanHost(entries[..][j], size)
    ensures h < entries.Length ==> entries[h].usable && entries[h].length >= size
    ensures forall j :: 0 <= j < h ==> !entries[j].usable || entries[j].length < size
  {
    h := 0;
    while h < entries.Length && !(entries[h].usable && entries[h].length >= size)
      invariant h <= entries.Length
      invariant forall j :: 0 <= j < h ==> !CanHost(entries[..][j], size)
      invariant forall j :: 0 <= j < h ==> !entries[j].usable || entries[j].length < size
    {
      h := h + 1;
    }
  }

  // memset(s_bitmap, 0xFF, size)
  method Fill(bits: array<Byte>, size: nat)
    requires size <= bits.Length
    modifies bits
    ensures forall p: nat :: p < 8 * size ==> TestBit(bits[..], p)
  {
    var j := 0;
    while j < size
      invariant j <= size
      invariant forall q :: 0 <= q < j ==> bits[q] == 255
    {
      bits[j] := 255;
      j := j + 1;
    }
    forall p: nat | p < 8 * size
      ensures TestBit(bits[..], p)
    {
      Pow2Values();
      OnesBit(8, p % 8);
    }
  }

  lemma {:induction false} NoUsable(es: seq<Entry>)
    requires forall i :: 0 <= i < |es| ==> !es[i].usable
    ensures Highest(es) == 0 && FreedCount(es) == 0
  {
    if es != [] {
      NoUsable(es[..|es| - 1]);
    }
  }

  // After pmm_init the counter is exact and only usable pages outside the bitmap are free, if and
  // only if the bitmap fills whole pages.
  lemma InitIsExact(es: seq<Entry>, h: nat, free: set<nat>, counter: nat)
    requires WellFormed(es) && IsHost(es, BitmapSize(es), h)
    requires var fs := Adjusted(es, BitmapSize(es), h);
             counter == FreedCount(fs) && forall p: nat :: p in free <==> p < TotalPages(es) && p in Freed(fs)
    ensures counter == |free| && free <= Intended(es, h) <==> BitmapSize(es) % 4096 == 0
    ensures BitmapSize(es) % 4096 == 0 ==> free == Intended(es, h)
  {
    InitFrees(es, h);
    InitCounts(es, h);
    IntendedBelow(es, h);
    hide Adjusted, Freed, BitmapSize;
    var intended := Intended(es, h);
    if BitmapSize(es) % 4096 == 0 {
      assert Spill(es[h], BitmapSize(es)) == {};
      assert free == intended;
    } else if free <= intended {
      assert |free| <= |intended| by {
        assert |intended| == |free| + |intended - free|;
      }
    }
  }

  lemma IntendedBelow(es: seq<Entry>, h: nat)
    requires WellFormed(es) && h < |es|
    ensures forall p :: p in Intended(es, h) ==> p < TotalPages(es)
  {
    forall p | p in Intended(es, h)
      ensures p < TotalPages(es)
    {
      hide BitmapPages, Highest, Freed, PagesOf;
      FreedIff(es, p);
      var i :| 0 <= i < |es| && p in PagesOf(es[i]);
      PagesBelow(es, i, p);
    }
  }

  lemma PagesBelow(es: seq<Entry>, i: nat, p: nat)
    requires WellFormed(es) && i < |es| && p in PagesOf(es[i])
    ensures p < TotalPages(es)
  {
    HighestBounds(es, i);
    hide Highest;
    var e := es[i];
    assert Steps(e.length) == e.length / 4096;
    assert p < (e.base + e.length) / 4096;
  }

  // A used page i rules out every run that would start in (lo, i] and reach past i.
  lemma UsedPageEndsRuns(free: set<nat>, count: nat, lo: nat, i: nat)
    requires i !in free && i - lo < count
    requires NoRunBelow(free, count, lo)
    ensures NoRunBelow(free, count, i + 1)
  {
    forall s: nat | lo <= s <= i
      ensures !IsRun(free, s, count)
    {
      assert s <= i < s + count;
    }
  }

  lemma NoFreePage(bm: seq<Byte>, total: nat)
    requires total <= 8 * |bm|
    requires forall j: nat :: j < total ==> j !in FreeIn(bm, total)
    ensures FreeIn(bm, total) == {}
  {
  }

  lemma TakenPage(bm: seq<Byte>, total: nat, i: nat)
    requires total <= 8 * |bm| && i < total && i in FreeIn(bm, total)
    ensures FreeIn(SetBit(bm, i), total) == FreeIn(bm, total) - {i}
    ensures |FreeIn(SetBit(bm, i), total)| == |FreeIn(bm, total)| - 1
  {
    hide TestBit, FreeIn, SetBit;
    SetRangeFree(bm, total, i, i + 1);
    assert SetRange(bm, i, i) == bm;
    assert SetRange(bm, i, i + 1) == SetBit(bm, i);
    assert Span(i, i + 1) == {i};
  }

  lemma NothingFree(total: nat)
    ensures LowestRun({}, total, 1) == None
  {
    var none: set<nat> := {};
    LowestRunIsLowest(none, total, 1);
    forall s: nat
      ensures !IsRun(none, s, 1)
    {
      assert s !in none;
    }
  }

  lemma TakenRun(bm: seq<Byte>, total: nat, start: nat, count: nat)
    requires total <= 8 * |bm| && start + count <= total
    requires IsRun(FreeIn(bm, total), start, count)
    ensures FreeIn(SetRange(bm, start, start + count), total) == FreeIn(bm, total) - Span(start, start + count)
    ensures |FreeIn(SetRange(bm, start, start + count), total)| == |FreeIn(bm, total)| - count
  {
    hide TestBit, SetBit, FreeIn;
    SetRangeFree(bm, total, start, start + count);
    assert Span(start, start + count) <= FreeIn(bm, total);
  }

  // Clearing the bit of a free page changes nothing, so the guard of pmm_free_page only matters
  // for the counter.
  lemma ClearFreeBit(bm: seq<Byte>, i: nat)
    requires i < 8 * |bm|
    ensures !TestBit(bm, i) ==> ClearBit(bm, i) == bm
  {
    if !TestBit(bm, i) {
      forall j: nat | j < 8 * |bm|
        ensures TestBit(ClearBit(bm, i), j) <==> TestBit(bm, j)
      {
        TestClearBit(bm, i, j);
      }
      BitmapEqual(ClearBit(bm, i), bm);
    }
  }

  // pmm_free_pages keeps the counter equal to the number of free pages if and only if it is not
  // asked to clear a used bit past the last page.
  lemma FreePagesCounter(bm: seq<Byte>, total: nat, counter: nat, start: nat, count: nat)
    requires total <= 8 * |bm| && start + count <= 8 * |bm|
    requires counter == |FreeIn(bm, total)|
    ensures counter + CountUsed(bm, start, start + count)
              == |FreeIn(ClearRange(bm, start, start + count), total)|
            <==> forall i: nat :: total <= i && start <= i < start + count ==> !TestBit(bm, i)
  {
    ClearRangeCount(bm, total, start, start + count);
    CountUsedZero(bm, Max(start, total), start + count);
  }

  lemma {:induction false} CountUsedZero(bm: seq<Byte>, lo: nat, hi: nat)
    requires hi <= 8 * |bm|
    ensures CountUsed(bm, lo, hi) == 0 <==> forall i: nat :: lo <= i < hi ==> !TestBit(bm, i)
  {
    if lo < hi {
      CountUsedZero(bm, lo, hi - 1);
    }
  }

  // Freeing what was just allocated restores every byte of the bitmap and the counter.
  lemma FreeUndoesAlloc(bm: seq<Byte>, total: nat, count: nat)
    requires total <= 8 * |bm|
    requires LowestRun(FreeIn(bm, total), total, count).Some?
    ensures var s := LowestRun(FreeIn(bm, total), total, count).value;
            && s + count <= total
            && var taken := SetRange(bm, s, s + count);
            && ClearRange(taken, s, s + count) == bm
            && CountUsed(taken, s, s + count) == count
  {
    hide TestBit, SetBit, ClearBit, FreeIn, IsRun, RunFrom;
    var free := FreeIn(bm, total);
    LowestRunIsLowest(free, total, count);
    var s := LowestRun(free, total, count).value;
    RunIsUnset(bm, total, s, count);
    ClearUndoesSet(bm, s, s + count);
    TakenRun(bm, total, s, count);
    ClearRangeCount(SetRange(bm, s, s + count), total, s, s + count);
  }

  // Through the addresses the two functions speak: pmm_free_pages(pmm_alloc_pages(count), count)
  // restores every byte of the bitmap and the counter.
  lemma FreeUndoesAllocAt(bm: seq<Byte>, total: nat, count: nat, addr: nat, counter: nat)
    requires total <= 8 * |bm| && counter == |FreeIn(bm, total)|
    requires LowestRun(FreeIn(bm, total), total, count).Some?
    requires addr == AddrOf(LowestRun(FreeIn(bm, total), total, count).value)
    ensures var page := PageOf(addr);
            && addr == 4096 * page && page + count <= total && counter >= count
            && var taken := SetRange(bm, page, page + count);
            && ClearRange(taken, page, page + count) == bm
            && (counter - count) + CountUsed(taken, page, page + count) == counter
  {
    var s := LowestRun(FreeIn(bm, total), total, count).value;
    PageOfAddr(s);
    hide FreeIn, LowestRun, IsRun, PageOf, AddrOf;
    FreeUndoesAlloc(bm, total, count);
    RunFits(bm, total, count);
  }

  lemma RunFits(bm: seq<Byte>, total: nat, count: nat)
    requires total <= 8 * |bm| && LowestRun(FreeIn(bm, total), total, count).Some?
    ensures |FreeIn(bm, total)| >= count
  {
    LowestRunIsLowest(FreeIn(bm, total), total, count);
    var s := LowestRun(FreeIn(bm, total), total, count).value;
    hide TestBit, FreeIn, LowestRun, RunFrom;
    TakenRun(bm, total, s, count);
  }

  // A page number survives its way through an address.
  lemma PageOfAddr(page: nat)
    ensures PageOf(AddrOf(page)) == page && AddrOf(page) == 4096 * page
  {
  }

  // The page of an address is the one whose 4096 bytes hold it.
  lemma PageHolds(addr: nat)
    ensures 4096 * PageOf(addr) <= addr < 4096 * PageOf(addr) + 4096
  {
  }

  lemma RunIsUnset(bm: seq<Byte>, total: nat, start: nat, count: nat)
    requires total <= 8 * |bm| && start + count <= total
    requires IsRun(FreeIn(bm, total), start, count)
    ensures forall j: nat :: start <= j < start + count ==> !TestBit(bm, j)
  {
    forall j: nat | start <= j < start + count
      ensures !TestBit(bm, j)
    {
      assert j in FreeIn(bm, total);
    }
  }

  // Address 0 tells failure from success exactly when page 0 is not free.
  lemma ZeroMeansFailure(free: set<nat>, total: nat, count: nat)
    requires count > 0
    ensures (forall s :: LowestRun(free, total, count) == Some(s) ==> AddrOf(s) != 0)
            <==> !(count <= total && IsRun(free, 0, count))
  {
    LowestRunIsLowest(free, total, count);
    if count <= total && IsRun(free, 0, count) {
      assert LowestRun(free, total, count) == Some(0);
    }
  }
}
