/** The live blocks of the heap as a multiset, and what kmalloc and kfree do to it. */
module LiveBlocks {
  import opened Bits
  import opened Wrappers
  import opened BlockList

  ghost function LiveOf(bs: Blocks): multiset<Block> {
    if bs == [] then multiset{} else One(bs[0]) + LiveOf(bs[1..])
  }

  ghost function One(b: Block): multiset<Block> {
    if b.free then multiset{} else multiset{b}
  }

  // The block kmalloc hands out for a rounded size.
  function Taken(bs: Blocks, size: nat): Option<Block> {
    var i := FirstFit(bs, size, 0);
    if i == |bs| then None else Some(Take(bs[i], size)[0])
  }

  lemma TakenIs(bs: Blocks, size: nat)
    ensures Taken(bs, size).None? <==> Malloc(bs, size).off < 0
    ensures Taken(bs, size).None? ==> Malloc(bs, size).bs == bs
    ensures Taken(bs, size).Some? ==>
              var b := Taken(bs, size).value;
              b.off == Malloc(bs, size).off && size <= b.size < size + 56 && !b.free
  {
  }

  lemma {:induction false} LiveConcat(a: Blocks, b: Blocks)
    ensures LiveOf(a + b) == LiveOf(a) + LiveOf(b)
  {
    if a == [] {
      assert a + b == b;
    } else {
      assert (a + b)[1..] == a[1..] + b;
      LiveConcat(a[1..], b);
    }
  }

  lemma {:induction false} LiveIff(bs: Blocks, b: Block)
    ensures b in LiveOf(bs) <==> b in bs && !b.free
  {
    if bs != [] {
      LiveIff(bs[1..], b);
      assert b in bs <==> b == bs[0] || b in bs[1..];
    }
  }

  lemma LiveReplace(bs: Blocks, i: nat, part: Blocks)
    requires i < |bs|
    ensures LiveOf(Replace(bs, i, part)) + One(bs[i]) == LiveOf(bs) + LiveOf(part)
  {
    var pre, post := bs[..i], bs[i + 1..];
    assert bs == pre + ([bs[i]] + post);
    LiveConcat(pre, [bs[i]] + post);
    LiveConcat([bs[i]], post);
    LiveSingle(bs[i]);
    assert Replace(bs, i, part) == pre + (part + post);
    LiveConcat(pre, part + post);
    LiveConcat(part, post);
  }

  lemma LiveSingle(b: Block)
    ensures LiveOf([b]) == One(b)
  {
    assert [b][1..] == [];
  }

  // kmalloc adds one live block, the one it returns; a failing kmalloc changes nothing.
  lemma MallocLive(bs: Blocks, size: nat)
    ensures LiveOf(Malloc(bs, size).bs)
         == LiveOf(bs) + (if Taken(bs, size).Some? then multiset{Taken(bs, size).value} else multiset{})
  {
    var i := FirstFit(bs, size, 0);
    if i < |bs| {
      TakeLive(bs[i], size);
      hide LiveOf, Take;
      LiveReplace(bs, i, Take(bs[i], size));
    }
  }

  lemma TakeLive(b: Block, size: nat)
    requires Fits(b, size)
    ensures LiveOf(Take(b, size)) == multiset{Take(b, size)[0]} && One(b) == multiset{}
  {
    var part := Take(b, size);
    hide LiveOf;
    LiveSingle(part[0]);
    if |part| == 2 {
      assert part == [part[0]] + [part[1]];
      LiveConcat([part[0]], [part[1]]);
      LiveSingle(part[1]);
    }
  }

  lemma AbsorbLive(bs: Blocks, k: nat)
    requires k + 1 < |bs| && bs[k].free && bs[k + 1].free
    ensures LiveOf(Absorb(bs, k)) == LiveOf(bs)
  {
    var merged := bs[k].(size := bs[k].size + 24 + bs[k + 1].size);
    var pre, post := bs[..k], bs[k + 2..];
    assert bs == pre + ([bs[k], bs[k + 1]] + post);
    assert [bs[k], bs[k + 1]] == [bs[k]] + [bs[k + 1]];
    assert Absorb(bs, k) == pre + ([merged] + post);
    LiveConcat(pre, [bs[k], bs[k + 1]] + post);
    LiveConcat([bs[k], bs[k + 1]], post);
    LiveConcat([bs[k]], [bs[k + 1]]);
    LiveSingle(bs[k]);
    LiveSingle(bs[k + 1]);
    LiveConcat(pre, [merged] + post);
    LiveConcat([merged], post);
    LiveSingle(merged);
  }

  lemma {:induction false} MergeLive(bs: Blocks, k: nat)
    ensures LiveOf(Merge(bs, k)) == LiveOf(bs)
    decreases |bs| - k
  {
    if k + 1 < |bs| {
      if bs[k].free && bs[k + 1].free {
        AbsorbLive(bs, k);
        MergeLive(Absorb(bs, k), k);
      } else {
        MergeLive(bs, k + 1);
      }
    }
  }

  // kfree of a live block removes that block and no other.
  lemma FreeLive(bs: Blocks, b: Block, end: nat)
    requires Tiles(bs, 0, end) && b in bs && !b.free
    ensures LiveOf(Free(bs, b.off)) + multiset{b} == LiveOf(bs)
  {
    var i :| 0 <= i < |bs| && bs[i] == b;
    IndexFound(bs, 0, end, i);
    var c := b.(free := true);
    assert SetFree(bs, i) == Replace(bs, i, [c]);
    LiveReplace(bs, i, [c]);
    LiveSingle(c);
    MergeLive(SetFree(bs, i), 0);
  }

  // No block is live twice.
  lemma {:induction false} LiveOnce(bs: Blocks, start: nat, end: nat, b: Block)
    requires Tiles(bs, start, end)
    ensures LiveOf(bs)[b] <= 1
    decreases |bs|
  {
    if bs != [] {
      var rest := bs[1..];
      LiveOnce(rest, bs[0].End(), end, b);
      if b == bs[0] && b in LiveOf(rest) {
        LiveIff(rest, b);
        var j :| 0 <= j < |rest| && rest[j] == b;
        TilesOrdered(rest, bs[0].End(), end, j, j);
      }
    }
  }
}
