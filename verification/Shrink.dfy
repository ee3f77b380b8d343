/** Pools without buffers, and when a pool is handed back. */
module Shrink {
  import opened Blocks
  import opened Pools
  import opened Heap
  import opened HeapFacts
  import opened Live
  import opened Joins
  import Image
  import opened Runs
  import opened Fit

  /** No live buffer other than `buf` lies in pool k. */
  ghost predicate NoOtherBuffer(h: Heap, k: nat, buf: int)
    requires k < |h.pools|
  {
    forall b :: LivePooled(h, b) && h.pools[k].base <= b < h.pools[k].End() ==> b == buf
  }

  lemma AllFreeRuns(bs: seq<Block>)
    requires WellFormed(bs) && forall i :: 0 <= i < |bs| ==> !bs[i].Used?
    ensures |bs| == 2 && bs[0].Free?
  {
    assert forall i :: 0 <= i < |bs| - 1 ==> bs[i].Free?;
    assert bs[0].Free? && (bs[1].Free? <==> |bs| > 2);
  }

  /** The used blocks of a pool are its live buffers. */
  lemma UsedIsLive(h: Heap, k: nat, i: nat)
    requires Placed(h) && k < |h.pools| && i < |h.pools[k].blocks| && h.pools[k].blocks[i].Used?
    ensures var b := AddrOf(h.pools, k, i) + BH; LivePooled(h, b) && h.pools[k].base <= b < h.pools[k].End()
  {
    hide All, PoolOf, BlockOf, Layout, Sum;
    Located(h.pools, h.limit, k, i);
    CarveBounds(h, k, i);
  }

  lemma CarveBounds(h: Heap, k: nat, i: nat)
    requires Placed(h) && k < |h.pools| && i < |h.pools[k].blocks| && h.pools[k].blocks[i].Used?
    ensures h.pools[k].base <= AddrOf(h.pools, k, i) && AddrOf(h.pools, k, i) + BH < h.pools[k].End()
  {
    hide All, PoolOf, BlockOf, Layout, Sum;
    var bs := h.pools[k].blocks;
    assert h.pools[k].Valid(h.limit);
    assert bs == bs[..i] + bs[i..] && bs[i..] == [bs[i]] + bs[i + 1..];
    SumConcat(bs[..i], bs[i..]);
    SumConcat([bs[i]], bs[i + 1..]);
    SumOfOne(bs[i]);
    SumPositive(bs[..i]);
    SumPositive(bs[i + 1..]);
  }

  lemma LiveIsUsed(h: Heap, k: nat, b: int)
    requires Placed(h) && k < |h.pools| && LivePooled(h, b) && h.pools[k].base <= b < h.pools[k].End()
    ensures PoolOf(h.pools, b - BH) == k
    ensures var i := BlockOf(h.pools, b - BH);
            i < |h.pools[k].blocks| && h.pools[k].blocks[i].Used? && AddrOf(h.pools, k, i) == b - BH
  {
    hide All, PoolOf, BlockOf, Layout, Sum, WellFormed;
    UsedBlock(h, b - BH);
    AllOwner(h.pools, h.limit, b - BH);
    var j := PoolOf(h.pools, b - BH);
    if j != k {
      assert false;
    }
  }

  /** No live buffer lies in pool k. */
  ghost predicate NoBuffer(h: Heap, k: nat)
    requires k < |h.pools|
  {
    forall b :: !(LivePooled(h, b) && h.pools[k].base <= b < h.pools[k].End())
  }

  /**
   Whatever the order of allocations and releases, a pool in which no buffer is live is one
   free block of the pool's length less the sentinel's header, and only such a pool is.
   */
  lemma PoolWithoutBuffers(h: Heap, k: nat)
    requires Placed(h) && k < |h.pools|
    ensures NoBuffer(h, k) <==> h.pools[k].blocks == [Free(h.pools[k].Len() - BH), Sentinel]
  {
    hide NoBuffer;
    if NoBuffer(h, k) { NoBufferEmpty(h, k); }
    if h.pools[k].blocks == [Free(h.pools[k].Len() - BH), Sentinel] { EmptyNoBuffer(h, k); }
  }

  lemma NoBufferEmpty(h: Heap, k: nat)
    requires Placed(h) && k < |h.pools| && NoBuffer(h, k)
    ensures h.pools[k].blocks == [Free(h.pools[k].Len() - BH), Sentinel]
  {
    hide All, PoolOf, BlockOf, Layout, Sum, LivePooled;
    var p := h.pools[k];
    assert p.Valid(h.limit);
    forall i | 0 <= i < |p.blocks| ensures !p.blocks[i].Used? {
      if p.blocks[i].Used? { UsedIsLive(h, k, i); }
    }
    AllFreeRuns(p.blocks);
    EmptyPool(p, h.limit);
  }

  lemma EmptyNoBuffer(h: Heap, k: nat)
    requires Placed(h) && k < |h.pools| && h.pools[k].blocks == [Free(h.pools[k].Len() - BH), Sentinel]
    ensures NoBuffer(h, k)
  {
    hide All, PoolOf, BlockOf, Layout, Sum, LivePooled, Placed;
    forall b ensures !(LivePooled(h, b) && h.pools[k].base <= b < h.pools[k].End()) {
      if LivePooled(h, b) && h.pools[k].base <= b < h.pools[k].End() {
        LiveIsUsed(h, k, b);
        assert false;
      }
    }
  }

  /** The join leaves pool k one free block exactly when the released buffer was the last in it. */
  lemma LastBuffer(h: Heap, a: int)
    requires Inv(h) && UsedAt(h.pools, a)
    ensures var k := PoolOf(h.pools, a);
            && k < |h.pools| == |JoinBlock(h, a).pools|
            && (Empty(JoinBlock(h, a).pools[k]) <==> NoOtherBuffer(h, k, a + BH))
  {
    hide All, PoolOf, BlockOf, Layout, Sum, WellFormed, JoinBlock, Listed, Counted, LengthsAgree, LivePooled,
         LiveDirect, Usable;
    var k, h1 := PoolOf(h.pools, a), JoinBlock(h, a);
    JoinExtents(h, a);
    JoinKeeps(h, a);
    JoinLive(h, a);
    PoolWithoutBuffers(h1, k);
    EmptyIs(h1, k);
    forall b ensures LivePooled(h1, b) <==> LivePooled(h, b) && b != a + BH {
      if b != a + BH { assert SameBuffer(h, h1, b); }
    }
  }

  lemma EmptyIs(h: Heap, k: nat)
    requires Placed(h) && k < |h.pools|
    ensures Empty(h.pools[k]) <==> h.pools[k].blocks == [Free(h.pools[k].Len() - BH), Sentinel]
  {
    hide Layout, Sum;
    assert h.pools[k].Valid(h.limit);
    if Empty(h.pools[k]) { EmptyPool(h.pools[k], h.limit); }
  }

  lemma JoinExtents(h: Heap, a: int)
    requires Placed(h) && UsedAt(h.pools, a)
    ensures var k, h1 := PoolOf(h.pools, a), JoinBlock(h, a);
            && k < |h.pools| == |h1.pools|
            && h1.pools[k].base == h.pools[k].base && h1.pools[k].End() == h.pools[k].End()
            && h1.ctl == h.ctl
            && (forall n :: 0 <= n < |h.pools| && n != k ==> h1.pools[n] == h.pools[n])
  {
    hide All, PoolOf, BlockOf, Layout, Sum, WellFormed;
    JoinSplices(h, a);
    var k, i := PoolOf(h.pools, a), BlockOf(h.pools, a);
    var bs := h.pools[k].blocks;
    SpliceArranged(h.pools, h.limit, k, JoinFrom(bs, i), JoinTo(bs, i), [Free(Sum(Joined(bs, i)))]);
  }

  /**
   Automatic shrink, exactly: a release hands back the pool of the buffer if and only if a
   release function is set, all pools have had the same length, and the buffer was the last
   live one in its pool.  Then just that pool goes, and its block leaves the free list.
   */
  lemma ShrinkExact(h: Heap, buf: int)
    requires Inv(h) && LivePooled(h, buf)
    ensures var k, h' := PoolOf(h.pools, buf - BH), Rel(h, buf);
            && k < |h.pools|
            && (|h'.pools| == |h.pools| - 1 <==> h.ctl.release && h.ctl.poolLen > 0 && NoOtherBuffer(h, k, buf))
            && (|h'.pools| != |h.pools| - 1 ==> |h'.pools| == |h.pools|)
            && (|h'.pools| == |h.pools| - 1 ==>
                  && h'.pools == Dropped(h.pools, k)
                  && (forall f :: f in h'.free ==> f < h.pools[k].base || h.pools[k].End() <= f))
  {
    hide All, PoolOf, BlockOf, Layout, Sum, WellFormed, JoinBlock, Listed, Counted, LengthsAgree, WholePool, Remove,
         RunSize, RunStart,
         LivePooled, NoOtherBuffer, RelPooled, Empty, Dropped;
    var a := buf - BH;
    PooledCases(h, buf);
    var k, h1 := PoolOf(h.pools, a), JoinBlock(h, a);
    JoinExtents(h, a);
    LastBuffer(h, a);
    RelPooledCases(h, a);
    DropLength(h1.pools, k);
    if WholePool(h1, RunSize(h, a)) {
      DropSame(h.pools, h1.pools, k);
      RelKeeps(h, buf);
      FreeInPools(Rel(h, buf), h, k);
    }
  }

  lemma PooledCases(h: Heap, buf: int)
    requires LivePooled(h, buf)
    ensures UsedAt(h.pools, buf - BH) && Rel(h, buf) == RelPooled(h, buf - BH) && IsLive(h, buf)
  {
  }

  lemma DropSame(p: seq<Pool>, q: seq<Pool>, k: nat)
    requires k < |p| == |q| && forall n :: 0 <= n < |p| && n != k ==> q[n] == p[n]
    ensures Dropped(q, k) == Dropped(p, k)
  {
  }

  /** Once pool k is gone, nothing on the list lies where it was. */
  lemma FreeInPools(h': Heap, h: Heap, k: nat)
    requires Placed(h') && Listed(h') && Placed(h) && k < |h.pools| && h'.pools == Dropped(h.pools, k)
    ensures forall f :: f in h'.free ==> f < h.pools[k].base || h.pools[k].End() <= f
  {
    hide All, PoolOf, BlockOf, Layout, Sum, WellFormed, Dropped;
    forall f | f in h'.free
      ensures f < h.pools[k].base || h.pools[k].End() <= f
    {
      AllOwner(h'.pools, h'.limit, f);
      var j := PoolOf(h'.pools, f);
      DropLength(h.pools, k);
      DropIndex(h.pools, k, j);
      PoolsApart(h, k, if j < k then j else j + 1);
    }
  }

  lemma PoolsApart(h: Heap, k: nat, j: nat)
    requires Placed(h) && k < |h.pools| && j < |h.pools| && j != k
    ensures Apart(h.pools[k].base, h.pools[k].End(), h.pools[j].base, h.pools[j].End())
  {
    Image.PoolApart(h, k, j);
  }

  // ----- against the documentation

  /**
   What the description of `bectl` says of this release: if it hands back a pool, then all pools
   have the size of the expansion increment.
   */
  predicate AsDescribed(h: Heap, buf: int) {
    |Rel(h, buf).pools| < |h.pools| ==> forall k :: 0 <= k < |h.pools| ==> h.pools[k].Len() == h.ctl.expIncr
  }

  /**
   Exactly when the code does as described: no release function is set, pool lengths have differed
   or none has been added, the common length happens to be the increment, or the pool of the
   buffer holds another live one.
   */
  lemma DescribedIff(h: Heap, buf: int)
    requires Inv(h) && LivePooled(h, buf)
    ensures var k := PoolOf(h.pools, buf - BH);
            && k < |h.pools|
            && (AsDescribed(h, buf) <==>
                  || !h.ctl.release || h.ctl.poolLen <= 0 || h.ctl.poolLen == h.ctl.expIncr
                  || !NoOtherBuffer(h, k, buf))
  {
    hide Placed, Listed, Counted, Rel, LivePooled, NoOtherBuffer, PoolOf, Dropped;
    ShrinkExact(h, buf);
    var k := PoolOf(h.pools, buf - BH);
    if h.ctl.poolLen > 0 {
      assert h.pools[k].Len() == h.ctl.poolLen;
    }
  }

  /** One pool of 32 bytes at 64, and the size of an expansion block set to 1000. */
  function SmallPool(blocks: seq<Block>, free: seq<int>, stats: Stats): Heap {
    Heap(16, 1024, [Pool(64, blocks)], free, [], Control(false, false, true, 1000, 32), stats)
  }

  /**
   The description of `bectl` says that empty pools are released only if all pools have the
   size of the expansion increment.  The code compares the pools with one another instead:
   here is a run after which the release of a buffer hands back a pool of 32 bytes although
   the increment is 1000.  `ShrinkExact` says when the code does hand back a pool.
   */
  lemma IncrementNotConsulted()
    ensures var calls := [CallPool(64, 32), CallCtl(false, false, true, 1000), CallGet(8, [], 0, false)];
            var h := Run(Start(16, 1024), calls);
            && RunLegal(Start(16, 1024), calls)
            && LivePooled(h, 72) && h.ctl.expIncr == 1000 && |h.pools| == 1 && h.pools[0].Len() == 32
            && Rel(h, 72).pools == []
  {
    hide Inv, Rel, Run, RunLegal;
    SmallRun();
    SmallLayout(Used(24));
    var h := SmallPool([Used(24), Sentinel], [], Stats(24, 1, 0, 1, 1, 0, 0, 0));
    assert NoOtherBuffer(h, 0, 72);
    ShrinkExact(h, 72);
  }

  lemma SmallRun()
    ensures var calls := [CallPool(64, 32), CallCtl(false, false, true, 1000), CallGet(8, [], 0, false)];
            var h := SmallPool([Used(24), Sentinel], [], Stats(24, 1, 0, 1, 1, 0, 0, 0));
            Run(Start(16, 1024), calls) == h && RunLegal(Start(16, 1024), calls) && Inv(h)
  {
    hide Inv, Get, AddPool, Rel, PoolRegion;
    var s0 := Start(16, 1024);
    var h1, h2 := AddPool(s0, 64, 32), SmallPool([Free(24), Sentinel], [64], Stats(0, 0, 0, 1, 1, 0, 0, 0));
    var h3 := SmallPool([Used(24), Sentinel], [], Stats(24, 1, 0, 1, 1, 0, 0, 0));
    var c1, c2, c3 := CallPool(64, 32), CallCtl(false, false, true, 1000), CallGet(8, [], 0, false);
    SmallPoolAdded();
    SmallGet();
    RunEmpty(h3);
    RunCons(h2, c3, []);
    RunCons(h1, c2, [c3]);
    RunCons(s0, c1, [c2, c3]);
    assert [c3] + [] == [c3] && [c2] + [c3] == [c2, c3] && [c1] + [c2, c3] == [c1, c2, c3];
    StartHolds(16, 1024);
    RunKeeps(s0, [c1, c2, c3]);
  }

  lemma RunCons(h: Heap, c: Call, calls: seq<Call>)
    ensures Run(h, [c] + calls) == Run(Do(h, c), calls)
    ensures RunLegal(h, [c] + calls) <==> Legal(h, c) && RunLegal(Do(h, c), calls)
  {
    assert ([c] + calls)[1..] == calls;
  }

  lemma RunEmpty(h: Heap)
    ensures Run(h, []) == h && RunLegal(h, [])
  {
  }

  lemma SmallPoolAdded()
    ensures var h1 := AddPool(Start(16, 1024), 64, 32);
            PoolRegion(Start(16, 1024), 64, 32)
            && h1.(ctl := Control(false, false, true, 1000, h1.ctl.poolLen))
               == SmallPool([Free(24), Sentinel], [64], Stats(0, 0, 0, 1, 1, 0, 0, 0))
  {
  }

  lemma SmallLayout(b: Block)
    requires b == Free(24) || b == Used(24)
    ensures All([Pool(64, [b, Sentinel])]) == map[64 := b, 88 := Sentinel]
    ensures PoolOf([Pool(64, [b, Sentinel])], 64) == 0 && BlockOf([Pool(64, [b, Sentinel])], 64) == 0
    ensures Pool(64, [b, Sentinel]).Len() == 32
  {
    SumOfTwo(b, Sentinel);
    var pools := [Pool(64, [b, Sentinel])];
    assert pools[1..] == [];
  }

  lemma SmallGet()
    ensures Get(SmallPool([Free(24), Sentinel], [64], Stats(0, 0, 0, 1, 1, 0, 0, 0)), Need(8), [], 0)
            == (SmallPool([Used(24), Sentinel], [], Stats(24, 1, 0, 1, 1, 0, 0, 0)), 72)
    ensures GetLegal(SmallPool([Free(24), Sentinel], [64], Stats(0, 0, 0, 1, 1, 0, 0, 0)), Need(8), [], 0)
  {
    var h := SmallPool([Free(24), Sentinel], [64], Stats(0, 0, 0, 1, 1, 0, 0, 0));
    SmallLayout(Free(24));
    assert Need(8) == 16;
    assert BestUpTo(h, 16, 0) == -1;
    assert BestUpTo(h, 16, 1) == 0;
    GetFits(h, 16, [], 0);
    assert Splice([Free(24), Sentinel], 0, 1, [Used(24)]) == [Used(24), Sentinel];
    assert Remove([64], 64) == [];
    assert TakeBest(h, 16) == Carve(h, 64, 16);
    assert SizeAt(h.pools, 64) == 24;
    assert SplicePools(h.pools, 0, 0, 1, [Used(24)]) == [Pool(64, [Used(24), Sentinel])];
  }
}
