/** Best fit: what the scan of the free list finds. */
module Fit {
  import opened Memory
  import opened Blocks
  import opened Pools
  import opened Heap
  import opened HeapFacts
  import opened Image
  import opened Joins

  /** Block b is the first of the smallest blocks, among the first j of the list, that hold `size`. */
  predicate FirstSmallest(h: Heap, size: int, j: nat, b: int)
    requires j <= |h.free|
  {
    && 0 <= b < j
    && SizeAt(h.pools, h.free[b]) >= size
    && (forall i :: 0 <= i < j && SizeAt(h.pools, h.free[i]) >= size ==>
          && SizeAt(h.pools, h.free[b]) <= SizeAt(h.pools, h.free[i])
          && (i < b ==> SizeAt(h.pools, h.free[b]) < SizeAt(h.pools, h.free[i])))
  }

  predicate NoneFits(h: Heap, size: int, j: nat)
    requires j <= |h.free|
  {
    forall i :: 0 <= i < j ==> SizeAt(h.pools, h.free[i]) < size
  }

  /** The scan ends at the first of the smallest blocks that fit, or at none when none fits. */
  lemma {:induction false} BestIsFirstSmallest(h: Heap, size: int, j: nat)
    requires j <= |h.free|
    ensures var b := BestUpTo(h, size, j);
            if b < 0 then NoneFits(h, size, j) else FirstSmallest(h, size, j, b)
  {
    hide SizeAt;
    if j > 0 {
      BestIsFirstSmallest(h, size, j - 1);
    }
  }

  /** In terms of blocks: a fit is found if and only if some free block of some pool is large enough. */
  lemma FitExists(h: Heap, size: int)
    requires Listed(h)
    ensures Best(h, size) >= 0 <==> exists f :: FreeAt(h.pools, f) && SizeAt(h.pools, f) >= size
  {
    hide SizeAt, FreeAt, BestUpTo;
    BestIsFirstSmallest(h, size, |h.free|);
    if Best(h, size) >= 0 {
      assert h.free[Best(h, size)] in h.free;
    }
    forall f | FreeAt(h.pools, f) && SizeAt(h.pools, f) >= size ensures Best(h, size) >= 0 {
      assert f in h.free;
      var i :| 0 <= i < |h.free| && h.free[i] == f;
    }
  }

  /**
   The comment "can't get into a loop": once an expansion block has been added for a request
   that fits one, the next scan finds a block, although `bpool` has masked the length.
   */
  lemma ExpansionFits(h: Heap, size: int, base: int)
    requires Placed(h) && Listed(h) && Requested(size) && size <= h.ctl.expIncr - BH
    requires PoolRegion(h, base, h.ctl.expIncr)
    ensures Best(AddPool(h, base, h.ctl.expIncr), size) >= 0
  {
    hide All, BestUpTo, FreeAt, Placed, Listed;
    var h' := AddPool(h, base, h.ctl.expIncr);
    AddPoolAll(h, base, h.ctl.expIncr);
    BestIsFirstSmallest(h', size, |h'.free|);
    assert h'.free[|h.free|] == base;
    assert SizeAt(h'.pools, base) == Mask(h.ctl.expIncr) - BH;
  }

  lemma NeedFits(request: int)
    requires Requestable(request)
    ensures Requested(Need(request))
    ensures request <= Need(request) - BH < (if request < SIZEQ then SIZEQ else request) + QUANT
  {
  }

  // ----- the nodes of the list, in order

  lemma NodeAt(m: Words, h: Heap, j: nat)
    requires Inv(h) && ImageOf(m, h) && j <= |h.free|
    ensures var c := Circle(h.head, h.free);
            && |c| == |h.free| + 2 && c[0] == h.head && c[|h.free| + 1] == h.head
            && NodeAddr(c[j], h.limit) && At(m, c[j] + FLINK) == c[j + 1]
            && (0 < j ==> c[j] == h.free[j - 1] && c[j] != h.head && At(m, c[j] + BSIZE) == SizeAt(h.pools, c[j])
                          && BFH <= SizeAt(h.pools, c[j]) <= MAX_SIZE)
  {
    hide Arranged, DirectValid, FreeAt, Counted, LengthsAgree, PoolAt, DirectAt, All;
    InvParts(h);
    var c := Circle(h.head, h.free);
    NodeBounds(h, c[j]);
    if 0 < j {
      assert c[j] == h.free[j - 1];
      AfterFree(m, h, h.free[j - 1]);
      ListSpaced(h);
    }
  }

  /** The address a scan of the list looks at after `j` blocks. */
  function Entry(h: Heap, j: nat): int
    requires j <= |h.free|
  {
    if j < |h.free| then h.free[j] else h.head
  }

  /** One step of a scan of the list. */
  lemma ScanStep(m: Words, h: Heap, j: nat)
    requires Inv(h) && ImageOf(m, h) && j <= |h.free|
    ensures NodeAddr(h.head, h.limit) && At(m, h.head + FLINK) == Entry(h, 0)
    ensures Entry(h, j) == h.head <==> j == |h.free|
    ensures j < |h.free| ==> var f := h.free[j];
              && NodeAddr(f, h.limit) && At(m, f + FLINK) == Entry(h, j + 1)
              && At(m, f + BSIZE) == SizeAt(h.pools, f) && BFH <= SizeAt(h.pools, f) <= MAX_SIZE
  {
    hide Inv, ImageOf, At, SizeAt, NodeAddr;
    NodeAt(m, h, 0);
    if j < |h.free| {
      NodeAt(m, h, j + 1);
    }
    if |h.free| > 0 {
      NodeAt(m, h, 1);
    }
  }

  /** How the best-fit scan settles. */
  lemma BestStep(h: Heap, size: int, j: nat)
    requires j < |h.free|
    ensures var b, n := BestUpTo(h, size, j), SizeAt(h.pools, h.free[j]);
            BestUpTo(h, size, j + 1) == if n >= size && (b == -1 || n < SizeAt(h.pools, h.free[b])) then j else b
  {
    hide SizeAt;
  }

  lemma BestNone(h: Heap, size: int)
    ensures BestUpTo(h, size, 0) == -1
  {
  }

  lemma EntryAt(h: Heap, j: nat)
    requires j < |h.free|
    ensures Entry(h, j) == h.free[j]
  {
  }

  lemma BestCarvable(h: Heap, size: int)
    requires Inv(h) && Requested(size) && Best(h, size) >= 0
    ensures Carvable(h, h.free[Best(h, size)], size)
    ensures forall plan, acquired :: Get(h, size, plan, acquired) == Carve(h, h.free[Best(h, size)], size)
  {
    hide Inv, Carvable, Best, Carve;
    TakeBestKeeps(h, size);
  }

  // ----- the three ways `bget` can go on after a scan

  lemma GetFits(h: Heap, size: int, plan: seq<Answer>, acquired: int)
    requires Best(h, size) >= 0
    ensures Get(h, size, plan, acquired) == TakeBest(h, size) && GetLegal(h, size, plan, acquired)
    ensures forall writes :: PlanTouched(h, size, plan, writes) == {}
  {
  }

  lemma GetExpands(h: Heap, size: int, plan: seq<Answer>, acquired: int)
    requires Best(h, size) < 0 && GetLegal(h, size, plan, acquired)
    requires !h.ctl.compact || plan == []
    ensures Get(h, size, plan, acquired) == Expand(h, size, acquired) && AcquiredLegal(h, size, acquired)
    ensures forall writes :: PlanTouched(h, size, plan, writes) == {}
  {
  }

  lemma GetCompacts(h: Heap, size: int, plan: seq<Answer>, acquired: int)
    requires Best(h, size) < 0 && GetLegal(h, size, plan, acquired)
    requires h.ctl.compact && plan != []
    ensures RunLegal(h, plan[0].calls)
    ensures var h1 := Run(h, plan[0].calls);
            if plan[0].again then
              && Get(h, size, plan, acquired) == Get(h1, size, plan[1..], acquired)
              && GetLegal(h1, size, plan[1..], acquired)
            else
              && Get(h, size, plan, acquired) == Expand(h1, size, acquired)
              && AcquiredLegal(h1, size, acquired)
    ensures forall writes ::
              PlanTouched(h, size, plan, writes)
              == RunTouched(h, plan[0].calls, writes)
                 + (if plan[0].again then PlanTouched(Run(h, plan[0].calls), size, plan[1..], writes) else {})
  {
  }

  lemma ExpandCases(h: Heap, size: int, acquired: int)
    requires Inv(h) && Requested(size) && AcquiredLegal(h, size, acquired) && h.ctl.acquire && acquired != 0
    ensures FitsExpansion(h, size) ==>
              && PoolRegion(h, acquired, h.ctl.expIncr)
              && Best(AddPool(h, acquired, h.ctl.expIncr), size) >= 0
              && Expand(h, size, acquired) == TakeBest(AddPool(h, acquired, h.ctl.expIncr), size)
    ensures !FitsExpansion(h, size) ==>
              && DirectRegion(h, acquired, size + (BDH - BH))
              && Expand(h, size, acquired) == (AddDirect(h, acquired, size + (BDH - BH)), acquired + BDH)
  {
    hide Placed, Listed, LengthsAgree, Counted, TakeBest, Best, PoolRegion, Unowned, AddPool;
    if FitsExpansion(h, size) {
      ExpansionFits(h, size, acquired);
    }
  }
}
