/** Every byte and every buffer is accounted for. */
module Conservation {
  import opened Blocks
  import opened Pools
  import opened Heap
  import opened Tallies
  import opened HeapFacts
  import opened Serve

  /** The bytes of the pools less their sentinels. */
  function Capacity(pools: seq<Pool>): int {
    if pools == [] then 0 else pools[0].Len() - BH + Capacity(pools[1..])
  }

  lemma {:induction false} CapacityTally(pools: seq<Pool>, limit: int)
    requires forall k :: 0 <= k < |pools| ==> pools[k].Valid(limit)
    ensures Capacity(pools) == TallyPools(pools).used + TallyPools(pools).free
  {
    hide Layout, Sum, TallyRun;
    if pools != [] {
      assert pools[0].Valid(limit);
      TallyTotal(pools[0].blocks);
      CapacityTally(pools[1..], limit);
    }
  }

  // ----- the free list adds up to the free blocks

  function SumSizes(s: seq<int>, size: map<int, int>): int {
    if s == [] then 0 else (if s[0] in size then size[s[0]] else 0) + SumSizes(s[1..], size)
  }

  lemma {:induction false} SumRemove(s: seq<int>, x: int, size: map<int, int>)
    requires Distinct(s) && x in s && x in size
    ensures SumSizes(s, size) == SumSizes(Remove(s, x), size) + size[x]
  {
    if s[0] != x {
      assert x in s[1..];
      SumRemove(s[1..], x, size);
      assert ([s[0]] + Remove(s[1..], x))[1..] == Remove(s[1..], x);
    }
  }

  /** Exactly the free blocks of the rest of a pool and of further pools, each once, with their sizes. */
  ghost predicate Lists(s: seq<int>, size: map<int, int>, run: map<int, Block>, pools: seq<Pool>) {
    && Distinct(s)
    && (forall f :: f in s <==> FreeIn(run, f) || FreeAt(pools, f))
    && (forall f :: FreeIn(run, f) ==> f in size && size[f] == run[f].size)
    && (forall f :: FreeAt(pools, f) ==> f in size && size[f] == SizeAt(pools, f))
    && (forall f :: f in run ==> !FreeAt(pools, f))
  }

  predicate FreeIn(run: map<int, Block>, f: int) {
    f in run && run[f].Free?
  }

  lemma {:induction false} ListedSum(s: seq<int>, size: map<int, int>, a: int, bs: seq<Block>, pools: seq<Pool>,
                                     limit: int)
    requires Sized(bs) && Arranged(pools, limit) && Lists(s, size, Layout(a, bs), pools)
    ensures SumSizes(s, size) == TallyRun(bs).free + TallyPools(pools).free
    decreases |pools|, |bs|
  {
    hide All, Sum, Remove, Layout;
    if bs != [] {
      LayoutHead(a, bs);
      LayoutInside(a + bs[0].Size(), bs[1..]);
      assert bs[0].Sized();
      ListsPeel(s, size, a, bs[0], Layout(a + bs[0].Size(), bs[1..]), pools);
      if bs[0].Free? {
        SumRemove(s, a, size);
        ListedSum(Remove(s, a), size, a + bs[0].Size(), bs[1..], pools, limit);
      } else {
        ListedSum(s, size, a + bs[0].Size(), bs[1..], pools, limit);
      }
    } else if pools != [] {
      EmptyRun(a);
      ListsNext(s, size, pools, limit);
      ListedSum(s, size, pools[0].base, pools[0].blocks, pools[1..], limit);
    } else {
      EmptyRun(a);
      ListsNone(s, size);
    }
  }

  lemma ListsNone(s: seq<int>, size: map<int, int>)
    requires Lists(s, size, map[], [])
    ensures s == []
  {
    if s != [] {
      FirstIn(s);
    }
  }

  lemma FirstIn(s: seq<int>)
    requires s != []
    ensures s[0] in s
  {
  }

  /** The first block of the run, taken off. */
  lemma ListsPeel(s: seq<int>, size: map<int, int>, a: int, b: Block, run: map<int, Block>, pools: seq<Pool>)
    requires a !in run && Lists(s, size, map[a := b] + run, pools)
    ensures b.Free? ==> a in s && a in size && size[a] == b.size && Distinct(s) && Lists(Remove(s, a), size, run, pools)
    ensures !b.Free? ==> Lists(s, size, run, pools)
  {
    hide Remove, FreeAt, SizeAt;
    var all := map[a := b] + run;
    assert forall f :: f in run ==> f in all && all[f] == run[f];
    assert forall f :: FreeIn(run, f) <==> FreeIn(all, f) && f != a;
    assert b.Free? <==> FreeIn(all, a);
    assert a in all;
    if b.Free? { RemoveKeeps(s, a); }
  }

  /** The next pool, begun. */
  lemma ListsNext(s: seq<int>, size: map<int, int>, pools: seq<Pool>, limit: int)
    requires pools != [] && Arranged(pools, limit) && Lists(s, size, map[], pools)
    ensures Sized(pools[0].blocks) && Arranged(pools[1..], limit)
    ensures Lists(s, size, Layout(pools[0].base, pools[0].blocks), pools[1..])
  {
    hide Sum, Remove, WellFormed, Layout, PoolOf, Apart;
    var p := pools[0];
    assert p.Valid(limit);
    assert Sized(p.blocks) by { WellFormedSized(p.blocks); }
    forall x | x in p.Map() ensures x in All(pools) && All(pools)[x] == p.Map()[x] && x !in All(pools[1..]) {
      AllHas(pools, limit, 0, x);
      NotInRest(pools, limit, x);
    }
    assert All(pools) == p.Map() + All(pools[1..]);
  }

  lemma WellFormedSized(bs: seq<Block>)
    requires WellFormed(bs)
    ensures Sized(bs)
  {
  }

  lemma NotInRest(pools: seq<Pool>, limit: int, x: int)
    requires pools != [] && Arranged(pools, limit) && x in pools[0].Map()
    ensures x !in All(pools[1..])
  {
    hide All, PoolOf, Layout, Sum;
    var p := pools[0];
    assert p.Valid(limit);
    LayoutInside(p.base, p.blocks);
    if x in All(pools[1..]) {
      AllOwner(pools[1..], limit, x);
      assert false;
    }
  }

  function FreeSizes(h: Heap): map<int, int> {
    map f | f in h.free :: SizeAt(h.pools, f)
  }

  lemma {:induction false} PrefixSum(h: Heap, j: nat)
    requires j <= |h.free|
    ensures FreeSum(h, j) == SumSizes(h.free[..j], FreeSizes(h))
  {
    hide SizeAt;
    if j > 0 {
      PrefixSum(h, j - 1);
      assert h.free[..j] == h.free[..j - 1] + [h.free[j - 1]];
      SumAppend(h.free[..j - 1], h.free[j - 1], FreeSizes(h));
      assert h.free[j - 1] in h.free;
    }
  }

  lemma {:induction false} SumAppend(s: seq<int>, x: int, size: map<int, int>)
    ensures SumSizes(s + [x], size) == SumSizes(s, size) + (if x in size then size[x] else 0)
  {
    if s == [] {
      assert s + [x] == [x];
      assert SumSizes([x][1..], size) == 0;
    } else {
      assert (s + [x])[1..] == s[1..] + [x];
      SumAppend(s[1..], x, size);
    }
  }

  /** The list adds up to the free bytes of the pools, in whatever order it is. */
  lemma FreeListTotal(h: Heap)
    requires Placed(h) && Listed(h)
    ensures FreeSum(h, |h.free|) == TallyPools(h.pools).free
  {
    hide All, Sum, Layout, WellFormed;
    PrefixSum(h, |h.free|);
    assert h.free[..|h.free|] == h.free;
    EmptyRun(0);
    assert Lists(h.free, FreeSizes(h), Layout(0, []), h.pools);
    ListedSum(h.free, FreeSizes(h), 0, [], h.pools, h.limit);
  }

  /**
   Conservation.  The pools' bytes are allocated or on the free list, nothing else;
   `totalloc` is what is allocated in pools and directly; and the differences of the
   counters count live buffers, live direct buffers and live pools.
   */
  lemma Conserved(h: Heap)
    requires Inv(h)
    ensures var t := TallyPools(h.pools);
            && Capacity(h.pools) == t.used + FreeSum(h, |h.free|)
            && h.stats.totalloc == Capacity(h.pools) - FreeSum(h, |h.free|) + DirectBytes(h.direct)
            && h.stats.numget - h.stats.numrel == t.count + |h.direct|
            && h.stats.numdget - h.stats.numdrel == |h.direct|
            && h.stats.numpget - h.stats.numprel == h.stats.numpblk == |h.pools|
  {
    hide All, Sum, Layout, WellFormed, TallyPools, DirectBytes, Capacity, FreeSum;
    CapacityTally(h.pools, h.limit);
    FreeListTotal(h);
  }
}
