/** What each step does to the blocks, and that it keeps the invariant. */
module HeapFacts {
  import opened Blocks
  import opened Pools
  import opened Heap
  import opened Tallies

  /** A free block seen from its pool. */
  lemma FreeBlock(h: Heap, f: int)
    requires Placed(h) && FreeAt(h.pools, f)
    ensures var k, i := PoolOf(h.pools, f), BlockOf(h.pools, f);
            && k < |h.pools| && i + 1 < |h.pools[k].blocks|
            && h.pools[k].blocks[i] == Free(SizeAt(h.pools, f))
            && AddrOf(h.pools, k, i) == f
            && (i > 0 ==> !h.pools[k].blocks[i - 1].Free?)
            && !h.pools[k].blocks[i + 1].Free?
            && SizeAt(h.pools, f) >= BFH && SizeAt(h.pools, f) % 4 == 0
  {
    Locate(h.pools, h.limit, f);
    assert h.pools[PoolOf(h.pools, f)].Valid(h.limit);
  }

  /** The block of a pooled buffer seen from its pool. */
  lemma UsedBlock(h: Heap, a: int)
    requires Placed(h) && UsedAt(h.pools, a)
    ensures var k, i := PoolOf(h.pools, a), BlockOf(h.pools, a);
            && k < |h.pools| && i + 1 < |h.pools[k].blocks|
            && h.pools[k].blocks[i] == Used(SizeAt(h.pools, a))
            && AddrOf(h.pools, k, i) == a
            && SizeAt(h.pools, a) >= BFH && SizeAt(h.pools, a) % 4 == 0
  {
    Locate(h.pools, h.limit, a);
    assert h.pools[PoolOf(h.pools, a)].Valid(h.limit);
  }

  /** A splice that keeps the size of its run moves no pool, so everything stays where it was. */
  lemma SplicePlaced(h: Heap, h': Heap, k: nat, i: nat, j: nat, mid: seq<Block>)
    requires Placed(h) && Spliceable(h.pools, h.limit, k, i, j, mid)
    requires h'.head == h.head && h'.limit == h.limit && h'.direct == h.direct
    requires h'.pools == SplicePools(h.pools, k, i, j, mid)
    ensures Placed(h')
    ensures |h'.pools| == |h.pools|
    ensures forall n :: 0 <= n < |h.pools| ==>
              h'.pools[n].base == h.pools[n].base && h'.pools[n].Len() == h.pools[n].Len()
  {
    SpliceArranged(h.pools, h.limit, k, i, j, mid);
    forall d | 0 <= d < |h'.direct| ensures DirectValid(h', h'.direct[d]) {
      assert DirectValid(h, h.direct[d]);
    }
  }

  predicate Splits(h: Heap, f: int, size: int) {
    SizeAt(h.pools, f) - size > SIZEQ + BH
  }

  function CarveRun(h: Heap, f: int, size: int): seq<Block> {
    var n := SizeAt(h.pools, f);
    if Splits(h, f, size) then [Free(n - size), Used(size)] else [Used(n)]
  }

  ghost predicate Carvable(h: Heap, f: int, size: int) {
    && Placed(h) && Listed(h) && f in h.free
    && BFH <= size <= SizeAt(h.pools, f) && size % 4 == 0
  }

  /** A carve replaces the free block by one or two blocks of the same total size. */
  lemma CarveSplices(h: Heap, f: int, size: int)
    requires Carvable(h, f, size)
    ensures var k, i := PoolOf(h.pools, f), BlockOf(h.pools, f);
            && Spliceable(h.pools, h.limit, k, i, i + 1, CarveRun(h, f, size))
            && h.pools[k].blocks[i..i + 1] == [Free(SizeAt(h.pools, f))]
            && AddrOf(h.pools, k, i) == f
  {
    FreeBlock(h, f);
    var k, i := PoolOf(h.pools, f), BlockOf(h.pools, f);
    var bs, mid := h.pools[k].blocks, CarveRun(h, f, size);
    assert h.pools[k].Valid(h.limit);
    SpliceWellFormed(bs, i, i + 1, mid);
    assert bs[i..i + 1] == [bs[i]];
    SumOfOne(bs[i]);
    if Splits(h, f, size) { SumOfTwo(mid[0], mid[1]); } else { SumOfOne(mid[0]); }
  }

  /** What `Carve` does to the blocks of the heap. */
  lemma CarveAll(h: Heap, f: int, size: int)
    requires Carvable(h, f, size)
    ensures var n := SizeAt(h.pools, f); var h' := Carve(h, f, size).0;
            All(h'.pools) ==
            if Splits(h, f, size) then All(h.pools)[f := Free(n - size)][f + (n - size) := Used(size)]
            else All(h.pools)[f := Used(n)]
    ensures Splits(h, f, size) ==> f + (SizeAt(h.pools, f) - size) !in All(h.pools)
  {
    hide All, PoolOf, BlockOf, Layout;
    CarveSplices(h, f, size);
    var k, i := PoolOf(h.pools, f), BlockOf(h.pools, f);
    var n, mid := SizeAt(h.pools, f), CarveRun(h, f, size);
    SpliceAll(h.pools, h.limit, k, i, i + 1, mid);
    SumOfOne(Free(n));
    if Splits(h, f, size) {
      SumOfTwo(mid[0], mid[1]);
      NothingInside(h, f, f + (n - size));
      PutTwo(All(h.pools), f, Free(n), mid[0], f + (n - size), mid[1]);
    } else {
      SumOfOne(mid[0]);
      PutOne(All(h.pools), f, Free(n), mid[0]);
    }
  }

  /** No block starts strictly inside another. */
  lemma NothingInside(h: Heap, f: int, x: int)
    requires Placed(h) && f in All(h.pools) && f < x < f + All(h.pools)[f].Size()
    ensures x !in All(h.pools)
  {
    if x in All(h.pools) {
      AllApart(h.pools, h.limit, f, x);
      AllOwner(h.pools, h.limit, x);
      assert false;
    }
  }

  lemma PutOne(all: map<int, Block>, f: int, was: Block, b: Block)
    ensures (all - map[f := was].Keys) + map[f := b] == all[f := b]
  {
  }

  lemma PutTwo(all: map<int, Block>, f: int, was: Block, b: Block, g: int, c: Block)
    ensures (all - map[f := was].Keys) + (map[f := b] + map[g := c]) == all[f := b][g := c]
  {
  }

  lemma CarveKeeps(h: Heap, f: int, size: int)
    requires Inv(h) && Carvable(h, f, size)
    ensures Inv(Carve(h, f, size).0)
  {
    hide All, PoolOf, BlockOf, Layout, Sum, TallyRun, TallyPools, Remove, DirectBytes;
    var h' := Carve(h, f, size).0;
    var k, i := PoolOf(h.pools, f), BlockOf(h.pools, f);
    var n, mid := SizeAt(h.pools, f), CarveRun(h, f, size);
    CarveSplices(h, f, size);
    SplicePlaced(h, h', k, i, i + 1, mid);
    assert Listed(h') by {
      CarveAll(h, f, size);
      RemoveKeeps(h.free, f);
    }
    assert Counted(h') by {
      TallySplicePools(h.pools, k, i, i + 1, mid);
      TallyOfOne(Free(n));
      if Splits(h, f, size) { TallyOfTwo(mid[0], mid[1]); } else { TallyOfOne(mid[0]); }
    }
  }

  // ----- release

  ghost predicate Releasable(bs: seq<Block>, i: nat) {
    WellFormed(bs) && i + 1 < |bs| && bs[i].Used?
  }

  /** Before and after the joined run there is no free block. */
  lemma JoinBounds(bs: seq<Block>, i: nat)
    requires Releasable(bs, i)
    ensures var lo, hi := JoinFrom(bs, i), JoinTo(bs, i);
            && lo <= i < hi < |bs| && i <= lo + 1 && hi <= i + 2
            && (lo > 0 ==> !bs[lo - 1].Free?) && !bs[hi].Free?
            && (lo < i <==> i > 0 && bs[i - 1].Free?)
            && (i + 1 < hi <==> bs[i + 1].Free?)
  {
  }

  /** The joined run, block by block. */
  lemma JoinRun(bs: seq<Block>, i: nat, a: int)
    requires Releasable(bs, i)
    ensures var lo, hi := JoinFrom(bs, i), JoinTo(bs, i);
            var start := JoinAddr(bs, i, a);
            var left := if lo < i then [bs[i - 1]] else [];
            var right := if i + 1 < hi then [bs[i + 1]] else [];
            && Joined(bs, i) == left + [bs[i]] + right
            && Sum(Joined(bs, i)) == Sum(left) + bs[i].Size() + Sum(right)
            && Layout(start, Joined(bs, i)) == Layout(start, left) + map[a := bs[i]] + Layout(a + bs[i].Size(), right)
            && TallyRun(Joined(bs, i)) == TallyRun(left).Plus(TallyBlock(bs[i])).Plus(TallyRun(right))
  {
    hide Layout, Sum, TallyRun;
    JoinBounds(bs, i);
    var lo, hi := JoinFrom(bs, i), JoinTo(bs, i);
    var start := JoinAddr(bs, i, a);
    var left := if lo < i then [bs[i - 1]] else [];
    var right := if i + 1 < hi then [bs[i + 1]] else [];
    assert Joined(bs, i) == left + [bs[i]] + right;
    EmptyRun(start);
    if lo < i { SumOfOne(bs[i - 1]); }
    SumOfOne(bs[i]);
    SumConcat(left, [bs[i]]);
    SumConcat(left + [bs[i]], right);
    LayoutConcat(start, left, [bs[i]]);
    LayoutConcat(start, left + [bs[i]], right);
    TallyOfOne(bs[i]);
    TallyConcat(left, [bs[i]]);
    TallyConcat(left + [bs[i]], right);
  }

  lemma EmptyRun(a: int)
    ensures Sum([]) == 0 && Layout(a, []) == map[] && TallyRun([]) == ZERO
  {
  }

  lemma JoinSize(bs: seq<Block>, i: nat)
    requires Releasable(bs, i)
    ensures BFH <= Sum(Joined(bs, i)) && Sum(Joined(bs, i)) % 4 == 0
  {
    hide Layout, Sum, TallyRun;
    JoinRun(bs, i, 0);
    var lo, hi := JoinFrom(bs, i), JoinTo(bs, i);
    SumPositive(Joined(bs, i));
    SumPositive(if lo < i then [bs[i - 1]] else []);
    SumPositive(if i + 1 < hi then [bs[i + 1]] else []);
  }

  lemma JoinWellFormed(bs: seq<Block>, i: nat)
    requires Releasable(bs, i)
    ensures WellFormed(Splice(bs, JoinFrom(bs, i), JoinTo(bs, i), [Free(Sum(Joined(bs, i)))]))
    ensures Sum([Free(Sum(Joined(bs, i)))]) == Sum(Joined(bs, i))
  {
    hide Layout, Sum;
    JoinBounds(bs, i);
    JoinSize(bs, i);
    SumOfOne(Free(Sum(Joined(bs, i))));
    SpliceWellFormed(bs, JoinFrom(bs, i), JoinTo(bs, i), [Free(Sum(Joined(bs, i)))]);
  }

  /** The joined run starts where `JoinAddr` says. */
  lemma JoinStart(bs: seq<Block>, i: nat, base: int)
    requires Releasable(bs, i)
    ensures JoinAddr(bs, i, base + Sum(bs[..i])) == base + Sum(bs[..JoinFrom(bs, i)])
  {
    hide Layout, Sum;
    if JoinFrom(bs, i) < i {
      NextAddr(bs, i - 1);
    }
  }

  lemma JoinLayout(bs: seq<Block>, i: nat, a: int)
    requires Releasable(bs, i)
    ensures Layout(JoinAddr(bs, i, a), Joined(bs, i)).Keys ==
            {a} + (if JoinFrom(bs, i) < i then {JoinAddr(bs, i, a)} else {})
            + (if i + 1 < JoinTo(bs, i) then {a + bs[i].Size()} else {})
  {
    hide Layout, Sum;
    JoinBounds(bs, i);
    JoinRun(bs, i, a);
    EmptyRun(JoinAddr(bs, i, a));
    EmptyRun(a + bs[i].Size());
    if JoinFrom(bs, i) < i { SumOfOne(bs[i - 1]); }
    if i + 1 < JoinTo(bs, i) { SumOfOne(bs[i + 1]); }
  }

  /** What a release does to one pool: its run becomes a single free block. */
  lemma JoinSplices(h: Heap, a: int)
    requires Placed(h) && UsedAt(h.pools, a)
    ensures var k, i := PoolOf(h.pools, a), BlockOf(h.pools, a);
            && k < |h.pools| && Releasable(h.pools[k].blocks, i)
            && var bs := h.pools[k].blocks;
            && bs[i] == Used(SizeAt(h.pools, a)) && AddrOf(h.pools, k, i) == a
            && Spliceable(h.pools, h.limit, k, JoinFrom(bs, i), JoinTo(bs, i), [Free(Sum(Joined(bs, i)))])
            && AddrOf(h.pools, k, JoinFrom(bs, i)) == JoinAddr(bs, i, a)
  {
    hide All, PoolOf, BlockOf, Layout, Sum;
    UsedBlock(h, a);
    var k, i := PoolOf(h.pools, a), BlockOf(h.pools, a);
    assert h.pools[k].Valid(h.limit);
    var bs := h.pools[k].blocks;
    hide WellFormed;
    JoinBounds(bs, i);
    JoinStart(bs, i, h.pools[k].base);
    JoinWellFormed(bs, i);
  }

  /** A free neighbour joined by a release is on the free list under its own address. */
  lemma JoinNeighbours(h: Heap, a: int)
    requires Placed(h) && UsedAt(h.pools, a)
    ensures var k, i := PoolOf(h.pools, a), BlockOf(h.pools, a);
            && k < |h.pools| && i < |h.pools[k].blocks|
            && var bs := h.pools[k].blocks;
            && (JoinFrom(bs, i) < i ==> FreeAt(h.pools, JoinAddr(bs, i, a)))
            && (i + 1 < JoinTo(bs, i) ==> FreeAt(h.pools, a + bs[i].Size()))
  {
    hide All, PoolOf, BlockOf, Layout, Sum;
    JoinSplices(h, a);
    var k, i := PoolOf(h.pools, a), BlockOf(h.pools, a);
    var bs := h.pools[k].blocks;
    hide WellFormed;
    JoinBounds(bs, i);
    if JoinFrom(bs, i) < i {
      Located(h.pools, h.limit, k, i - 1);
    }
    if i + 1 < JoinTo(bs, i) {
      Located(h.pools, h.limit, k, i + 1);
      NextAddr(bs, i);
    }
  }

  /** What a release does to the blocks of the heap. */
  lemma JoinAll(h: Heap, a: int)
    requires Placed(h) && UsedAt(h.pools, a)
    ensures var k, i := PoolOf(h.pools, a), BlockOf(h.pools, a);
            k < |h.pools| && i < |h.pools[k].blocks|
    ensures var k, i := PoolOf(h.pools, a), BlockOf(h.pools, a);
            var bs := h.pools[k].blocks;
            var s := JoinAddr(bs, i, a);
            All(JoinBlock(h, a).pools)
            == (All(h.pools) - Layout(s, Joined(bs, i)).Keys)[s := Free(Sum(Joined(bs, i)))]
  {
    hide All, PoolOf, BlockOf, Layout, Sum;
    JoinSplices(h, a);
    var k, i := PoolOf(h.pools, a), BlockOf(h.pools, a);
    var bs := h.pools[k].blocks;
    var total, start := Sum(Joined(bs, i)), JoinAddr(bs, i, a);
    SpliceAll(h.pools, h.limit, k, JoinFrom(bs, i), JoinTo(bs, i), [Free(total)]);
    SumOfOne(Free(total));
    PutLast(All(h.pools) - Layout(start, Joined(bs, i)).Keys, start, Free(total));
  }

  lemma PutLast(m: map<int, Block>, x: int, b: Block)
    ensures m + map[x := b] == m[x := b]
  {
  }

  lemma NextAddr(bs: seq<Block>, i: nat)
    requires i < |bs|
    ensures Sum(bs[..i + 1]) == Sum(bs[..i]) + bs[i].Size()
  {
    hide Layout, Sum;
    assert bs[..i + 1] == bs[..i] + [bs[i]];
    SumConcat(bs[..i], [bs[i]]);
    SumOfOne(bs[i]);
  }

  // The joined run seen from the heap.

  function Around(h: Heap, a: int): (seq<Block>, nat) {
    var k := PoolOf(h.pools, a);
    (if k < |h.pools| then h.pools[k].blocks else [], BlockOf(h.pools, a))
  }

  predicate LeftFree(h: Heap, a: int) {
    var (bs, i) := Around(h, a);
    JoinFrom(bs, i) < i
  }

  predicate RightFree(h: Heap, a: int) {
    var (bs, i) := Around(h, a);
    i < |bs| && i + 1 < JoinTo(bs, i)
  }

  function RunStart(h: Heap, a: int): int {
    var (bs, i) := Around(h, a);
    if i < |bs| then JoinAddr(bs, i, a) else a
  }

  function RunSize(h: Heap, a: int): int {
    var (bs, i) := Around(h, a);
    if i < |bs| then Sum(Joined(bs, i)) else 0
  }

  /** The addresses of the blocks a release of `a` joins. */
  function RunKeys(h: Heap, a: int): set<int> {
    {a} + (if LeftFree(h, a) then {RunStart(h, a)} else {})
    + (if RightFree(h, a) then {a + SizeAt(h.pools, a)} else {})
  }

  /**
   A release in all four cases.  The new free block is the released one together with the
   free block that ends where it starts, if there is one, and the free block that starts
   where it ends, if there is one; every other block stays.
   */
  lemma ReleaseJoins(h: Heap, a: int)
    requires Placed(h) && UsedAt(h.pools, a)
    ensures var n, s := SizeAt(h.pools, a), RunStart(h, a);
            && All(JoinBlock(h, a).pools) == (All(h.pools) - RunKeys(h, a))[s := Free(RunSize(h, a))]
            && RunKeys(h, a) <= All(h.pools).Keys
            && (LeftFree(h, a) ==> FreeAt(h.pools, s) && s + SizeAt(h.pools, s) == a)
            && (!LeftFree(h, a) ==> s == a)
            && (RightFree(h, a) <==> FreeAt(h.pools, a + n))
            && s + RunSize(h, a)
               == a + n + (if RightFree(h, a) then SizeAt(h.pools, a + n) else 0)
  {
    hide All, PoolOf, BlockOf, Layout, Sum;
    JoinSplices(h, a);
    JoinAll(h, a);
    JoinNeighbours(h, a);
    var k, i := PoolOf(h.pools, a), BlockOf(h.pools, a);
    var bs := h.pools[k].blocks;
    JoinLayout(bs, i, a);
    JoinEnds(h, a);
  }

  lemma JoinEnds(h: Heap, a: int)
    requires Placed(h) && UsedAt(h.pools, a)
    ensures var n, s := SizeAt(h.pools, a), RunStart(h, a);
            && (LeftFree(h, a) ==> s + SizeAt(h.pools, s) == a)
            && (RightFree(h, a) <==> FreeAt(h.pools, a + n))
            && s + RunSize(h, a)
               == a + n + (if RightFree(h, a) then SizeAt(h.pools, a + n) else 0)
  {
    hide All, PoolOf, BlockOf, Layout, Sum, WellFormed, Arranged, Joined, JoinTo;
    JoinSplices(h, a);
    NeighboursAt(h, a);
    var bs, i := h.pools[PoolOf(h.pools, a)].blocks, BlockOf(h.pools, a);
    JoinBounds(bs, i);
    JoinedSize(bs, i);
  }

  /** The blocks before and after a used one, in the map of all blocks. */
  lemma NeighboursAt(h: Heap, a: int)
    requires Placed(h) && UsedAt(h.pools, a)
    ensures var k, i := PoolOf(h.pools, a), BlockOf(h.pools, a);
            && k < |h.pools| && i + 1 < |h.pools[k].blocks|
            && var bs := h.pools[k].blocks; var all := All(h.pools);
            && (i > 0 ==> a - bs[i - 1].Size() in all && all[a - bs[i - 1].Size()] == bs[i - 1])
            && a + bs[i].Size() in all && all[a + bs[i].Size()] == bs[i + 1]
  {
    hide All, PoolOf, BlockOf, Layout, Sum, WellFormed, Joined, JoinTo, JoinFrom, JoinAddr, Arranged,
         Apart, DirectValid;
    JoinSplices(h, a);
    var k, i := PoolOf(h.pools, a), BlockOf(h.pools, a);
    var bs := h.pools[k].blocks;
    if i > 0 {
      NextAddr(bs, i - 1);
      Located(h.pools, h.limit, k, i - 1);
    }
    NextAddr(bs, i);
    Located(h.pools, h.limit, k, i + 1);
  }

  lemma JoinedSize(bs: seq<Block>, i: nat)
    requires Releasable(bs, i)
    ensures JoinTo(bs, i) <= |bs|
    ensures Sum(Joined(bs, i))
            == (if JoinFrom(bs, i) < i then bs[i - 1].Size() else 0) + bs[i].Size()
               + (if i + 1 < JoinTo(bs, i) then bs[i + 1].Size() else 0)
  {
    hide Layout, Sum;
    JoinBounds(bs, i);
    JoinRun(bs, i, 0);
    EmptyRun(0);
    if JoinFrom(bs, i) < i { SumOfOne(bs[i - 1]); }
    if i + 1 < JoinTo(bs, i) { SumOfOne(bs[i + 1]); }
  }

  /** The list once the released block is on it, or the block before it has absorbed it. */
  function LeftList(h: Heap, a: int): seq<int> {
    if LeftFree(h, a) then h.free else h.free + [a]
  }

  lemma JoinedList(h: Heap, a: int)
    requires Placed(h) && UsedAt(h.pools, a)
    ensures JoinBlock(h, a).free
            == if RightFree(h, a) then Remove(LeftList(h, a), a + SizeAt(h.pools, a)) else LeftList(h, a)
  {
    hide All, PoolOf, BlockOf, Layout, Sum, WellFormed, Remove;
    JoinSplices(h, a);
  }

  lemma JoinListed(h: Heap, a: int)
    requires Placed(h) && Listed(h) && UsedAt(h.pools, a)
    ensures Listed(JoinBlock(h, a))
    ensures |JoinBlock(h, a).free|
            == |h.free| + 1 - (if LeftFree(h, a) then 1 else 0) - (if RightFree(h, a) then 1 else 0)
    ensures RunStart(h, a) in JoinBlock(h, a).free
  {
    hide All, Remove, Placed, RunSize, LeftFree, RightFree, RunStart, JoinBlock;
    ReleaseJoins(h, a);
    JoinedList(h, a);
    UsedBlock(h, a);
    if LeftFree(h, a) {
      FreeBlock(h, RunStart(h, a));
    } else {
      AppendDistinct(h.free, a);
    }
    if RightFree(h, a) {
      RemoveKeeps(LeftList(h, a), a + SizeAt(h.pools, a));
    }
  }

  lemma JoinCounted(h: Heap, a: int)
    requires Placed(h) && Counted(h) && UsedAt(h.pools, a)
    ensures Counted(JoinBlock(h, a))
  {
    hide All, PoolOf, BlockOf, Layout, Sum, TallyRun, TallyPools;
    JoinSplices(h, a);
    var k, i := PoolOf(h.pools, a), BlockOf(h.pools, a);
    var bs := h.pools[k].blocks;
    var lo, hi := JoinFrom(bs, i), JoinTo(bs, i);
    JoinBounds(bs, i);
    JoinRun(bs, i, a);
    TallySplicePools(h.pools, k, lo, hi, [Free(Sum(Joined(bs, i)))]);
    TallyOfOne(Free(Sum(Joined(bs, i))));
    EmptyRun(a);
    if lo < i { TallyOfOne(bs[i - 1]); }
    if i + 1 < hi { TallyOfOne(bs[i + 1]); }
  }

  lemma JoinKeeps(h: Heap, a: int)
    requires Inv(h) && UsedAt(h.pools, a)
    ensures Inv(JoinBlock(h, a))
  {
    hide All, PoolOf, BlockOf, Layout, Sum, TallyRun, TallyPools, Remove, Counted, Listed;
    JoinSplices(h, a);
    var k, i := PoolOf(h.pools, a), BlockOf(h.pools, a);
    var bs := h.pools[k].blocks;
    SplicePlaced(h, JoinBlock(h, a), k, JoinFrom(bs, i), JoinTo(bs, i), [Free(Sum(Joined(bs, i)))]);
    JoinListed(h, a);
    JoinCounted(h, a);
  }

  // ----- handing back a pool

  /** A block that is as long as its pool without the sentinel is the only one in it. */
  lemma OnlyBlock(bs: seq<Block>, i: nat)
    requires WellFormed(bs) && i + 1 < |bs| && bs[i].Size() == Sum(bs) - BH
    ensures i == 0 && |bs| == 2
  {
    hide Layout, Sum;
    var p, q := bs[..i], bs[i + 1..];
    assert bs == p + [bs[i]] + q;
    SumConcat(p, [bs[i]]);
    SumConcat(p + [bs[i]], q);
    SumOfOne(bs[i]);
    SumPositive(p);
    SumPositive(q);
    var r, last := q[..|q| - 1], q[|q| - 1];
    assert q == r + [last] && last.Sentinel?;
    SumConcat(r, [last]);
    SumOfOne(last);
    SumPositive(r);
  }

  /** Pool k is one free block and its sentinel. */
  predicate Empty(p: Pool) {
    |p.blocks| == 2 && p.blocks[0].Free?
  }

  lemma EmptyPool(p: Pool, limit: int)
    requires p.Valid(limit) && Empty(p)
    ensures p.blocks == [Free(p.Len() - BH), Sentinel]
    ensures p.Map() == map[p.base := Free(p.Len() - BH)] + map[p.End() - BH := Sentinel]
    ensures TallyRun(p.blocks) == Tally(0, 0, p.Len() - BH)
    ensures p.Len() - BH >= BFH
  {
    hide Layout, Sum, TallyRun;
    assert p.blocks == [p.blocks[0], p.blocks[1]];
    SumOfTwo(p.blocks[0], p.blocks[1]);
    TallyOfTwo(p.blocks[0], p.blocks[1]);
  }

  lemma DropKeepsInv(h: Heap, k: nat)
    requires Inv(h) && k < |h.pools| && Empty(h.pools[k])
    ensures Inv(DropPool(h, k, h.pools[k].base))
    ensures All(DropPool(h, k, h.pools[k].base).pools) == All(h.pools) - h.pools[k].Map().Keys
    ensures FreeAt(h.pools, h.pools[k].base)
  {
    hide All, PoolOf, Layout, Sum, TallyRun, TallyPools, Remove, Dropped, WellFormed;
    var p := h.pools[k];
    var h' := DropPool(h, k, p.base);
    assert p.Valid(h.limit);
    EmptyPool(p, h.limit);
    assert p.base in p.Map() && p.Map()[p.base].Free?;
    AllHas(h.pools, h.limit, k, p.base);
    AllHas(h.pools, h.limit, k, p.End() - BH);
    DropAll(h.pools, h.limit, k);
    RemoveKeeps(h.free, p.base);
    DropPlaced(h, h', k);
    TallyDrop(h.pools, k);
    DropLength(h.pools, k);
  }

  lemma DropPlaced(h: Heap, h': Heap, k: nat)
    requires Placed(h) && LengthsAgree(h) && k < |h.pools|
    requires h'.head == h.head && h'.limit == h.limit && h'.direct == h.direct && h'.ctl == h.ctl
    requires h'.pools == Dropped(h.pools, k)
    ensures Placed(h') && LengthsAgree(h')
  {
    hide All, Layout, Sum, WellFormed;
    DropArranged(h.pools, h.limit, k);
    forall d | 0 <= d < |h'.direct| ensures DirectValid(h', h'.direct[d]) {
      assert DirectValid(h, h.direct[d]);
    }
  }

  /** The test that decides whether a pool is handed back is met exactly by a pool that has become one block. */
  lemma WholePoolTest(h: Heap, k: nat, i: nat)
    requires Placed(h) && LengthsAgree(h) && k < |h.pools| && i + 1 < |h.pools[k].blocks|
    requires h.pools[k].blocks[i].Free?
    ensures WholePool(h, h.pools[k].blocks[i].size) <==> h.ctl.release && h.ctl.poolLen > 0 && Empty(h.pools[k])
    ensures Empty(h.pools[k]) ==> i == 0
  {
    hide Layout, Sum;
    var p := h.pools[k];
    assert p.Valid(h.limit);
    var n := p.blocks[i].size;
    BlockFits(p.blocks, i);
    if Empty(p) {
      EmptyPool(p, h.limit);
    }
    if n == Sum(p.blocks) - BH {
      OnlyBlock(p.blocks, i);
    }
  }

  lemma BlockFits(bs: seq<Block>, i: nat)
    requires Sized(bs) && i < |bs|
    ensures 0 < bs[i].Size() <= Sum(bs)
  {
    hide Layout, Sum;
    var p, q := bs[..i], bs[i + 1..];
    assert bs == p + [bs[i]] + q;
    SumConcat(p, [bs[i]]);
    SumConcat(p + [bs[i]], q);
    SumOfOne(bs[i]);
    SumPositive(p);
    SumPositive(q);
  }

  /** After the join, the joined block is where the free list says it is. */
  lemma JoinedBlock(h: Heap, a: int)
    requires Placed(h) && UsedAt(h.pools, a)
    ensures var h1, s := JoinBlock(h, a), RunStart(h, a); var k := PoolOf(h.pools, a);
            && Placed(h1) && k < |h1.pools| == |h.pools|
            && FreeAt(h1.pools, s) && SizeAt(h1.pools, s) == RunSize(h, a)
            && PoolOf(h1.pools, s) == k
            && var i := BlockOf(h1.pools, s);
            && i + 1 < |h1.pools[k].blocks| && h1.pools[k].blocks[i] == Free(RunSize(h, a))
            && AddrOf(h1.pools, k, i) == s
  {
    hide All, PoolOf, BlockOf, Layout, Sum;
    JoinSplices(h, a);
    var h1 := JoinBlock(h, a);
    var k, i := PoolOf(h.pools, a), BlockOf(h.pools, a);
    var bs := h.pools[k].blocks;
    var lo, hi := JoinFrom(bs, i), JoinTo(bs, i);
    var mid := [Free(Sum(Joined(bs, i)))];
    hide WellFormed;
    SplicePlaced(h, h1, k, lo, hi, mid);
    SpliceIndex(bs, lo, hi, mid, lo);
    assert Splice(bs, lo, hi, mid)[..lo] == bs[..lo];
    Located(h1.pools, h1.limit, k, lo);
  }

  lemma RelPooledKeeps(h: Heap, a: int)
    requires Inv(h) && UsedAt(h.pools, a)
    ensures Inv(RelPooled(h, a))
  {
    hide All, PoolOf, BlockOf, Layout, Sum, TallyRun, TallyPools, Remove, Dropped, WellFormed;
    JoinKeeps(h, a);
    JoinedBlock(h, a);
    JoinSplices(h, a);
    var h1 := JoinBlock(h, a);
    var s := RunStart(h, a);
    var k, i := PoolOf(h1.pools, s), BlockOf(h1.pools, s);
    WholePoolTest(h1, k, i);
    if Empty(h1.pools[k]) {
      EmptyRun(0);
      assert h1.pools[k].blocks[..0] == [];
      DropKeepsInv(h1, k);
    }
  }

  // ----- direct blocks, new pools

  lemma RelDirectKeeps(h: Heap, j: nat)
    requires Inv(h) && j < |h.direct|
    ensures Inv(RelDirect(h, j))
  {
    hide FreeAt, TallyPools, DirectBytes, Placed;
    DirectDrop(h.direct, j);
    RelDirectPlaced(h, j);
  }

  lemma RelDirectPlaced(h: Heap, j: nat)
    requires Placed(h) && j < |h.direct|
    ensures Placed(RelDirect(h, j))
  {
    hide Arranged, Apart, DirectValid;
    var h' := RelDirect(h, j);
    forall d | 0 <= d < |h'.direct| ensures h'.direct[d] == h.direct[if d < j then d else d + 1] {
    }
    forall d | 0 <= d < |h'.direct| ensures DirectValid(h', h'.direct[d]) {
      SameValid(h, h', h'.direct[d]);
    }
  }

  lemma SameValid(h: Heap, h': Heap, d: Direct)
    requires DirectValid(h, d) && h'.head == h.head && h'.limit == h.limit && h'.pools == h.pools
    ensures DirectValid(h', d)
  {
  }

  lemma RelKeeps(h: Heap, buf: int)
    requires Inv(h) && IsLive(h, buf)
    ensures Inv(Rel(h, buf))
  {
    hide Inv, RelPooled, RelDirect;
    if LivePooled(h, buf) {
      RelPooledKeeps(h, buf - BH);
    } else {
      RelDirectKeeps(h, DirectOf(h.direct, buf - BDH));
    }
  }

  predicate DirectRegion(h: Heap, addr: int, size: int) {
    && 0 < addr && addr % 4 == 0 && addr + size <= h.limit
    && BDH + SIZEQ <= size <= MAX_SIZE && size % 4 == 0
    && Unowned(h, addr, addr + size)
  }

  lemma AddDirectKeeps(h: Heap, addr: int, size: int)
    requires Inv(h) && DirectRegion(h, addr, size)
    ensures Inv(AddDirect(h, addr, size))
  {
    hide All, PoolOf, BlockOf, Layout, Sum, TallyRun, TallyPools, DirectBytes;
    var h' := AddDirect(h, addr, size);
    DirectAppend(h.direct, Direct(addr, size));
    forall d | 0 <= d < |h'.direct| ensures DirectValid(h', h'.direct[d]) {
      if d < |h.direct| {
        assert DirectValid(h, h.direct[d]);
      }
    }
  }

  function NewPool(base: int, len: int): Pool {
    Pool(base, [Free(Mask(len) - BH), Sentinel])
  }

  lemma NewPoolValid(base: int, len: int, limit: int)
    requires 0 < base && base % 4 == 0 && BFH + BH <= Mask(len) && len <= MAX_SIZE && base + Mask(len) <= limit
    ensures NewPool(base, len).Valid(limit) && NewPool(base, len).Len() == Mask(len)
    ensures NewPool(base, len).Map() == map[base := Free(Mask(len) - BH)] + map[base + Mask(len) - BH := Sentinel]
    ensures TallyRun(NewPool(base, len).blocks) == Tally(0, 0, Mask(len) - BH)
  {
    hide Layout, Sum, TallyRun;
    var b, c := Free(Mask(len) - BH), Sentinel;
    SumOfTwo(b, c);
    TallyOfTwo(b, c);
  }

  lemma AddPoolPlaced(h: Heap, base: int, len: int)
    requires Placed(h) && PoolRegion(h, base, len)
    ensures Placed(AddPool(h, base, len))
  {
    hide All, PoolOf, BlockOf, Layout, Sum, TallyRun, TallyPools, WellFormed;
    NewPoolValid(base, len, h.limit);
    var h' := AddPool(h, base, len);
    forall d | 0 <= d < |h'.direct| ensures DirectValid(h', h'.direct[d]) {
      assert DirectValid(h, h.direct[d]);
    }
  }

  lemma AddPoolAll(h: Heap, base: int, len: int)
    requires Placed(h) && PoolRegion(h, base, len)
    ensures All(AddPool(h, base, len).pools)
            == All(h.pools)[base := Free(Mask(len) - BH)][base + Mask(len) - BH := Sentinel]
  {
    hide All, PoolOf, BlockOf, Layout, Sum;
    NewPoolValid(base, len, h.limit);
    AllAppend(h.pools, NewPool(base, len));
    AddTwo(All(h.pools), base, Free(Mask(len) - BH), base + Mask(len) - BH, Sentinel);
  }

  lemma AddPoolFresh(h: Heap, base: int, len: int)
    requires Placed(h) && PoolRegion(h, base, len)
    ensures base !in All(h.pools) && base + Mask(len) - BH !in All(h.pools)
  {
    hide All, PoolOf, BlockOf, Layout, Sum;
    NotInPools(h, base, base + Mask(len), base);
    NotInPools(h, base, base + Mask(len), base + Mask(len) - BH);
  }

  lemma AddTwo(m: map<int, Block>, x: int, b: Block, y: int, c: Block)
    ensures m + (map[x := b] + map[y := c]) == m[x := b][y := c]
  {
  }

  /** No block starts in storage the allocator does not own. */
  lemma NotInPools(h: Heap, lo: int, hi: int, x: int)
    requires Placed(h) && Unowned(h, lo, hi) && lo <= x < hi
    ensures x !in All(h.pools)
  {
    hide All, PoolOf, BlockOf, Layout, Sum, WellFormed;
    if x in All(h.pools) {
      AllOwner(h.pools, h.limit, x);
      assert false;
    }
  }

  lemma AddPoolKeeps(h: Heap, base: int, len: int)
    requires Inv(h) && PoolRegion(h, base, len)
    ensures Inv(AddPool(h, base, len))
  {
    hide All, PoolOf, BlockOf, Layout, Sum, TallyRun, TallyPools, Placed, WellFormed;
    AddPoolPlaced(h, base, len);
    AddPoolAll(h, base, len);
    AddPoolFresh(h, base, len);
    AppendDistinct(h.free, base);
    NewPoolValid(base, len, h.limit);
    TallyAppend(h.pools, NewPool(base, len));
  }

  // ----- call-backs and bget

  /** What `bectl` sets is no part of the heap's shape. */
  lemma CtlKeeps(h: Heap, h': Heap)
    requires Inv(h) && h' == h.(ctl := h'.ctl) && h'.ctl.poolLen == h.ctl.poolLen
    requires h'.ctl.acquire ==> h'.ctl.expIncr >= BH
    ensures Inv(h')
  {
    hide Arranged, FreeAt, TallyPools, DirectBytes;
    forall d | 0 <= d < |h'.direct| ensures DirectValid(h', h'.direct[d]) {
      assert DirectValid(h, h.direct[d]);
    }
  }

  lemma {:induction false} BestHolds(h: Heap, size: int, j: nat)
    requires j <= |h.free|
    ensures var b := BestUpTo(h, size, j); b >= 0 ==> SizeAt(h.pools, h.free[b]) >= size
  {
    if j > 0 {
      BestHolds(h, size, j - 1);
    }
  }

  lemma TakeBestKeeps(h: Heap, size: int)
    requires Inv(h) && size >= BFH && size % 4 == 0
    ensures Inv(TakeBest(h, size).0)
    ensures Best(h, size) >= 0 ==> Carvable(h, h.free[Best(h, size)], size)
  {
    hide BestUpTo, All, PoolOf, BlockOf, Sum, Carve;
    BestHolds(h, size, |h.free|);
    if Best(h, size) >= 0 {
      CarveKeeps(h, h.free[Best(h, size)], size);
    }
  }

  predicate Requested(size: int) {
    BFH <= size <= MAX_SIZE - (BDH - BH) && size % 4 == 0
  }

  lemma ExpandKeeps(h: Heap, size: int, acquired: int)
    requires Inv(h) && Requested(size) && AcquiredLegal(h, size, acquired)
    ensures Inv(Expand(h, size, acquired).0)
  {
    hide Inv, TakeBest, AddPool, AddDirect, PoolRegion;
    if h.ctl.acquire && acquired != 0 {
      if FitsExpansion(h, size) {
        AddPoolKeeps(h, acquired, h.ctl.expIncr);
        TakeBestKeeps(AddPool(h, acquired, h.ctl.expIncr), size);
      } else {
        AddDirectKeeps(h, acquired, size + (BDH - BH));
      }
    }
  }
}
