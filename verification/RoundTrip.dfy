/** Allocate, then release: the identity. */
module RoundTrip {
  import opened Memory
  import opened Blocks
  import opened Pools
  import opened Heap
  import opened HeapFacts
  import opened Image
  import opened Live
  import opened Frames
  import opened Joins
  import opened Client

  /** The heap after an allocation of `size` bytes from `f` and the release of what it returned. */
  function ThereAndBack(h: Heap, f: int, size: int): Heap {
    JoinBlock(Carve(h, f, size).0, Carve(h, f, size).1 - BH)
  }

  /** Joining the cut-off tail again undoes the cut. */
  lemma RejoinSplit(bs: seq<Block>, i: nat, n: int, size: int)
    requires WellFormed(bs) && i + 1 < |bs| && bs[i] == Free(n) && BFH <= size && n - size >= BFH
    requires n % 4 == 0 && size % 4 == 0
    ensures var bs1 := Splice(bs, i, i + 1, [Free(n - size), Used(size)]);
            && i + 1 < |bs1| && bs1[i + 1] == Used(size)
            && JoinFrom(bs1, i + 1) == i && JoinTo(bs1, i + 1) == i + 2
            && Splice(bs1, i, i + 2, [Free(Sum(Joined(bs1, i + 1)))]) == bs
            && Sum(bs1[..i + 1]) == Sum(bs[..i]) + (n - size)
  {
    hide Sum, Layout;
    var mid := [Free(n - size), Used(size)];
    var bs1 := Splice(bs, i, i + 1, mid);
    assert bs1[i] == mid[0] && bs1[i + 1] == mid[1];
    assert bs1[i + 2] == bs[i + 1];
    assert Joined(bs1, i + 1) == mid;
    SumOfTwo(mid[0], mid[1]);
    assert bs1[..i] == bs[..i] && bs1[i + 2..] == bs[i + 1..];
    assert bs1[..i + 1] == bs[..i] + [mid[0]];
    SumConcat(bs[..i], [mid[0]]);
    SumOfOne(mid[0]);
  }

  /** So does giving back a block that was taken whole. */
  lemma RejoinWhole(bs: seq<Block>, i: nat, n: int)
    requires WellFormed(bs) && i + 1 < |bs| && bs[i] == Free(n)
    ensures var bs1 := Splice(bs, i, i + 1, [Used(n)]);
            && i < |bs1| && bs1[i] == Used(n)
            && JoinFrom(bs1, i) == i && JoinTo(bs1, i) == i + 1
            && Splice(bs1, i, i + 1, [Free(Sum(Joined(bs1, i)))]) == bs
            && Sum(bs1[..i]) == Sum(bs[..i])
  {
    hide Sum, Layout;
    var bs1 := Splice(bs, i, i + 1, [Used(n)]);
    assert bs1[i] == Used(n) && bs1[i + 1] == bs[i + 1];
    assert i > 0 ==> bs1[i - 1] == bs[i - 1];
    assert Joined(bs1, i) == [Used(n)];
    SumOfOne(Used(n));
    assert bs1[..i] == bs[..i] && bs1[i + 1..] == bs[i + 1..];
  }

  /**
   Allocating from the pools and releasing again restores every pool, and the free list too
   if the block was split; if it was taken whole, its block has moved to the tail of the list.
   Of the counters only the numbers of gets and releases have moved.
   */
  lemma RoundTripHeap(h: Heap, f: int, size: int)
    requires Inv(h) && Carvable(h, f, size)
    ensures var h2 := ThereAndBack(h, f, size);
            && h2.head == h.head && h2.limit == h.limit
            && h2.pools == h.pools && h2.direct == h.direct && h2.ctl == h.ctl
            && h2.free == (if Splits(h, f, size) then h.free else Remove(h.free, f) + [f])
            && h2.stats == h.stats.(numget := h.stats.numget + 1, numrel := h.stats.numrel + 1)
  {
    hide Inv, Carvable, Splits, ThereAndBack, Remove, SizeAt;
    if Splits(h, f, size) { SplitAndBack(h, f, size); } else { WholeAndBack(h, f, size); }
  }

  /** The block cut off, found again in the heap after the allocation. */
  lemma SplitPlace(h: Heap, f: int, size: int)
    requires Inv(h) && Carvable(h, f, size) && Splits(h, f, size)
    ensures var h1, k, i, n := Carve(h, f, size).0, PoolOf(h.pools, f), BlockOf(h.pools, f), SizeAt(h.pools, f);
            && k < |h.pools| && i + 1 < |h.pools[k].blocks| && h.pools[k].blocks[i] == Free(n)
            && WellFormed(h.pools[k].blocks) && BFH <= size && n - size >= BFH && n % 4 == 0 && size % 4 == 0
            && h1.pools == SplicePools(h.pools, k, i, i + 1, [Free(n - size), Used(size)])
            && PoolOf(h1.pools, f + (n - size)) == k && BlockOf(h1.pools, f + (n - size)) == i + 1
            && LivePooled(h1, f + (n - size) + BH)
  {
    hide All, PoolOf, BlockOf, Layout, Sum, WellFormed, Remove, Counted, LengthsAgree;
    var h1 := Carve(h, f, size).0;
    var k, i, n := PoolOf(h.pools, f), BlockOf(h.pools, f), SizeAt(h.pools, f);
    FreeBlock(h, f);
    CarveSplices(h, f, size);
    CarveKeeps(h, f, size);
    assert h.pools[k].Valid(h.limit);
    RejoinSplit(h.pools[k].blocks, i, n, size);
    Located(h1.pools, h1.limit, k, i + 1);
  }

  lemma SplitAndBack(h: Heap, f: int, size: int)
    requires Inv(h) && Carvable(h, f, size) && Splits(h, f, size)
    ensures ThereAndBack(h, f, size)
            == h.(stats := h.stats.(numget := h.stats.numget + 1, numrel := h.stats.numrel + 1))
  {
    hide Inv, Carvable, All, PoolOf, BlockOf, SizeAt, Sum, WellFormed, Remove, LivePooled;
    var k, i, n := PoolOf(h.pools, f), BlockOf(h.pools, f), SizeAt(h.pools, f);
    SplitPlace(h, f, size);
    RejoinSplit(h.pools[k].blocks, i, n, size);
    BackToPools(h.pools, k, i, i + 1, [Free(n - size), Used(size)], i, i + 2);
  }

  lemma WholeAndBack(h: Heap, f: int, size: int)
    requires Inv(h) && Carvable(h, f, size) && !Splits(h, f, size)
    ensures ThereAndBack(h, f, size)
            == h.(free := Remove(h.free, f) + [f],
                  stats := h.stats.(numget := h.stats.numget + 1, numrel := h.stats.numrel + 1))
  {
    hide All, PoolOf, BlockOf, Layout, Sum, WellFormed, Remove, Counted, LengthsAgree;
    var h1 := Carve(h, f, size).0;
    var k, i := PoolOf(h.pools, f), BlockOf(h.pools, f);
    var n := SizeAt(h.pools, f);
    FreeBlock(h, f);
    CarveSplices(h, f, size);
    CarveKeeps(h, f, size);
    var bs := h.pools[k].blocks;
    assert h.pools[k].Valid(h.limit);
    RejoinWhole(bs, i, n);
    Located(h1.pools, h1.limit, k, i);
    BackToPools(h.pools, k, i, i + 1, [Used(n)], i, i + 1);
  }

  lemma BackToPools(pools: seq<Pool>, k: nat, i: nat, j: nat, mid: seq<Block>, i': nat, j': nat)
    requires k < |pools| && i <= j <= |pools[k].blocks|
    requires i' <= j' <= |Splice(pools[k].blocks, i, j, mid)|
    ensures forall back :: Splice(Splice(pools[k].blocks, i, j, mid), i', j', back) == pools[k].blocks ==>
              SplicePools(SplicePools(pools, k, i, j, mid), k, i', j', back) == pools
  {
  }

  /** With no release function `brel` is the join. */
  lemma RelIsJoin(h: Heap, buf: int)
    requires LivePooled(h, buf) && Inv(h) && !h.ctl.release
    ensures Rel(h, buf) == JoinBlock(h, buf - BH)
  {
    hide JoinBlock, RunSize, RunStart, Inv;
    RelPooledCases(h, buf - BH);
    JoinStats(h, buf - BH);
  }

  // ----- the image determines memory

  /** Is `x` a link field of a free block of the run? */
  predicate LinkField(a: int, bs: seq<Block>, x: int)
    decreases bs
  {
    bs != [] && ((bs[0].Free? && (x == a + FLINK || x == a + BLINK)) || LinkField(a + bs[0].Size(), bs[1..], x))
  }

  /** Two memories that show the same run agree on all of it but client data and links. */
  lemma {:induction false} RunDetermines(m: Words, m': Words, a: int, tag: int, bs: seq<Block>, x: int)
    requires Sized(bs) && a % 4 == 0 && RunAt(m, a, tag, bs) && RunAt(m', a, tag, bs)
    requires a <= x < a + Sum(bs) && x % 4 == 0
    ensures Payload(a, bs, x) || LinkField(a, bs, x) || At(m', x) == At(m, x)
    decreases bs
  {
    if bs != [] {
      assert bs[0].Sized();
      var a' := a + bs[0].Size();
      if x < a' {
        BlockDetermines(m, m', a, tag, bs[0], x);
      } else {
        RunDetermines(m, m', a', bs[0].Tag(), bs[1..], x);
      }
    }
  }

  lemma BlockDetermines(m: Words, m': Words, a: int, tag: int, b: Block, x: int)
    requires b.Sized() && a % 4 == 0 && BlockAt(m, a, tag, b) && BlockAt(m', a, tag, b)
    requires a <= x < a + b.Size() && x % 4 == 0
    ensures || (b.Used? && a + BH <= x)
            || (b.Free? && (x == a + FLINK || x == a + BLINK))
            || At(m', x) == At(m, x)
  {
    if b.Free? && x >= a + BFH {
      assert At(m, x) == WIPED && At(m', x) == WIPED;
    }
  }

  lemma {:induction false} LinkFieldBlock(a: int, bs: seq<Block>, x: int)
    requires Sized(bs) && LinkField(a, bs, x)
    ensures exists f :: f in Layout(a, bs) && Layout(a, bs)[f].Free? && (x == f + FLINK || x == f + BLINK)
    decreases bs
  {
    LayoutHead(a, bs);
    var a' := a + bs[0].Size();
    LayoutInside(a', bs[1..]);
    if bs[0].Free? && (x == a + FLINK || x == a + BLINK) {
      assert a in Layout(a, bs) && Layout(a, bs)[a] == bs[0];
    } else {
      LinkFieldBlock(a', bs[1..], x);
      var f :| f in Layout(a', bs[1..]) && Layout(a', bs[1..])[f].Free? && (x == f + FLINK || x == f + BLINK);
      assert f in Layout(a, bs) && Layout(a, bs)[f] == Layout(a', bs[1..])[f];
    }
  }

  /** Two memories that show the same pool agree on all of it but client data and links. */
  lemma PoolDetermined(m: Words, m': Words, h: Heap, h': Heap, k: nat, x: int)
    requires Placed(h) && ImageOf(m, h) && ImageOf(m', h') && h'.pools == h.pools
    requires k < |h.pools| && h.pools[k].base <= x < h.pools[k].End() && x % 4 == 0
    ensures var p := h.pools[k];
            Payload(p.base, p.blocks, x) || LinkField(p.base, p.blocks, x) || At(m', x) == At(m, x)
  {
    hide Sum, Layout, RunAt, Linked, DirectAt;
    var p := h.pools[k];
    assert p.Valid(h.limit);
    assert PoolAt(m, p) && PoolAt(m', h'.pools[k]);
    RunDetermines(m, m', p.base, 0, p.blocks, x);
  }

  /** If the lists agree as well, so do the links. */
  lemma LinksDetermined(m: Words, m': Words, h: Heap, h': Heap, k: nat, x: int)
    requires Placed(h) && Listed(h) && ImageOf(m, h) && ImageOf(m', h')
    requires h'.head == h.head && h'.free == h.free
    requires k < |h.pools| && LinkField(h.pools[k].base, h.pools[k].blocks, x)
    ensures At(m', x) == At(m, x)
  {
    hide Sum, Layout, PoolAt, DirectAt, All, LinkField, PoolOf;
    var p := h.pools[k];
    assert p.Valid(h.limit);
    LinkFieldBlock(p.base, p.blocks, x);
    var f :| f in Layout(p.base, p.blocks) && Layout(p.base, p.blocks)[f].Free? && (x == f + FLINK || x == f + BLINK);
    AllHas(h.pools, h.limit, k, f);
    assert f in h.free;
    var j := IndexOf(h.free, f);
    var c := Circle(h.head, h.free);
    assert c[j + 1] == f;
    assert At(m, c[j + 1] + BLINK) == c[j] && At(m, c[j + 1] + FLINK) == c[j + 2];
    assert At(m', c[j + 1] + BLINK) == c[j] && At(m', c[j + 1] + FLINK) == c[j + 2];
  }

  /** Client data of a live buffer: which buffer, and where in it. */
  lemma PayloadLive(h: Heap, k: nat, x: int)
    requires Placed(h) && k < |h.pools| && Payload(h.pools[k].base, h.pools[k].blocks, x)
    ensures exists b :: LivePooled(h, b) && b <= x < b + Usable(h, b)
  {
    hide Sum, Layout, All, Payload, PoolOf;
    var p := h.pools[k];
    assert p.Valid(h.limit);
    var u := PayloadBlock(p.base, p.blocks, x);
    AllHas(h.pools, h.limit, k, u);
    assert LivePooled(h, u + BH) && u + BH <= x < u + BH + Usable(h, u + BH);
  }

  /**
   Byte for byte: `m` is memory before the allocation, `m1` after it, `m2` after the client
   has written what it likes in the new buffer, and `m3` after the release.  What the contracts
   of `Bget` and `Brel` say of those four is enough for every aligned word of every pool to be
   back, except, if the block was taken whole, the links of the free blocks.
   */
  lemma RoundTripWords(m: Words, m1: Words, m2: Words, m3: Words, h: Heap, f: int, size: int, k: nat, x: int)
    requires Inv(h) && Carvable(h, f, size) && !h.ctl.release && ImageOf(m, h)
    requires var (h1, buf) := Carve(h, f, size); var h3 := Rel(h1, buf);
             && Kept(m, m1, h, h1, {buf}) && Kept(m1, m2, h1, h1, {buf}) && Kept(m2, m3, h1, h3, {buf})
             && ImageOf(m3, h3)
    requires k < |h.pools| && h.pools[k].base <= x < h.pools[k].End() && x % 4 == 0
    ensures At(m3, x) == At(m, x) || (!Splits(h, f, size) && LinkField(h.pools[k].base, h.pools[k].blocks, x))
  {
    hide All, Sum, Layout, Carve, Carvable, ImageOf, Kept, Payload, LinkField, Splits, JoinBlock, Remove, Listed,
         LengthsAgree, Counted, LivePooled, Usable, Rel;
    var (h1, buf) := Carve(h, f, size);
    var h3 := Rel(h1, buf);
    RoundTripHeap(h, f, size);
    CarveFresh(h, f, size);
    CarveKeeps(h, f, size);
    RelIsJoin(h1, buf);
    PoolDetermined(m, m3, h, h3, k, x);
    if Payload(h.pools[k].base, h.pools[k].blocks, x) {
      PayloadLive(h, k, x);
      var b :| LivePooled(h, b) && b <= x < b + Usable(h, b);
      KeptTrans(m, m1, m2, h, h1, h1, {buf}, {buf});
      KeptTrans(m, m2, m3, h, h1, h3, {buf} + {buf}, {buf});
      KeptWord(m, m3, h, h3, {buf} + {buf} + {buf}, b, x);
    } else if LinkField(h.pools[k].base, h.pools[k].blocks, x) && Splits(h, f, size) {
      LinksDetermined(m, m3, h, h3, k, x);
    }
  }

  lemma CarveFresh(h: Heap, f: int, size: int)
    requires Inv(h) && Carvable(h, f, size)
    ensures var (h', buf) := Carve(h, f, size);
            !LivePooled(h, buf) && LivePooled(h', buf) && h'.ctl == h.ctl && h'.head == h.head && h'.limit == h.limit
  {
    hide Inv, Carvable;
    CarveLive(h, f, size);
  }

  lemma KeptWord(m: Words, m': Words, h: Heap, h': Heap, but: set<int>, b: int, x: int)
    requires Kept(m, m', h, h', but) && b !in but && LivePooled(h, b) && b <= x < b + Usable(h, b) && x % 4 == 0
    ensures At(m', x) == At(m, x)
  {
    hide LivePooled, Usable, SameLive;
  }
}
