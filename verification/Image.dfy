/**
 What memory looks like when it holds a heap: the headers of every block of every pool,
 the wiped bodies of free blocks, the links of the free list, and the headers of the
 directly acquired blocks.
 */
module Image {
  import opened Memory
  import opened Blocks
  import opened Pools
  import opened Heap
  import opened HeapFacts

  const WIPED := 0x5555_5555

  // Offsets of the fields of struct bfhead and struct bdhead.
  const PREVFREE := 0
  const BSIZE := 4
  const FLINK := 8
  const BLINK := 12
  const TSIZE := 0

  predicate HeaderAt(m: Words, a: int, tag: int, b: Block) {
    At(m, a + PREVFREE) == tag && At(m, a + BSIZE) == ToWord(b.Field())
  }

  /** The body of a free block after its links holds nothing but 0x55. */
  ghost predicate WipedAt(m: Words, lo: int, hi: int) {
    forall x :: lo <= x < hi && x % 4 == 0 ==> At(m, x) == WIPED
  }

  ghost predicate BlockAt(m: Words, a: int, tag: int, b: Block) {
    HeaderAt(m, a, tag, b) && (b.Free? ==> WipedAt(m, a + BFH, a + b.size))
  }

  /** A run of blocks from address `a`; `tag` is what its first header says about the block before. */
  ghost predicate RunAt(m: Words, a: int, tag: int, bs: seq<Block>)
    decreases bs
  {
    bs != [] ==> BlockAt(m, a, tag, bs[0]) && RunAt(m, a + bs[0].Size(), bs[0].Tag(), bs[1..])
  }

  ghost predicate PoolAt(m: Words, p: Pool) {
    RunAt(m, p.base, 0, p.blocks)
  }

  /** The list head, the free blocks in list order, and the list head again. */
  function Circle(head: int, free: seq<int>): seq<int> {
    [head] + free + [head]
  }

  /** Each node points forward to the next and backward to the previous. */
  ghost predicate Linked(m: Words, c: seq<int>) {
    forall i :: 0 < i < |c| ==> At(m, c[i - 1] + FLINK) == c[i] && At(m, c[i] + BLINK) == c[i - 1]
  }

  predicate DirectAt(m: Words, d: Direct) {
    && At(m, d.addr + TSIZE) == d.size
    && At(m, d.addr + (BDH - BH) + PREVFREE) == 0
    && At(m, d.addr + (BDH - BH) + BSIZE) == 0
  }

  ghost predicate ImageOf(m: Words, h: Heap) {
    && (forall k :: 0 <= k < |h.pools| ==> PoolAt(m, h.pools[k]))
    && Linked(m, Circle(h.head, h.free))
    && (forall j :: 0 <= j < |h.direct| ==> DirectAt(m, h.direct[j]))
  }

  // ----- runs

  lemma {:induction false} RunConcat(m: Words, a: int, tag: int, x: seq<Block>, y: seq<Block>)
    ensures RunAt(m, a, tag, x + y) <==> RunAt(m, a, tag, x) && RunAt(m, a + Sum(x), LastTag(tag, x), y)
    decreases x
  {
    hide BlockAt;
    if x == [] {
      assert x + y == y;
    } else {
      assert (x + y)[1..] == x[1..] + y;
      RunConcat(m, a + x[0].Size(), x[0].Tag(), x[1..], y);
    }
  }

  /** Only [lo, hi] and the link fields of `nodes` may differ. */
  ghost predicate Only(m: Words, m': Words, lo: int, hi: int, nodes: set<int>) {
    forall x :: !(lo <= x <= hi) && x - FLINK !in nodes && x - BLINK !in nodes ==> At(m', x) == At(m, x)
  }

  /** Every node is a free block of the run or lies outside it. */
  ghost predicate NodesFit(a: int, bs: seq<Block>, nodes: set<int>) {
    forall f :: f in nodes ==> NodeFits(a, bs, f)
  }

  predicate NodeFits(a: int, bs: seq<Block>, f: int) {
    || f + BFH <= a
    || a + Sum(bs) <= f
    || (f in Layout(a, bs) && Layout(a, bs)[f].Free?)
  }

  /** A block's header and wiped body are untouched by writes to link fields. */
  lemma BlockFrame(m: Words, m': Words, a: int, tag: int, b: Block, nodes: set<int>)
    requires b.Sized() && BlockAt(m, a, tag, b)
    requires forall x :: a <= x < a + b.Size() && x - FLINK !in nodes && x - BLINK !in nodes ==> At(m', x) == At(m, x)
    requires forall f :: f in nodes ==> f + BFH <= a || a + b.Size() <= f || f == a
    ensures BlockAt(m', a, tag, b)
  {
  }

  lemma NodesFitSplit(a: int, bs: seq<Block>, nodes: set<int>)
    requires Sized(bs) && bs != [] && NodesFit(a, bs, nodes)
    ensures forall f :: f in nodes ==> f + BFH <= a || a + bs[0].Size() <= f || f == a
    ensures NodesFit(a + bs[0].Size(), bs[1..], nodes)
  {
    hide NodeFits;
    forall f | f in nodes
      ensures f + BFH <= a || a + bs[0].Size() <= f || f == a
      ensures NodeFits(a + bs[0].Size(), bs[1..], f)
    {
      NodeFitsRest(a, bs, f);
    }
  }

  lemma NodeFitsRest(a: int, bs: seq<Block>, f: int)
    requires Sized(bs) && bs != [] && NodeFits(a, bs, f)
    ensures f + BFH <= a || a + bs[0].Size() <= f || f == a
    ensures NodeFits(a + bs[0].Size(), bs[1..], f)
  {
    hide Layout, Sum;
    LayoutHead(a, bs);
    SumPositive(bs[1..]);
    LayoutInside(a + bs[0].Size(), bs[1..]);
    assert bs[0].Sized();
  }

  /** A run is untouched by writes outside it and by writes to link fields. */
  lemma {:induction false} RunFrame(m: Words, m': Words, a: int, tag: int, bs: seq<Block>, nodes: set<int>)
    requires Sized(bs) && RunAt(m, a, tag, bs) && NodesFit(a, bs, nodes)
    requires forall x :: a <= x < a + Sum(bs) && x - FLINK !in nodes && x - BLINK !in nodes ==> At(m', x) == At(m, x)
    ensures RunAt(m', a, tag, bs)
    decreases bs
  {
    hide BlockAt, Layout, Sum, NodesFit;
    if bs != [] {
      var a' := a + bs[0].Size();
      LayoutHead(a, bs);
      SumPositive(bs[1..]);
      NodesFitSplit(a, bs, nodes);
      BlockFrame(m, m', a, tag, bs[0], nodes);
      RunFrame(m, m', a', bs[0].Tag(), bs[1..], nodes);
    }
  }

  /** The same when the first tag is rewritten as well. */
  lemma RunRetag(m: Words, m': Words, a: int, tag: int, tag': int, bs: seq<Block>, nodes: set<int>)
    requires Sized(bs) && bs != [] && !bs[0].Free? && RunAt(m, a, tag, bs) && NodesFit(a, bs, nodes)
    requires forall x :: a < x < a + Sum(bs) && x - FLINK !in nodes && x - BLINK !in nodes ==> At(m', x) == At(m, x)
    requires At(m', a) == tag'
    ensures RunAt(m', a, tag', bs)
  {
    hide Layout, Sum, NodesFit;
    LayoutHead(a, bs);
    SumPositive(bs[1..]);
    NodesFitSplit(a, bs, nodes);
    RunFrame(m, m', a + bs[0].Size(), bs[0].Tag(), bs[1..], nodes);
  }

  /** A run with its middle rewritten. */
  lemma RunSplice(m: Words, m': Words, a: int, p: seq<Block>, q: seq<Block>, q': seq<Block>, r: seq<Block>,
                  nodes: set<int>)
    requires Sized(p) && Sized(q) && Sized(r) && r != [] && !r[0].Free?
    requires RunAt(m, a, 0, p + q + r) && NodesFit(a, p + q + r, nodes)
    requires Sum(q') == Sum(q)
    requires Only(m, m', a + Sum(p), a + Sum(p) + Sum(q), nodes)
    requires RunAt(m', a + Sum(p), LastTag(0, p), q')
    requires At(m', a + Sum(p) + Sum(q)) == LastTag(LastTag(0, p), q')
    ensures RunAt(m', a, 0, p + q' + r)
  {
    hide Layout, Sum, RunAt, NodesFit;
    var x, y := a + Sum(p), a + Sum(p) + Sum(q);
    RunConcat(m, a, 0, p, q);
    RunConcat(m, a, 0, p + q, r);
    SumConcat(p, q);
    NodesFitThree(a, p, q, r, nodes);
    RunFrame(m, m', a, 0, p, nodes);
    RunRetag(m, m', y, LastTag(0, p + q), LastTag(LastTag(0, p), q'), r, nodes);
    RunConcat(m', a, 0, p, q');
    SumConcat(p, q');
    LastTags(p, q');
    RunConcat(m', a, 0, p + q', r);
  }

  lemma LastTags(p: seq<Block>, q: seq<Block>)
    ensures LastTag(0, p + q) == LastTag(LastTag(0, p), q)
  {
    if q == [] {
      assert p + q == p;
    } else {
      assert (p + q)[|p + q| - 1] == q[|q| - 1];
    }
  }

  lemma NodesFitThree(a: int, p: seq<Block>, q: seq<Block>, r: seq<Block>, nodes: set<int>)
    requires Sized(p) && Sized(q) && Sized(r) && NodesFit(a, p + q + r, nodes)
    ensures NodesFit(a, p, nodes) && NodesFit(a + Sum(p) + Sum(q), r, nodes)
  {
    hide NodeFits, Sum;
    SumConcat(p, q);
    forall f | f in nodes
      ensures NodeFits(a, p, f) && NodeFits(a + Sum(p) + Sum(q), r, f)
    {
      NodeFitsTwo(a, p + q, r, f);
      NodeFitsTwo(a, p, q, f);
    }
  }

  lemma NodeFitsTwo(a: int, x: seq<Block>, y: seq<Block>, f: int)
    requires Sized(x) && Sized(y) && NodeFits(a, x + y, f)
    ensures NodeFits(a, x, f) && NodeFits(a + Sum(x), y, f)
  {
    hide Layout, Sum, Sized;
    SumConcat(x, y);
    LayoutConcat(a, x, y);
    LayoutsApart(a, x, a + Sum(x), y);
    LayoutInside(a, x);
    LayoutInside(a + Sum(x), y);
    SumPositive(x);
    SumPositive(y);
  }

  // ----- the list

  function Nodes(h: Heap): set<int> {
    {h.head} + (set f | f in h.free)
  }

  predicate Far(x: int, y: int) {
    Apart(x, x + BFH, y, y + BFH)
  }

  predicate Spaced(head: int, free: seq<int>) {
    && (forall i :: 0 <= i < |free| ==> Far(head, free[i]))
    && (forall i, j :: 0 <= i < j < |free| ==> Far(free[i], free[j]))
  }

  lemma ListSpaced(h: Heap)
    requires Placed(h) && Listed(h)
    ensures Spaced(h.head, h.free)
  {
    hide All, PoolOf, BlockOf, Layout, Sum, WellFormed;
    forall i | 0 <= i < |h.free|
      ensures Far(h.head, h.free[i]) && BFH <= SizeAt(h.pools, h.free[i])
    {
      FreeBlock(h, h.free[i]);
      AllOwner(h.pools, h.limit, h.free[i]);
      var k := PoolOf(h.pools, h.free[i]);
      assert Apart(h.head, h.head + BFH, h.pools[k].base, h.pools[k].End());
    }
    forall i, j | 0 <= i < j < |h.free|
      ensures Far(h.free[i], h.free[j])
    {
      AllApart(h.pools, h.limit, h.free[i], h.free[j]);
    }
  }

  lemma PoolNodesFit(h: Heap, k: nat)
    requires Placed(h) && Listed(h) && k < |h.pools|
    ensures NodesFit(h.pools[k].base, h.pools[k].blocks, Nodes(h))
  {
    hide All, PoolOf, BlockOf, Layout, Sum, WellFormed;
    var p := h.pools[k];
    assert Apart(h.head, h.head + BFH, p.base, p.End());
    forall f | f in h.free
      ensures NodeFits(p.base, p.blocks, f)
    {
      FreeBlock(h, f);
      AllOwner(h.pools, h.limit, f);
      var j := PoolOf(h.pools, f);
      if j < k {
        assert Apart(h.pools[j].base, h.pools[j].End(), p.base, p.End());
      } else if j > k {
        assert Apart(p.base, p.End(), h.pools[j].base, h.pools[j].End());
      }
    }
  }

  function Unlinked(m: Words, prev: int, next: int): Words {
    m[prev + FLINK := next][next + BLINK := prev]
  }

  function Appended(m: Words, head: int, prev: int, f: int): Words {
    m[f + FLINK := head][f + BLINK := prev][head + BLINK := f][prev + FLINK := f]
  }

  /** Unlinking the j-th free block leaves a circle of the others. */
  lemma LinkedRemove(m: Words, head: int, free: seq<int>, j: nat)
    requires j < |free| && Spaced(head, free) && Linked(m, Circle(head, free))
    ensures var c := Circle(head, free);
            && At(m, free[j] + BLINK) == c[j] && At(m, free[j] + FLINK) == c[j + 2]
            && Linked(Unlinked(m, c[j], c[j + 2]), Circle(head, free[..j] + free[j + 1..]))
  {
    var c, c' := Circle(head, free), Circle(head, free[..j] + free[j + 1..]);
    var m' := Unlinked(m, c[j], c[j + 2]);
    assert c[j + 1] == free[j];
    forall i | 0 < i < |c'|
      ensures At(m', c'[i - 1] + FLINK) == c'[i] && At(m', c'[i] + BLINK) == c'[i - 1]
    {
      LinkedRemoveAt(m, head, free, j, i);
    }
  }

  lemma LinkedRemoveAt(m: Words, head: int, free: seq<int>, j: nat, i: nat)
    requires j < |free| && Spaced(head, free) && Linked(m, Circle(head, free)) && 0 < i <= |free|
    ensures var c, c' := Circle(head, free), Circle(head, free[..j] + free[j + 1..]);
            var m' := Unlinked(m, c[j], c[j + 2]);
            At(m', c'[i - 1] + FLINK) == c'[i] && At(m', c'[i] + BLINK) == c'[i - 1]
  {
    CircleIndex(head, free, j, i - 1);
    CircleIndex(head, free, j, i);
    assert Circle(head, free)[j + 1] == free[j];
  }

  lemma CircleIndex(head: int, free: seq<int>, j: nat, i: nat)
    requires j < |free| && i < |free| + 1
    ensures Circle(head, free[..j] + free[j + 1..])[i]
            == if i <= j then Circle(head, free)[i] else Circle(head, free)[i + 1]
  {
  }

  lemma LinkedTail(m: Words, head: int, free: seq<int>)
    requires Linked(m, Circle(head, free))
    ensures At(m, head + BLINK) == Circle(head, free)[|free|]
  {
    assert Circle(head, free)[|free| + 1] == head;
  }

  /** A block appended at the tail of the list closes the circle. */
  lemma LinkedAppend(m: Words, head: int, free: seq<int>, f: int)
    requires Spaced(head, free + [f]) && Linked(m, Circle(head, free))
    ensures var c := Circle(head, free);
            && At(m, head + BLINK) == c[|free|]
            && Linked(Appended(m, head, c[|free|], f), Circle(head, free + [f]))
  {
    hide At, Appended, Spaced;
    var c' := Circle(head, free + [f]);
    LinkedTail(m, head, free);
    forall i | 0 < i < |c'|
      ensures var m' := Appended(m, head, Circle(head, free)[|free|], f);
              At(m', c'[i - 1] + FLINK) == c'[i] && At(m', c'[i] + BLINK) == c'[i - 1]
    {
      LinkedAppendAt(m, head, free, f, i);
    }
  }

  lemma LinkedAppendAt(m: Words, head: int, free: seq<int>, f: int, i: nat)
    requires Spaced(head, free + [f]) && Linked(m, Circle(head, free)) && 0 < i < |free| + 3
    ensures var c' := Circle(head, free + [f]); var m' := Appended(m, head, Circle(head, free)[|free|], f);
            At(m', c'[i - 1] + FLINK) == c'[i] && At(m', c'[i] + BLINK) == c'[i - 1]
  {
    var c, c' := Circle(head, free), Circle(head, free + [f]);
    assert c'[i - 1] == if i - 1 <= |free| then c[i - 1] else f;
    assert c'[i] == if i <= |free| then c[i] else if i == |free| + 1 then f else head;
    assert (free + [f])[|free|] == f;
    if 0 < i - 1 <= |free| { assert (free + [f])[i - 2] == free[i - 2]; }
    if 0 < i <= |free| { assert (free + [f])[i - 1] == free[i - 1]; }
    if 0 < |free| { assert (free + [f])[|free| - 1] == free[|free| - 1]; }
  }

  /** The circle is untouched when no link field of a node is. */
  lemma LinkedFrame(m: Words, m': Words, c: seq<int>)
    requires Linked(m, c)
    requires forall n :: n in c ==> At(m', n + FLINK) == At(m, n + FLINK) && At(m', n + BLINK) == At(m, n + BLINK)
    ensures Linked(m', c)
  {
    forall i | 0 < i < |c|
      ensures At(m', c[i - 1] + FLINK) == c[i] && At(m', c[i] + BLINK) == c[i - 1]
    {
      assert c[i - 1] in c && c[i] in c;
    }
  }

  // ----- whole heaps

  /** A pool that does not meet [lo, hi] keeps its image. */
  lemma OtherPool(m: Words, m': Words, h: Heap, k: nat, lo: int, hi: int)
    requires Placed(h) && Listed(h) && k < |h.pools| && PoolAt(m, h.pools[k])
    requires Only(m, m', lo, hi, Nodes(h))
    requires hi < h.pools[k].base || h.pools[k].End() <= lo
    ensures PoolAt(m', h.pools[k])
  {
    hide All, Layout, Sum, RunAt, NodesFit, Nodes;
    assert h.pools[k].Valid(h.limit);
    PoolNodesFit(h, k);
    RunFrame(m, m', h.pools[k].base, 0, h.pools[k].blocks, Nodes(h));
  }

  lemma OtherDirect(m: Words, m': Words, h: Heap, j: nat, lo: int, hi: int)
    requires Placed(h) && Listed(h) && j < |h.direct| && DirectAt(m, h.direct[j])
    requires Only(m, m', lo, hi, Nodes(h))
    requires hi < h.direct[j].addr || h.direct[j].addr + h.direct[j].size <= lo
    ensures DirectAt(m', h.direct[j])
  {
    hide All, Layout, Sum, WellFormed;
    var d := h.direct[j];
    assert DirectValid(h, d);
    NoNodeInDirect(h, j);
  }

  lemma NoNodeInDirect(h: Heap, j: nat)
    requires Placed(h) && Listed(h) && j < |h.direct|
    ensures forall f :: f in Nodes(h) ==> Apart(f, f + BFH, h.direct[j].addr, h.direct[j].addr + h.direct[j].size)
  {
    hide All, PoolOf, BlockOf, Layout, Sum, WellFormed;
    var d := h.direct[j];
    assert DirectValid(h, d);
    forall f | f in h.free
      ensures Apart(f, f + BFH, d.addr, d.addr + d.size)
    {
      FreeBlock(h, f);
      AllOwner(h.pools, h.limit, f);
      var k := PoolOf(h.pools, f);
      assert Apart(h.pools[k].base, h.pools[k].End(), d.addr, d.addr + d.size);
    }
  }

  /** Everything outside pool k is apart from it. */
  lemma PoolApart(h: Heap, k: nat, j: nat)
    requires Placed(h) && k < |h.pools| && j < |h.pools| && j != k
    ensures Apart(h.pools[k].base, h.pools[k].End(), h.pools[j].base, h.pools[j].End())
  {
    if j < k {
      assert Apart(h.pools[j].base, h.pools[j].End(), h.pools[k].base, h.pools[k].End());
    }
  }

  /** A run of pool k rewritten in place, and the list relinked. */
  lemma ImageSplice(m: Words, m': Words, h: Heap, h': Heap, k: nat, i: nat, j: nat, mid: seq<Block>)
    requires Placed(h) && Listed(h) && ImageOf(m, h)
    requires Spliceable(h.pools, h.limit, k, i, j, mid) && !h.pools[k].blocks[j].Free?
    requires h'.pools == SplicePools(h.pools, k, i, j, mid) && h'.direct == h.direct && h'.head == h.head
    requires var x := AddrOf(h.pools, k, i); var tag := LastTag(0, h.pools[k].blocks[..i]);
             && Only(m, m', x, x + Sum(mid), Nodes(h))
             && RunAt(m', x, tag, mid) && At(m', x + Sum(mid)) == LastTag(tag, mid)
    requires Linked(m', Circle(h'.head, h'.free))
    ensures ImageOf(m', h')
  {
    hide All, Layout, Sum, RunAt, Nodes, Linked, LastTag, Circle;
    var x, y := AddrOf(h.pools, k, i), AddrOf(h.pools, k, i) + Sum(mid);
    SpliceInPool(h, k, i, j, mid);
    forall n | 0 <= n < |h.pools| && n != k
      ensures PoolAt(m', h.pools[n])
    {
      PoolApart(h, k, n);
      OtherPool(m, m', h, n, x, y);
    }
    forall n | 0 <= n < |h.direct|
      ensures DirectAt(m', h.direct[n])
    {
      assert DirectValid(h, h.direct[n]);
      OtherDirect(m, m', h, n, x, y);
    }
    PoolNodesFit(h, k);
    var bs := h.pools[k].blocks;
    assert h.pools[k].Valid(h.limit);
    assert bs == bs[..i] + bs[i..j] + bs[j..];
    RunSplice(m, m', h.pools[k].base, bs[..i], bs[i..j], mid, bs[j..], Nodes(h));
  }

  /** A well-formed run in three parts, the last of which is not empty. */
  lemma ThreeParts(bs: seq<Block>, i: nat, j: nat)
    requires Sized(bs) && i <= j < |bs|
    ensures Sum(bs) == Sum(bs[..i]) + Sum(bs[i..j]) + Sum(bs[j..])
    ensures 0 <= Sum(bs[..i]) && 0 <= Sum(bs[i..j]) && BH <= Sum(bs[j..])
  {
    hide Sum;
    assert bs == (bs[..i] + bs[i..j]) + bs[j..];
    SumConcat(bs[..i], bs[i..j]);
    SumConcat(bs[..i] + bs[i..j], bs[j..]);
    SumPositive(bs[..i]);
    SumPositive(bs[i..j]);
    LastPart(bs, j);
  }

  lemma LastPart(bs: seq<Block>, j: nat)
    requires Sized(bs) && j < |bs|
    ensures BH <= Sum(bs[j..])
  {
    assert bs[j..][0] == bs[j];
    SumPositive(bs[j + 1..]);
    assert bs[j..][1..] == bs[j + 1..];
  }

  /** The rewritten run and the header after it lie inside the pool. */
  lemma SpliceInPool(h: Heap, k: nat, i: nat, j: nat, mid: seq<Block>)
    requires Spliceable(h.pools, h.limit, k, i, j, mid)
    ensures h.pools[k].base <= AddrOf(h.pools, k, i)
    ensures AddrOf(h.pools, k, i) + Sum(mid) + BH <= h.pools[k].End()
    ensures 0 <= Sum(mid)
  {
    hide Layout, Sum, All;
    assert h.pools[k].Valid(h.limit);
    ThreeParts(h.pools[k].blocks, i, j);
  }

  /** A pool handed back: nothing changed but links. */
  lemma ImageDrop(m: Words, m': Words, h: Heap, h': Heap, k: nat)
    requires Placed(h) && Listed(h) && ImageOf(m, h) && k < |h.pools|
    requires h'.pools == Dropped(h.pools, k) && h'.direct == h.direct && h'.head == h.head
    requires Only(m, m', 0, -1, Nodes(h))
    requires Linked(m', Circle(h'.head, h'.free))
    ensures ImageOf(m', h')
  {
    hide All, Layout, Sum, RunAt, Nodes, Linked, Circle, Dropped;
    DropLength(h.pools, k);
    forall n | 0 <= n < |h'.pools|
      ensures PoolAt(m', h'.pools[n])
    {
      DropIndex(h.pools, k, n);
      var n' := if n < k then n else n + 1;
      assert h.pools[n'].Valid(h.limit);
      SumPositive(h.pools[n'].blocks);
      OtherPool(m, m', h, n', 0, -1);
    }
    forall n | 0 <= n < |h.direct|
      ensures DirectAt(m', h.direct[n])
    {
      assert DirectValid(h, h.direct[n]);
      OtherDirect(m, m', h, n, 0, -1);
    }
  }

  /** A new pool in storage that nobody used. */
  lemma ImageAddPool(m: Words, m': Words, h: Heap, base: int, len: int)
    requires Placed(h) && Listed(h) && ImageOf(m, h) && PoolRegion(h, base, len)
    requires var n := Mask(len);
             && Only(m, m', base, base + n - 1, Nodes(h))
             && BlockAt(m', base, 0, Free(n - BH)) && HeaderAt(m', base + n - BH, n - BH, Sentinel)
    requires Linked(m', Circle(h.head, h.free + [base]))
    ensures ImageOf(m', AddPool(h, base, len))
  {
    hide All, Layout, Sum, Nodes, Linked, Circle, WellFormed;
    var h' := AddPool(h, base, len);
    var n := Mask(len);
    forall k | 0 <= k < |h'.pools|
      ensures PoolAt(m', h'.pools[k])
    {
      if k < |h.pools| {
        assert Apart(h.pools[k].base, h.pools[k].End(), base, base + n);
        OtherPool(m, m', h, k, base, base + n - 1);
      } else {
        TwoBlocksAt(m', base, Free(n - BH), Sentinel);
      }
    }
    forall j | 0 <= j < |h.direct|
      ensures DirectAt(m', h.direct[j])
    {
      OtherDirect(m, m', h, j, base, base + n - 1);
    }
  }

  lemma TwoBlocksAt(m: Words, a: int, b: Block, c: Block)
    requires BlockAt(m, a, 0, b) && BlockAt(m, a + b.Size(), b.Tag(), c)
    ensures RunAt(m, a, 0, [b, c])
  {
    assert [b, c][1..] == [c] && [c][1..] == [];
  }

  /** A new direct block in storage that nobody used. */
  lemma ImageAddDirect(m: Words, m': Words, h: Heap, addr: int, size: int)
    requires Placed(h) && Listed(h) && ImageOf(m, h) && DirectRegion(h, addr, size)
    requires Only(m, m', addr, addr + size - 1, {}) && DirectAt(m', Direct(addr, size))
    ensures ImageOf(m', AddDirect(h, addr, size))
  {
    hide All, Layout, Sum, WellFormed, Nodes;
    assert Only(m, m', addr, addr + size - 1, Nodes(h));
    forall k | 0 <= k < |h.pools|
      ensures PoolAt(m', h.pools[k])
    {
      OtherPool(m, m', h, k, addr, addr + size - 1);
    }
    forall j | 0 <= j < |h.direct|
      ensures DirectAt(m', h.direct[j])
    {
      OtherDirect(m, m', h, j, addr, addr + size - 1);
    }
    OtherNodes(h, addr, addr + size);
    LinkedFrame(m, m', Circle(h.head, h.free));
  }

  /** No list node is in storage the allocator does not own. */
  lemma OtherNodes(h: Heap, lo: int, hi: int)
    requires Placed(h) && Listed(h) && Unowned(h, lo, hi)
    ensures forall f :: f in Circle(h.head, h.free) ==> Apart(f, f + BFH, lo, hi)
    ensures forall f :: f in Nodes(h) <==> f in Circle(h.head, h.free)
  {
    hide All, PoolOf, BlockOf, Layout, Sum, WellFormed;
    forall f | f in h.free
      ensures Apart(f, f + BFH, lo, hi)
    {
      FreeBlock(h, f);
      AllOwner(h.pools, h.limit, f);
      assert Apart(h.pools[PoolOf(h.pools, f)].base, h.pools[PoolOf(h.pools, f)].End(), lo, hi);
    }
  }

  /** A direct block handed back: nothing changed outside it. */
  lemma ImageDropDirect(m: Words, m': Words, h: Heap, j: nat)
    requires Placed(h) && Listed(h) && ImageOf(m, h) && j < |h.direct|
    requires Only(m, m', h.direct[j].addr, h.direct[j].addr + h.direct[j].size - 1, {})
    ensures ImageOf(m', RelDirect(h, j))
  {
    hide All, Layout, Sum, WellFormed, Nodes;
    var d := h.direct[j];
    assert DirectValid(h, d);
    assert Only(m, m', d.addr, d.addr + d.size - 1, Nodes(h));
    forall k | 0 <= k < |h.pools|
      ensures PoolAt(m', h.pools[k])
    {
      assert Apart(h.pools[k].base, h.pools[k].End(), d.addr, d.addr + d.size);
      OtherPool(m, m', h, k, d.addr, d.addr + d.size - 1);
    }
    forall n | 0 <= n < |h.direct| && n != j
      ensures DirectAt(m', h.direct[n])
    {
      if n < j {
        assert Apart(h.direct[n].addr, h.direct[n].addr + h.direct[n].size, d.addr, d.addr + d.size);
      } else {
        assert Apart(d.addr, d.addr + d.size, h.direct[n].addr, h.direct[n].addr + h.direct[n].size);
      }
      OtherDirect(m, m', h, n, d.addr, d.addr + d.size - 1);
    }
    var ds := RelDirect(h, j).direct;
    forall n | 0 <= n < |ds|
      ensures ds[n] == h.direct[if n < j then n else n + 1]
    {
    }
    NoNodeInDirect(h, j);
    NodesOfCircle(h);
    LinkedFrame(m, m', Circle(h.head, h.free));
  }

  lemma NodesOfCircle(h: Heap)
    ensures forall f :: f in Nodes(h) <==> f in Circle(h.head, h.free)
  {
  }

  // ----- live buffers

  /** The usable bytes of the buffer at `buf` hold the same words. */
  ghost predicate SamePayload(m: Words, m': Words, buf: int, n: int) {
    forall x :: buf <= x < buf + n && x % 4 == 0 ==> At(m', x) == At(m, x)
  }

  /** Writes that stay in [lo, hi] and in link fields reach no buffer outside [lo, hi]. */
  lemma PooledKept(m: Words, m': Words, h: Heap, lo: int, hi: int, a: int)
    requires Placed(h) && Listed(h) && UsedAt(h.pools, a)
    requires Only(m, m', lo, hi, Nodes(h))
    requires hi < a + BH || a + SizeAt(h.pools, a) <= lo
    ensures SamePayload(m, m', a + BH, SizeAt(h.pools, a) - BH)
  {
    hide All, PoolOf, BlockOf, Layout, Sum, WellFormed;
    UsedBlock(h, a);
    AllOwner(h.pools, h.limit, a);
    var p := h.pools[PoolOf(h.pools, a)];
    assert Apart(h.head, h.head + BFH, p.base, p.End());
    forall f | f in h.free
      ensures Apart(f, f + BFH, a, a + SizeAt(h.pools, a))
    {
      FreeBlock(h, f);
      AllApart(h.pools, h.limit, f, a);
    }
  }

  lemma DirectKept(m: Words, m': Words, h: Heap, lo: int, hi: int, j: nat)
    requires Placed(h) && Listed(h) && j < |h.direct|
    requires Only(m, m', lo, hi, Nodes(h))
    requires hi < h.direct[j].addr || h.direct[j].addr + h.direct[j].size <= lo
    ensures SamePayload(m, m', h.direct[j].addr + BDH, h.direct[j].size - BDH)
  {
    hide All, PoolOf, BlockOf, Layout, Sum, WellFormed, Nodes;
    NoNodeInDirect(h, j);
  }

  // ----- reading

  /** The i-th block of pool k, and the header after it, as memory shows them. */
  lemma ReadBlock(m: Words, h: Heap, k: nat, i: nat)
    requires Placed(h) && ImageOf(m, h) && k < |h.pools| && i < |h.pools[k].blocks|
    ensures var bs := h.pools[k].blocks; var x := AddrOf(h.pools, k, i);
            && BlockAt(m, x, LastTag(0, bs[..i]), bs[i])
            && (i + 1 < |bs| ==> HeaderAt(m, x + bs[i].Size(), bs[i].Tag(), bs[i + 1]))
  {
    hide All, Layout, Sum, BlockAt, Linked, DirectAt;
    var p := h.pools[k];
    var bs := p.blocks;
    assert PoolAt(m, p);
    assert bs == bs[..i] + bs[i..];
    RunConcat(m, p.base, 0, bs[..i], bs[i..]);
    if i + 1 < |bs| {
      var x := AddrOf(h.pools, k, i);
      assert bs[i..][1..] == bs[i + 1..] && bs[i + 1..][0] == bs[i + 1];
      assert RunAt(m, x + bs[i].Size(), bs[i].Tag(), bs[i + 1..]);
      HeaderOf(m, x + bs[i].Size(), bs[i].Tag(), bs[i + 1]);
    }
  }

  lemma HeaderOf(m: Words, a: int, tag: int, b: Block)
    ensures BlockAt(m, a, tag, b) ==> HeaderAt(m, a, tag, b)
  {
  }

  /** The block at address `x`, in whatever pool it is, with what surrounds it. */
  lemma ReadAt(m: Words, h: Heap, x: int)
    requires Placed(h) && ImageOf(m, h) && x in All(h.pools) && !All(h.pools)[x].Sentinel?
    ensures var b := All(h.pools)[x];
            && At(m, x + BSIZE) == ToWord(b.Field())
            && At(m, x + b.size + PREVFREE) == b.Tag()
            && x + b.size in All(h.pools)
            && At(m, x + b.size + BSIZE) == ToWord(All(h.pools)[x + b.size].Field())
            && BFH <= b.size <= MAX_SIZE - BH && b.size % 4 == 0
            && 0 < x && x % 4 == 0 && x + b.size + BH <= h.limit
  {
    hide All, PoolOf, BlockOf, Layout, Sum, RunAt, Linked, DirectAt;
    Locate(h.pools, h.limit, x);
    AllOwner(h.pools, h.limit, x);
    var k, i := PoolOf(h.pools, x), BlockOf(h.pools, x);
    var bs := h.pools[k].blocks;
    assert h.pools[k].Valid(h.limit);
    NextAddr(bs, i);
    Located(h.pools, h.limit, k, i + 1);
    AllOwner(h.pools, h.limit, x + bs[i].Size());
    BlockBounds(h.pools[k].base, bs, i);
    ReadBlock(m, h, k, i);
  }

  lemma BlockBounds(base: int, bs: seq<Block>, i: nat)
    requires WellFormed(bs) && i + 1 < |bs|
    ensures bs[i].Size() + BH <= Sum(bs)
  {
    hide Layout, Sum;
    var p, q := bs[..i], bs[i + 1..];
    assert bs == p + [bs[i]] + q && q[|q| - 1].Sentinel?;
    SumConcat(p, [bs[i]]);
    SumConcat(p + [bs[i]], q);
    SumOfOne(bs[i]);
    SumPositive(p);
    SumPositive(q);
    assert q[0].Size() >= BH;
  }

  /** Every node of the circle is an aligned address with room for a free header. */
  lemma NodeBounds(h: Heap, f: int)
    requires Placed(h) && Listed(h) && f in Circle(h.head, h.free)
    ensures 0 < f && f % 4 == 0 && f + BFH <= h.limit
  {
    hide All, PoolOf, BlockOf, Layout, Sum, WellFormed;
    if f in h.free {
      FreeBlock(h, f);
      AllOwner(h.pools, h.limit, f);
      assert h.pools[PoolOf(h.pools, f)].Valid(h.limit);
    }
  }
}
