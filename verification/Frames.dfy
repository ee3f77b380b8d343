/** Facts about memory in the middle of an operation, and what an operation leaves alone. */
module Frames {
  import opened Memory
  import opened Blocks
  import opened Pools
  import opened Heap
  import opened Tallies
  import opened HeapFacts
  import opened Image
  import opened Live

  // ----- steps

  lemma OnlyStore(m0: Words, m: Words, lo: int, hi: int, nodes: set<int>, x: int, v: int)
    requires Only(m0, m, lo, hi, nodes)
    requires lo <= x <= hi || x - FLINK in nodes || x - BLINK in nodes
    ensures Only(m0, m[x := v], lo, hi, nodes)
  {
  }

  lemma OnlyWiden(m0: Words, m: Words, lo: int, hi: int, lo': int, hi': int, nodes: set<int>)
    requires Only(m0, m, lo, hi, nodes) && lo' <= lo && hi <= hi'
    ensures Only(m0, m, lo', hi', nodes)
  {
  }

  /** A word that is no link field of a node can be written without breaking the circle. */
  lemma LinkedStore(m: Words, c: seq<int>, x: int, v: int)
    requires Linked(m, c) && x - FLINK !in c && x - BLINK !in c
    ensures Linked(m[x := v], c)
  {
    LinkedFrame(m, m[x := v], c);
  }

  lemma LinkedFill(m: Words, c: seq<int>, lo: int, hi: int, v: int)
    requires Linked(m, c)
    requires forall n :: n in c ==> n + BFH <= lo || hi <= n + FLINK
    ensures Linked(Fill(m, lo, hi, v), c)
  {
    LinkedFrame(m, Fill(m, lo, hi, v), c);
  }

  /** No header field of a block is a link field of a list node. */
  lemma HeaderSafe(h: Heap, x: int)
    requires Placed(h) && Listed(h) && x in All(h.pools)
    ensures x - FLINK !in Nodes(h) && x - BLINK !in Nodes(h) && x + BSIZE - FLINK !in Nodes(h)
  {
    hide All, PoolOf, BlockOf, Layout, Sum, WellFormed;
    AllOwner(h.pools, h.limit, x);
    assert Apart(h.head, h.head + BFH, h.pools[PoolOf(h.pools, x)].base, h.pools[PoolOf(h.pools, x)].End());
    forall f | f in h.free ensures f == x || f + BFH <= x || x < f {
      FreeBlock(h, f);
      if f != x { AllApart(h.pools, h.limit, f, x); }
    }
  }

  // ----- buffers

  /** Every buffer not in `but` is still live, with its size and its bytes. */
  ghost predicate Kept(m: Words, m': Words, h: Heap, h': Heap, but: set<int>) {
    && SameLive(h, h', but)
    && (forall b :: b !in but && IsLive(h, b) ==> SamePayload(m, m', b, Usable(h, b)))
  }

  lemma KeptTrans(m: Words, m1: Words, m2: Words, h: Heap, h1: Heap, h2: Heap, but: set<int>, but': set<int>)
    requires Kept(m, m1, h, h1, but) && Kept(m1, m2, h1, h2, but')
    ensures Kept(m, m2, h, h2, but + but')
  {
    hide LivePooled, LiveDirect, Usable, SamePayload;
    forall b | b !in but + but'
      ensures SameBuffer(h, h2, b)
      ensures IsLive(h, b) ==> SamePayload(m, m2, b, Usable(h, b))
    {
      assert SameBuffer(h, h1, b) && SameBuffer(h1, h2, b);
      if IsLive(h, b) { PayloadTrans(m, m1, m2, b, Usable(h, b)); }
    }
  }

  lemma KeptWiden(m: Words, m': Words, h: Heap, h': Heap, but: set<int>, but': set<int>)
    requires Kept(m, m', h, h', but) && but <= but'
    ensures Kept(m, m', h, h', but')
  {
    hide LivePooled, LiveDirect, Usable, SamePayload, SameBuffer;
  }

  lemma KeptRefl(m: Words, h: Heap, but: set<int>)
    ensures Kept(m, m, h, h, but)
  {
    hide LivePooled, LiveDirect, Usable;
  }

  lemma PayloadTrans(m: Words, m1: Words, m2: Words, buf: int, n: int)
    requires SamePayload(m, m1, buf, n) && SamePayload(m1, m2, buf, n)
    ensures SamePayload(m, m2, buf, n)
  {
  }

  /** Writes inside pool k that stay away from the pooled buffers outside `but` keep all buffers outside it. */
  lemma PoolWriteKeeps(m: Words, m': Words, h: Heap, h': Heap, k: nat, lo: int, hi: int, but: set<int>)
    requires Placed(h) && Listed(h) && k < |h.pools| && SameLive(h, h', but)
    requires Only(m, m', lo, hi, Nodes(h))
    requires h.pools[k].base <= lo && hi < h.pools[k].End()
    requires forall a :: UsedAt(h.pools, a) && a + BH !in but ==> hi < a + BH || a + SizeAt(h.pools, a) <= lo
    ensures Kept(m, m', h, h', but)
  {
    hide All, PoolOf, BlockOf, Layout, Sum, WellFormed, SamePayload, Only, SameLive, Nodes;
    forall b | b !in but && IsLive(h, b)
      ensures SamePayload(m, m', b, Usable(h, b))
    {
      if LivePooled(h, b) {
        PooledKept(m, m', h, lo, hi, b - BH);
      } else {
        var j := DirectOf(h.direct, b - BDH);
        assert DirectValid(h, h.direct[j]);
        DirectKept(m, m', h, lo, hi, j);
      }
    }
  }

  /** Writes in storage that was nobody's keep all buffers. */
  lemma FreshWriteKeeps(m: Words, m': Words, h: Heap, h': Heap, lo: int, hi: int, but: set<int>)
    requires Placed(h) && Listed(h) && SameLive(h, h', but) && lo <= hi
    requires Only(m, m', lo, hi, Nodes(h))
    requires Unowned(h, lo, hi + 1)
    ensures Kept(m, m', h, h', but)
  {
    hide All, PoolOf, BlockOf, Layout, Sum, WellFormed, SamePayload, Only, SameLive, Nodes;
    forall b | b !in but && IsLive(h, b)
      ensures SamePayload(m, m', b, Usable(h, b))
    {
      if LivePooled(h, b) {
        AllOwner(h.pools, h.limit, b - BH);
        PooledKept(m, m', h, lo, hi, b - BH);
      } else {
        var j := DirectOf(h.direct, b - BDH);
        DirectKept(m, m', h, lo, hi, j);
      }
    }
  }

  // ----- carving

  /** Memory after a carve, written out. */
  function CarvedWords(m: Words, h: Heap, f: int, size: int): Words {
    var n := SizeAt(h.pools, f);
    if Splits(h, f, size) then
      m[f + BSIZE := n - size][f + (n - size) + PREVFREE := n - size]
       [f + (n - size) + BSIZE := ToWord(-size)][f + n + PREVFREE := 0]
    else
      var j := IndexOf(h.free, f);
      var c := Circle(h.head, h.free);
      if j + 2 < |c| then Unlinked(m, c[j], c[j + 2])[f + BSIZE := ToWord(-n)][f + n + PREVFREE := 0] else m
  }

  function IndexOf(s: seq<int>, x: int): (j: nat)
    ensures j <= |s| && (x in s ==> j < |s| && s[j] == x)
  {
    if s == [] || s[0] == x then 0 else 1 + IndexOf(s[1..], x)
  }

  lemma SplitOnly(m: Words, h: Heap, f: int, size: int)
    requires Carvable(h, f, size) && Linked(m, Circle(h.head, h.free)) && Splits(h, f, size)
    ensures var m' := CarvedWords(m, h, f, size);
            && Only(m, m', f, f + SizeAt(h.pools, f), Nodes(h))
            && Linked(m', Circle(h.head, h.free))
  {
    hide SizeAt, FreeAt, Arranged;
    var n := SizeAt(h.pools, f);
    SplitNodes(h, f);
    NodesOfCircle(h);
    FreeBlock(h, f);
    NextNode(h, f);
    hide Circle, Nodes, Linked, Placed, Listed;
    LinkedFrame(m, CarvedWords(m, h, f, size), Circle(h.head, h.free));
  }

  /** Where a free block ends, the next header starts; its tag is no link field. */
  lemma NextNode(h: Heap, f: int)
    requires Placed(h) && Listed(h) && f in h.free
    ensures var y := f + SizeAt(h.pools, f); y - FLINK !in Nodes(h) && y - BLINK !in Nodes(h)
  {
    hide All, PoolOf, BlockOf, Layout, Sum, WellFormed, Nodes;
    FreeBlock(h, f);
    var k, i := PoolOf(h.pools, f), BlockOf(h.pools, f);
    Located(h.pools, h.limit, k, i + 1);
    NextAddr(h.pools[k].blocks, i);
    HeaderSafe(h, f + SizeAt(h.pools, f));
  }

  lemma SplitImage(m: Words, h: Heap, f: int, size: int)
    requires Inv(h) && Carvable(h, f, size) && ImageOf(m, h) && Splits(h, f, size)
    ensures var m' := CarvedWords(m, h, f, size);
            && ImageOf(m', Carve(h, f, size).0)
            && Only(m, m', f, f + SizeAt(h.pools, f), Nodes(h))
  {
    hide All, PoolOf, BlockOf, Layout, Sum, WellFormed, Remove, Counted, LengthsAgree, Only, Linked, RunAt, Nodes,
         Circle, PoolAt;
    var n := SizeAt(h.pools, f);
    var m' := CarvedWords(m, h, f, size);
    var k, i := PoolOf(h.pools, f), BlockOf(h.pools, f);
    CarveSplices(h, f, size);
    FreeBlock(h, f);
    ReadBlock(m, h, k, i);
    SplitOnly(m, h, f, size);
    SplitRun(m, m', f, LastTag(0, h.pools[k].blocks[..i]), n, size);
    SumOfTwo(Free(n - size), Used(size));
    hide CarvedWords, BlockAt;
    ImageSplice(m, m', h, Carve(h, f, size).0, k, i, i + 1, [Free(n - size), Used(size)]);
  }

  /** No list node but `f` itself starts inside the free block at `f`, nor just before it. */
  lemma SplitNodes(h: Heap, f: int)
    requires Placed(h) && Listed(h) && f in h.free
    ensures forall g :: g in Nodes(h) && g != f ==> g + BFH <= f || f + SizeAt(h.pools, f) <= g
  {
    hide All, PoolOf, BlockOf, Layout, Sum, WellFormed;
    AllOwner(h.pools, h.limit, f);
    FreeBlock(h, f);
    assert Apart(h.head, h.head + BFH, h.pools[PoolOf(h.pools, f)].base, h.pools[PoolOf(h.pools, f)].End());
    forall g | g in h.free && g != f ensures g + BFH <= f || f + SizeAt(h.pools, f) <= g {
      FreeBlock(h, g);
      AllApart(h.pools, h.limit, f, g);
    }
  }

  lemma SplitRun(m: Words, m': Words, f: int, tag: int, n: int, size: int)
    requires BlockAt(m, f, tag, Free(n)) && n - size >= BFH && size >= BFH
    requires n % 4 == 0 && size % 4 == 0
    requires m' == m[f + BSIZE := n - size][f + (n - size) + PREVFREE := n - size]
                    [f + (n - size) + BSIZE := ToWord(-size)][f + n + PREVFREE := 0]
    ensures RunAt(m', f, tag, [Free(n - size), Used(size)])
  {
    var b, c := Free(n - size), Used(size);
    assert [b, c][1..] == [c] && [c][1..] == [];
    forall x | f + BFH <= x < f + (n - size) && x % 4 == 0 ensures At(m', x) == WIPED {
      assert At(m, x) == WIPED;
    }
  }

  lemma WholeLinked(m: Words, h: Heap, f: int)
    requires Placed(h) && Listed(h) && f in h.free && Linked(m, Circle(h.head, h.free))
    ensures var j := IndexOf(h.free, f); var c := Circle(h.head, h.free);
            && j + 2 < |c| && c[j] != f && c[j + 2] != f
            && c[j] in Nodes(h) && c[j + 2] in Nodes(h)
            && At(m, f + BLINK) == c[j] && At(m, f + FLINK) == c[j + 2]
            && At(m, c[j] + FLINK) == f && At(m, c[j + 2] + BLINK) == f
            && Linked(Unlinked(m, c[j], c[j + 2]), Circle(h.head, Remove(h.free, f)))
            && Only(m, Unlinked(m, c[j], c[j + 2]), 0, -1, Nodes(h))
  {
    hide Placed, FreeAt, Remove, Unlinked, Nodes;
    var j := IndexOf(h.free, f);
    var c := Circle(h.head, h.free);
    ListSpaced(h);
    LinkedRemove(m, h.head, h.free, j);
    RemoveAt(h.free, j);
    NodesOfCircle(h);
    assert c[j + 1] == f;
    NotSelf(h.head, h.free, j);
    UnlinkedOnly(m, c[j], c[j + 2], Nodes(h));
  }

  lemma NotSelf(head: int, free: seq<int>, j: nat)
    requires j < |free| && Spaced(head, free)
    ensures Circle(head, free)[j] != free[j] && Circle(head, free)[j + 2] != free[j]
  {
  }

  lemma UnlinkedOnly(m: Words, prev: int, next: int, nodes: set<int>)
    requires prev in nodes && next in nodes
    ensures Only(m, Unlinked(m, prev, next), 0, -1, nodes)
  {
  }

  lemma WholeOnly(m: Words, h: Heap, f: int, size: int)
    requires Carvable(h, f, size) && Linked(m, Circle(h.head, h.free)) && !Splits(h, f, size)
    ensures var m' := CarvedWords(m, h, f, size);
            && Only(m, m', f, f + SizeAt(h.pools, f), Nodes(h))
            && Linked(m', Circle(h.head, Remove(h.free, f)))
            && HeaderAt(m', f, At(m, f + PREVFREE), Used(SizeAt(h.pools, f)))
            && At(m', f + SizeAt(h.pools, f) + PREVFREE) == 0
  {
    hide SizeAt, FreeAt, Arranged, Remove, Linked, Unlinked, Nodes, Circle;
    var n := SizeAt(h.pools, f);
    var j := IndexOf(h.free, f);
    var c := Circle(h.head, h.free);
    WholeLinked(m, h, f);
    FreeBlock(h, f);
    var m1 := Unlinked(m, c[j], c[j + 2]);
    var c' := Circle(h.head, Remove(h.free, f));
    RemovedNodes(h, f);
    NextNode(h, f);
    FreeHeader(h, f);
    LinkedStore(m1, c', f + BSIZE, ToWord(-n));
    LinkedStore(m1[f + BSIZE := ToWord(-n)], c', f + n + PREVFREE, 0);
  }

  lemma FreeHeader(h: Heap, f: int)
    requires Placed(h) && Listed(h) && f in h.free
    ensures f - FLINK !in Nodes(h) && f - BLINK !in Nodes(h) && f + BSIZE - FLINK !in Nodes(h)
  {
    hide Placed, All, Nodes;
    HeaderSafe(h, f);
  }

  lemma RemovedNodes(h: Heap, f: int)
    requires Listed(h) && f in h.free
    ensures forall g :: g in Circle(h.head, Remove(h.free, f)) ==> g in Nodes(h)
  {
    hide FreeAt, Remove;
    RemoveKeeps(h.free, f);
  }

  lemma WholeImage(m: Words, h: Heap, f: int, size: int)
    requires Inv(h) && Carvable(h, f, size) && ImageOf(m, h) && !Splits(h, f, size)
    ensures var m' := CarvedWords(m, h, f, size);
            && ImageOf(m', Carve(h, f, size).0)
            && Only(m, m', f, f + SizeAt(h.pools, f), Nodes(h))
  {
    hide All, PoolOf, BlockOf, Layout, Sum, WellFormed, Remove, Counted, LengthsAgree, Only, Linked, RunAt, Nodes,
         Circle, PoolAt, Unlinked;
    var n := SizeAt(h.pools, f);
    var m' := CarvedWords(m, h, f, size);
    var k, i := PoolOf(h.pools, f), BlockOf(h.pools, f);
    CarveSplices(h, f, size);
    FreeBlock(h, f);
    ReadBlock(m, h, k, i);
    WholeOnly(m, h, f, size);
    var tag := LastTag(0, h.pools[k].blocks[..i]);
    OneBlockAt(m', f, tag, Used(n));
    SumOfOne(Used(n));
    hide CarvedWords, BlockAt;
    ImageSplice(m, m', h, Carve(h, f, size).0, k, i, i + 1, [Used(n)]);
  }

  lemma OneBlockAt(m: Words, a: int, tag: int, b: Block)
    requires BlockAt(m, a, tag, b)
    ensures RunAt(m, a, tag, [b])
  {
    assert [b][1..] == [];
  }

  /** A carve leaves every live buffer alone. */
  lemma CarveKept(m: Words, h: Heap, f: int, size: int)
    requires Inv(h) && Carvable(h, f, size) && ImageOf(m, h)
    requires Only(m, CarvedWords(m, h, f, size), f, f + SizeAt(h.pools, f), Nodes(h))
    ensures var (h', buf) := Carve(h, f, size); Kept(m, CarvedWords(m, h, f, size), h, h', {buf})
  {
    hide All, PoolOf, BlockOf, Layout, Sum, WellFormed, Remove, Counted, LengthsAgree, Only, Nodes, CarvedWords,
         SameLive, Carve;
    CarveLive(h, f, size);
    FreeBlock(h, f);
    AllOwner(h.pools, h.limit, f);
    var k := PoolOf(h.pools, f);
    forall a | UsedAt(h.pools, a)
      ensures f + SizeAt(h.pools, f) <= a || a + SizeAt(h.pools, a) <= f
    {
      AllApart(h.pools, h.limit, f, a);
    }
    CarveInPool(h, f);
    PoolWriteKeeps(m, CarvedWords(m, h, f, size), h, Carve(h, f, size).0, k, f, f + SizeAt(h.pools, f),
                   {Carve(h, f, size).1});
  }

  /** A block other than the sentinel ends before its pool does. */
  lemma CarveInPool(h: Heap, x: int)
    requires Placed(h) && x in All(h.pools) && !All(h.pools)[x].Sentinel?
    ensures var k := PoolOf(h.pools, x);
            && k < |h.pools| && h.pools[k].base <= x
            && x + SizeAt(h.pools, x) + BH <= h.pools[k].End()
  {
    hide All, PoolOf, BlockOf, Layout, Sum;
    Locate(h.pools, h.limit, x);
    var k, i := PoolOf(h.pools, x), BlockOf(h.pools, x);
    assert h.pools[k].Valid(h.limit);
    NextAddr(h.pools[k].blocks, i);
    Located(h.pools, h.limit, k, i + 1);
    AllOwner(h.pools, h.limit, x);
    AllOwner(h.pools, h.limit, x + SizeAt(h.pools, x));
  }
}
