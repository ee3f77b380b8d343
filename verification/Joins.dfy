/** Memory during a release: join to the left, join to the right, wipe and seal. */
module Joins {
  import opened Memory
  import opened Blocks
  import opened Pools
  import opened Heap
  import opened Tallies
  import opened HeapFacts
  import opened Image
  import opened Live
  import opened Frames

  lemma LeftListFits(h: Heap, a: int)
    requires Placed(h) && Listed(h) && UsedAt(h.pools, a)
    ensures Distinct(LeftList(h, a)) && Spaced(h.head, LeftList(h, a))
    ensures RunStart(h, a) in LeftList(h, a)
    ensures forall f :: f in LeftList(h, a) ==> f == a || f in h.free
  {
    hide All, PoolOf, BlockOf, Layout, Sum, WellFormed;
    ReleaseJoins(h, a);
    ListSpaced(h);
    if !LeftFree(h, a) {
      AppendDistinct(h.free, a);
      UsedFar(h, a);
    }
  }

  /** A used block is apart from every list node. */
  lemma UsedFar(h: Heap, a: int)
    requires Placed(h) && Listed(h) && UsedAt(h.pools, a)
    ensures Far(h.head, a)
    ensures forall f :: f in h.free ==> Apart(f, f + BFH, a, a + SizeAt(h.pools, a)) && Far(f, a)
    ensures Apart(h.head, h.head + BFH, a, a + SizeAt(h.pools, a))
  {
    hide All, PoolOf, BlockOf, Layout, Sum, WellFormed;
    UsedBlock(h, a);
    AllOwner(h.pools, h.limit, a);
    var p := h.pools[PoolOf(h.pools, a)];
    assert Apart(h.head, h.head + BFH, p.base, p.End());
    forall f | f in h.free
      ensures Apart(f, f + BFH, a, a + SizeAt(h.pools, a)) && Far(f, a)
    {
      FreeBlock(h, f);
      AllApart(h.pools, h.limit, f, a);
    }
  }

  /** What holds between the phases: the joined block reaches from `lo` to `hi`. */
  ghost predicate Joining(m0: Words, m: Words, h: Heap, lo: int, hi: int, free: seq<int>) {
    && Only(m0, m, lo, hi - 1, Nodes(h))
    && Linked(m, Circle(h.head, free))
    && At(m, lo + PREVFREE) == At(m0, lo + PREVFREE)
    && At(m, lo + BSIZE) == hi - lo
  }

  /** The tag of the released block tells whether, and how far back, a free block precedes it. */
  lemma ReadLeft(m: Words, h: Heap, a: int)
    requires Placed(h) && Listed(h) && ImageOf(m, h) && UsedAt(h.pools, a)
    ensures At(m, a + PREVFREE) == if LeftFree(h, a) then SizeAt(h.pools, RunStart(h, a)) else 0
    ensures LeftFree(h, a) ==>
              SizeAt(h.pools, RunStart(h, a)) >= BFH && a - SizeAt(h.pools, RunStart(h, a)) == RunStart(h, a)
  {
    hide All, BlockOf, Layout, Sum, PoolOf, RunAt, Linked, DirectAt;
    ReleaseJoins(h, a);
    JoinSplices(h, a);
    var k, i := PoolOf(h.pools, a), BlockOf(h.pools, a);
    var bs := h.pools[k].blocks;
    ReadBlock(m, h, k, i);
    JoinBounds(bs, i);
    if LeftFree(h, a) {
      NextAddr(bs, i - 1);
      Located(h.pools, h.limit, k, i - 1);
      FreeBlock(h, RunStart(h, a));
    }
  }

  // ----- to the left

  function LeftWords(m: Words, h: Heap, a: int): Words {
    var s, n := RunStart(h, a), SizeAt(h.pools, a);
    if LeftFree(h, a) then m[s + BSIZE := a + n - s]
    else Appended(m, h.head, At(m, h.head + BLINK), a)[a + BSIZE := n]
  }

  lemma LeftJoins(m: Words, h: Heap, a: int)
    requires Placed(h) && Listed(h) && ImageOf(m, h) && UsedAt(h.pools, a)
    ensures At(m, h.head + BLINK) in Nodes(h)
    ensures Joining(m, LeftWords(m, h, a), h, RunStart(h, a), a + SizeAt(h.pools, a), LeftList(h, a))
  {
    hide All, PoolOf, BlockOf, Layout, Sum, WellFormed, RunAt, DirectAt, ImageOf, LeftFree, Joining, LeftWords,
         Linked, Circle, Nodes;
    LeftListFits(h, a);
    ReleaseJoins(h, a);
    LinkedOf(m, h);
    TailNode(m, h);
    if LeftFree(h, a) {
      AbsorbJoins(m, h, a);
    } else {
      AppendJoins(m, h, a);
    }
  }

  lemma AbsorbJoins(m: Words, h: Heap, a: int)
    requires Placed(h) && Listed(h) && UsedAt(h.pools, a) && LeftFree(h, a)
    requires Linked(m, Circle(h.head, h.free))
    ensures Joining(m, LeftWords(m, h, a), h, RunStart(h, a), a + SizeAt(h.pools, a), LeftList(h, a))
  {
    hide All, PoolOf, BlockOf, Layout, Sum, WellFormed, LeftFree, Linked, Nodes, Circle;
    var s, n := RunStart(h, a), SizeAt(h.pools, a);
    JoinExtent(h, a);
    ReleaseJoins(h, a);
    FreeHeader(h, s);
    FreeBsize(h, s);
    NodesOfCircle(h);
    OnlyStore(m, m, s, a + n - 1, Nodes(h), s + BSIZE, a + n - s);
    LinkedStore(m, Circle(h.head, h.free), s + BSIZE, a + n - s);
  }

  lemma FreeBsize(h: Heap, f: int)
    requires Placed(h) && Listed(h) && f in h.free
    ensures f + BSIZE - FLINK !in Nodes(h) && f + BSIZE - BLINK !in Nodes(h)
  {
    hide Placed, All, Nodes;
    BsizeSafe(h, f);
  }

  /** How far the joined block reaches. */
  lemma JoinExtent(h: Heap, a: int)
    requires Placed(h) && UsedAt(h.pools, a)
    ensures var s, n := RunStart(h, a), SizeAt(h.pools, a);
            && s <= a && a + BFH <= a + n <= s + RunSize(h, a)
            && (LeftFree(h, a) ==> s + BFH <= a)
            && BFH <= RunSize(h, a) && RunSize(h, a) % 4 == 0
  {
    hide All, PoolOf, BlockOf, Layout, Sum, WellFormed, LeftFree, RightFree;
    ReleaseJoins(h, a);
    UsedBlock(h, a);
    if LeftFree(h, a) { FreeBlock(h, RunStart(h, a)); }
    if RightFree(h, a) { FreeBlock(h, a + SizeAt(h.pools, a)); }
    RunSizeFits(h, a);
  }

  lemma RunSizeFits(h: Heap, a: int)
    requires Placed(h) && UsedAt(h.pools, a)
    ensures BFH <= RunSize(h, a) && RunSize(h, a) % 4 == 0
  {
    hide All, PoolOf, BlockOf, Layout, Sum, WellFormed;
    JoinSplices(h, a);
    JoinSize(h.pools[PoolOf(h.pools, a)].blocks, BlockOf(h.pools, a));
  }

  lemma LinkedOf(m: Words, h: Heap)
    requires ImageOf(m, h)
    ensures Linked(m, Circle(h.head, h.free))
  {
  }

  lemma TailNode(m: Words, h: Heap)
    requires Linked(m, Circle(h.head, h.free))
    ensures At(m, h.head + BLINK) == Circle(h.head, h.free)[|h.free|]
    ensures At(m, h.head + BLINK) in Nodes(h)
    ensures At(m, At(m, h.head + BLINK) + FLINK) == h.head
  {
    var c := Circle(h.head, h.free);
    assert c[|h.free| + 1] == h.head;
    assert At(m, c[|h.free| + 1] + BLINK) == c[|h.free|];
    if |h.free| > 0 { assert c[|h.free|] == h.free[|h.free| - 1]; }
  }

  lemma AppendJoins(m: Words, h: Heap, a: int)
    requires Placed(h) && Listed(h) && UsedAt(h.pools, a) && !LeftFree(h, a) && RunStart(h, a) == a
    requires Linked(m, Circle(h.head, h.free)) && At(m, h.head + BLINK) in Nodes(h)
    requires Spaced(h.head, h.free + [a])
    ensures Joining(m, LeftWords(m, h, a), h, a, a + SizeAt(h.pools, a), h.free + [a])
  {
    hide All, PoolOf, BlockOf, Layout, Sum, WellFormed, LeftFree, RunStart, Linked, Circle, Placed, Listed, UsedAt;
    var n := SizeAt(h.pools, a);
    UsedFar(h, a);
    UsedBlock(h, a);
    LinkedAppend(m, h.head, h.free, a);
    var m1 := Appended(m, h.head, At(m, h.head + BLINK), a);
    AppendOnly(m, h.head, At(m, h.head + BLINK), a, n, Nodes(h));
    AppendSafe(h, a);
    LinkedStore(m1, Circle(h.head, h.free + [a]), a + BSIZE, n);
  }

  lemma AppendOnly(m: Words, head: int, prev: int, a: int, n: int, nodes: set<int>)
    requires head in nodes && prev in nodes && n >= BFH
    requires forall f :: f in nodes ==> Far(f, a)
    ensures Only(m, Appended(m, head, prev, a)[a + BSIZE := n], a, a + n - 1, nodes)
    ensures At(Appended(m, head, prev, a), a + PREVFREE) == At(m, a + PREVFREE)
  {
  }

  lemma AppendSafe(h: Heap, a: int)
    requires Far(h.head, a) && forall f :: f in h.free ==> Far(f, a)
    ensures a + BSIZE - FLINK !in Circle(h.head, h.free + [a]) && a + BSIZE - BLINK !in Circle(h.head, h.free + [a])
    ensures forall f :: f in Nodes(h) ==> Far(f, a)
  {
  }

  // ----- to the right

  function RightWords(m: Words, h: Heap, a: int): Words {
    var s, bn := RunStart(h, a), a + SizeAt(h.pools, a);
    if RightFree(h, a) then Unlinked(m, At(m, bn + BLINK), At(m, bn + FLINK))[s + BSIZE := RunSize(h, a)] else m
  }

  /** Until the list is relinked, the block after the released one reads as it did. */
  lemma ReadRight(m0: Words, m: Words, h: Heap, a: int)
    requires Placed(h) && Listed(h) && ImageOf(m0, h) && UsedAt(h.pools, a)
    requires Only(m0, m, RunStart(h, a), a + SizeAt(h.pools, a) - 1, Nodes(h))
    ensures var bn := a + SizeAt(h.pools, a);
            && bn in All(h.pools) && At(m, bn + BSIZE) == ToWord(All(h.pools)[bn].Field())
            && (RightFree(h, a) ==> At(m, bn + SizeAt(h.pools, bn) + PREVFREE) == SizeAt(h.pools, bn))
            && (RightFree(h, a) <==> FreeAt(h.pools, bn))
            && 0 < bn && bn % 4 == 0 && bn + BH <= h.limit
            && (RightFree(h, a) ==> bn + SizeAt(h.pools, bn) + BH <= h.limit && BFH <= SizeAt(h.pools, bn) <= MAX_SIZE
                                    && SizeAt(h.pools, bn) % 4 == 0)
  {
    hide All, PoolOf, BlockOf, Layout, Sum, WellFormed, RunAt, DirectAt, ImageOf, Nodes;
    ReleaseJoins(h, a);
    ReadAt(m0, h, a);
    var bn := a + SizeAt(h.pools, a);
    HeaderSafe(h, bn);
    AllOwner(h.pools, h.limit, bn);
    BsizeSafe(h, bn);
    if RightFree(h, a) {
      ReadAt(m0, h, bn);
      HeaderSafe(h, bn + SizeAt(h.pools, bn));
    }
  }

  lemma BsizeSafe(h: Heap, x: int)
    requires Placed(h) && Listed(h) && x in All(h.pools)
    ensures x + BSIZE - FLINK !in Nodes(h) && x + BSIZE - BLINK !in Nodes(h)
  {
    hide Placed, Listed, Nodes;
    HeaderSafe(h, x);
  }

  lemma RightJoins(m0: Words, m: Words, h: Heap, a: int)
    requires Placed(h) && Listed(h) && ImageOf(m0, h) && UsedAt(h.pools, a)
    requires Joining(m0, m, h, RunStart(h, a), a + SizeAt(h.pools, a), LeftList(h, a))
    ensures Joining(m0, RightWords(m, h, a), h, RunStart(h, a), RunStart(h, a) + RunSize(h, a), JoinBlock(h, a).free)
  {
    hide All, PoolOf, BlockOf, Layout, Sum, WellFormed, RunAt, DirectAt, ImageOf, Linked, Circle, Nodes, Only,
         Unlinked, Remove, Distinct, Spaced;
    ReleaseJoins(h, a);
    JoinedList(h, a);
    UsedBlock(h, a);
    var s, bn := RunStart(h, a), a + SizeAt(h.pools, a);
    var hi := s + RunSize(h, a);
    JoinExtent(h, a);
    if RightFree(h, a) {
      RightUnlinks(m, h, a);
      FreeBlock(h, bn);
      var m1 := Unlinked(m, At(m, bn + BLINK), At(m, bn + FLINK));
      StartSafe(h, a);
      OnlyWiden(m0, m, s, bn - 1, s, hi - 1, Nodes(h));
      RightOnly(m0, m, h, a, hi);
      LinkedStore(m1, Circle(h.head, JoinBlock(h, a).free), s + BSIZE, RunSize(h, a));
    }
  }

  /** The free block after the released one is on the list, between two other nodes. */
  lemma RightUnlinks(m: Words, h: Heap, a: int)
    requires Placed(h) && Listed(h) && UsedAt(h.pools, a) && RightFree(h, a)
    requires Linked(m, Circle(h.head, LeftList(h, a)))
    ensures var bn := a + SizeAt(h.pools, a);
            var prev, next := At(m, bn + BLINK), At(m, bn + FLINK);
            && prev != bn && next != bn
            && prev in Circle(h.head, LeftList(h, a)) && next in Circle(h.head, LeftList(h, a))
            && At(m, prev + FLINK) == bn && At(m, next + BLINK) == bn
            && Linked(Unlinked(m, prev, next), Circle(h.head, Remove(LeftList(h, a), bn)))
  {
    hide Placed, Listed, UsedAt, Remove, Unlinked, LeftFree, RightFree, LeftList;
    RightListed(h, a);
    LeftListFits(h, a);
    var bn := a + SizeAt(h.pools, a);
    var free := LeftList(h, a);
    var j := IndexOf(free, bn);
    LinkedRemove(m, h.head, free, j);
    RemoveAt(free, j);
    NotSelf(h.head, free, j);
    assert Circle(h.head, free)[j + 1] == bn;
  }

  /** Nodes of the list during a release. */
  lemma LeftNodes(h: Heap, a: int)
    requires Placed(h) && Listed(h) && UsedAt(h.pools, a)
    ensures forall f :: f in Circle(h.head, LeftList(h, a)) ==> f == a || f in Nodes(h)
    ensures forall f :: f in Circle(h.head, LeftList(h, a)) ==> 0 < f && f % 4 == 0 && f + BFH <= h.limit
    ensures !LeftFree(h, a) ==> RunStart(h, a) == a
    ensures LeftFree(h, a) ==> a !in Circle(h.head, LeftList(h, a))
  {
    hide All, PoolOf, BlockOf, Layout, Sum, WellFormed;
    LeftListFits(h, a);
    UsedFar(h, a);
    UsedBlock(h, a);
    AllOwner(h.pools, h.limit, a);
    ReleaseJoins(h, a);
    assert h.pools[PoolOf(h.pools, a)].Valid(h.limit);
    forall f | f in Circle(h.head, LeftList(h, a))
      ensures 0 < f && f % 4 == 0 && f + BFH <= h.limit
    {
      if f != a { NodeBounds(h, f); }
    }
  }

  lemma RightOnly(m0: Words, m: Words, h: Heap, a: int, hi: int)
    requires Placed(h) && Listed(h) && UsedAt(h.pools, a) && RightFree(h, a)
    requires Only(m0, m, RunStart(h, a), hi - 1, Nodes(h)) && a + BFH <= hi && RunStart(h, a) + BFH <= hi
    requires RunStart(h, a) <= a
    requires var bn := a + SizeAt(h.pools, a);
             && At(m, bn + BLINK) in Circle(h.head, LeftList(h, a))
             && At(m, bn + FLINK) in Circle(h.head, LeftList(h, a))
    ensures Only(m0, RightWords(m, h, a), RunStart(h, a), hi - 1, Nodes(h))
    ensures At(RightWords(m, h, a), RunStart(h, a) + PREVFREE) == At(m, RunStart(h, a) + PREVFREE)
  {
    hide All, PoolOf, BlockOf, Layout, Sum, WellFormed, LeftFree, RightFree, RunStart, RunSize, Circle, LeftList;
    LeftNodes(h, a);
    StartSafe(h, a);
  }

  /** The header of the joined block holds no link field. */
  lemma StartSafe(h: Heap, a: int)
    requires Placed(h) && Listed(h) && UsedAt(h.pools, a)
    ensures var s := RunStart(h, a);
            && s - FLINK !in Circle(h.head, LeftList(h, a)) && s - BLINK !in Circle(h.head, LeftList(h, a))
            && s + BSIZE - FLINK !in Circle(h.head, LeftList(h, a))
            && s + BSIZE - BLINK !in Circle(h.head, LeftList(h, a))
    ensures forall f :: f in Circle(h.head, JoinBlock(h, a).free) ==> f in Circle(h.head, LeftList(h, a))
  {
    hide Placed, Listed, UsedAt, LeftFree, RightFree, Remove, JoinBlock, LeftList, RunStart;
    LeftListFits(h, a);
    JoinedList(h, a);
    var s, free := RunStart(h, a), LeftList(h, a);
    if RightFree(h, a) {
      RightListed(h, a);
      RemoveKeeps(free, a + SizeAt(h.pools, a));
    }
    var j := IndexOf(free, s);
    forall f | f in Circle(h.head, free) ensures f == s || Far(f, s) {
      if f in free {
        var i := IndexOf(free, f);
      }
    }
  }

  lemma RightListed(h: Heap, a: int)
    requires Placed(h) && Listed(h) && UsedAt(h.pools, a) && RightFree(h, a)
    ensures a + SizeAt(h.pools, a) in LeftList(h, a)
  {
    hide All, PoolOf, BlockOf, Layout, Sum, WellFormed, LeftFree, RightFree, Remove;
    ReleaseJoins(h, a);
  }

  // ----- wiping and sealing

  /** Every aligned address up to `limit` holds a word. */
  ghost predicate Full(m: Words, limit: int) {
    forall x :: 0 <= x < limit && x % 4 == 0 ==> x in m
  }

  function SealWords(m: Words, s: int, total: int): Words {
    Fill(m, s + BFH, s + total, WIPED)[s + total + PREVFREE := total]
  }

  lemma SealBlock(m: Words, limit: int, s: int, tag: int, total: int)
    requires Full(m, limit) && 0 <= s && s + total <= limit && BFH <= total
    requires HeaderAt(m, s, tag, Free(total))
    ensures RunAt(SealWords(m, s, total), s, tag, [Free(total)])
  {
    OneBlockAt(SealWords(m, s, total), s, tag, Free(total)) by {
      var m' := SealWords(m, s, total);
      forall x | s + BFH <= x < s + total && x % 4 == 0 ensures At(m', x) == WIPED {
        assert x in m;
      }
    }
  }

  lemma SealLinked(m: Words, h: Heap, f: int, total: int)
    requires Placed(h) && Listed(h) && f in h.free && total == SizeAt(h.pools, f)
    requires Linked(m, Circle(h.head, h.free))
    ensures Linked(SealWords(m, f, total), Circle(h.head, h.free))
  {
    hide Placed, Listed, SizeAt, Linked, Circle, Nodes;
    SplitNodes(h, f);
    NodesOfCircle(h);
    NextNode(h, f);
    LinkedFill(m, Circle(h.head, h.free), f + BFH, f + total, WIPED);
    LinkedStore(Fill(m, f + BFH, f + total, WIPED), Circle(h.head, h.free), f + total + PREVFREE, total);
  }

  lemma SealOnly(m0: Words, m: Words, s: int, total: int, nodes: set<int>)
    requires Only(m0, m, s, s + total - 1, nodes) && total >= BFH
    ensures Only(m0, SealWords(m, s, total), s, s + total, nodes)
  {
  }

  /** The joined block, wiped and announced to the header after it, completes the image. */
  lemma SealJoins(m0: Words, m: Words, h: Heap, a: int)
    requires Inv(h) && ImageOf(m0, h) && UsedAt(h.pools, a) && Full(m, h.limit)
    requires Joining(m0, m, h, RunStart(h, a), RunStart(h, a) + RunSize(h, a), JoinBlock(h, a).free)
    ensures var m' := SealWords(m, RunStart(h, a), RunSize(h, a));
            && ImageOf(m', JoinBlock(h, a))
            && Only(m0, m', RunStart(h, a), RunStart(h, a) + RunSize(h, a), Nodes(h))
  {
    hide All, PoolOf, BlockOf, Layout, Sum, WellFormed, Remove, Counted, LengthsAgree, Linked, RunAt, Nodes, Circle,
         PoolAt, SealWords, Only, Full, DirectAt, JoinList;
    var s, total := RunStart(h, a), RunSize(h, a);
    var m' := SealWords(m, s, total);
    var h1 := JoinBlock(h, a);
    JoinKeeps(h, a);
    JoinListed(h, a);
    JoinSplices(h, a);
    JoinedBlock(h, a);
    JoinExtent(h, a);
    var k, i := PoolOf(h.pools, a), BlockOf(h.pools, a);
    var bs := h.pools[k].blocks;
    var lo := JoinFrom(bs, i);
    JoinBounds(bs, i) by { assert h.pools[k].Valid(h.limit); }
    ReadBlock(m0, h, k, lo);
    var tag := LastTag(0, bs[..lo]);
    CarveInPool(h1, s);
    SealBlock(m, h.limit, s, tag, total) by { assert h1.pools[k].Valid(h.limit); }
    SealLinked(m, h1, s, total);
    SealOnly(m0, m, s, total, Nodes(h));
    SealTag(m, s, total);
    SumOfOne(Free(total));
    hide BlockAt, Joining;
    ImageSplice(m0, m', h, h1, k, lo, JoinTo(bs, i), [Free(total)]);
  }

  lemma SealTag(m: Words, s: int, total: int)
    ensures At(SealWords(m, s, total), s + total) == total
  {
  }

  lemma JoinKept(m0: Words, m: Words, h: Heap, a: int)
    requires Inv(h) && UsedAt(h.pools, a)
    requires Only(m0, m, RunStart(h, a), RunStart(h, a) + RunSize(h, a), Nodes(h))
    ensures Kept(m0, m, h, JoinBlock(h, a), {a + BH})
  {
    hide All, PoolOf, BlockOf, Layout, Sum, WellFormed, Counted, LengthsAgree, Only, Nodes, SameLive, JoinBlock, Apart;
    var s, total := RunStart(h, a), RunSize(h, a);
    JoinLive(h, a);
    RunInPool(h, a);
    forall x | UsedAt(h.pools, x) && x + BH !in {a + BH}
      ensures s + total < x + BH || x + SizeAt(h.pools, x) <= s
    {
      RunApart(h, a, x);
    }
    PoolWriteKeeps(m0, m, h, JoinBlock(h, a), PoolOf(h.pools, a), s, s + total, {a + BH});
  }

  lemma RunInPool(h: Heap, a: int)
    requires Placed(h) && UsedAt(h.pools, a)
    ensures var k := PoolOf(h.pools, a);
            && k < |h.pools| && h.pools[k].base <= RunStart(h, a)
            && RunStart(h, a) + RunSize(h, a) + BH <= h.pools[k].End()
  {
    hide All, PoolOf, BlockOf, Layout, Sum, WellFormed;
    JoinedBlock(h, a);
    JoinSplices(h, a);
    var bs, i := h.pools[PoolOf(h.pools, a)].blocks, BlockOf(h.pools, a);
    SplicePlaced(h, JoinBlock(h, a), PoolOf(h.pools, a), JoinFrom(bs, i), JoinTo(bs, i), [Free(Sum(Joined(bs, i)))]);
    CarveInPool(JoinBlock(h, a), RunStart(h, a));
  }

  /** Every other used block is apart from the joined run. */
  lemma RunApart(h: Heap, a: int, x: int)
    requires Placed(h) && UsedAt(h.pools, a) && UsedAt(h.pools, x) && x != a
    ensures RunStart(h, a) + RunSize(h, a) <= x || x + SizeAt(h.pools, x) <= RunStart(h, a)
  {
    hide All, PoolOf, BlockOf, Layout, Sum, WellFormed, LeftFree, RightFree, RunStart, RunSize;
    ReleaseJoins(h, a);
    JoinExtent(h, a);
    UsedBlock(h, x);
    AllApart(h.pools, h.limit, a, x);
    if LeftFree(h, a) { AllApart(h.pools, h.limit, RunStart(h, a), x); }
    if RightFree(h, a) { AllApart(h.pools, h.limit, a + SizeAt(h.pools, a), x); }
  }

  lemma DecodeFull(b: seq<byte>)
    requires |b| % 4 == 0
    ensures Full(Decode(b), |b|)
  {
  }

  // ----- what the methods read

  /** An aligned address with room for a free header. */
  predicate NodeAddr(x: int, limit: int) {
    0 < x && x % 4 == 0 && x + BFH <= limit <= WORD_SPAN
  }

  lemma UsedInPool(h: Heap, a: int)
    requires Placed(h) && UsedAt(h.pools, a)
    ensures var n := SizeAt(h.pools, a);
            && 0 < a && a % 4 == 0 && BFH <= n && (a + n) % 4 == 0
            && h.limit <= WORD_SPAN
  {
    hide All, PoolOf, BlockOf, Sum, AddrOf, Arranged, Apart, DirectValid;
    UsedBlock(h, a);
    BlockAddr(h, a);
    SumAligned(a, SizeAt(h.pools, a));
  }

  lemma BlockAddr(h: Heap, x: int)
    requires Placed(h) && x in All(h.pools)
    ensures 0 < x && x % 4 == 0
  {
    hide All, PoolOf, BlockOf, Layout, Sum, WellFormed, Apart, DirectValid;
    AllOwner(h.pools, h.limit, x);
    assert h.pools[PoolOf(h.pools, x)].Valid(h.limit);
  }

  lemma SumAligned(x: int, n: int)
    requires x % 4 == 0 && n % 4 == 0
    ensures (x + n) % 4 == 0
  {
  }

  lemma RunFits(h: Heap, a: int)
    requires Placed(h) && UsedAt(h.pools, a)
    ensures RunSize(h, a) <= MAX_SIZE && RunStart(h, a) + RunSize(h, a) + BH <= h.limit
  {
    hide All, PoolOf, BlockOf, Layout, Sum, WellFormed, Apart, DirectValid, RunSize, RunStart;
    RunInPool(h, a);
    assert h.pools[PoolOf(h.pools, a)].Valid(h.limit);
  }

  lemma StartIsBlock(h: Heap, a: int)
    requires Placed(h) && UsedAt(h.pools, a)
    ensures !LeftFree(h, a) ==> RunStart(h, a) == a
  {
    hide Placed, LeftFree, RunStart, RunSize, UsedAt, FreeAt, SizeAt, All;
    ReleaseJoins(h, a);
  }

  lemma LeftSizes(h: Heap, a: int)
    requires Placed(h) && Listed(h) && UsedAt(h.pools, a)
    ensures var n, s := SizeAt(h.pools, a), RunStart(h, a); var ln := a - s;
            && NodeAddr(a, h.limit) && NodeAddr(s, h.limit)
            && BFH <= n && ln + n <= MAX_SIZE && a + n + BH <= h.limit && (a + n) % 4 == 0
            && (LeftFree(h, a) ==> ln >= BFH)
            && (!LeftFree(h, a) ==> ln == 0)
  {
    hide Placed, Listed, UsedAt, SizeAt, LeftFree, RunStart, RunSize;
    UsedInPool(h, a);
    RunFits(h, a);
    JoinExtent(h, a);
    StartAligned(h, a);
    StartIsBlock(h, a);
  }

  lemma UsedFacts(m: Words, h: Heap, a: int)
    requires Inv(h) && ImageOf(m, h) && UsedAt(h.pools, a)
    ensures var n := SizeAt(h.pools, a);
            && 0 < a && a % 4 == 0 && (a + n) % 4 == 0 && a + n + BH <= h.limit && 0 < n <= MAX_SIZE
            && At(m, a + BSIZE) == ToWord(-n) && At(m, a + n + PREVFREE) == 0
  {
    hide Inv, ImageOf, UsedAt, SizeAt, At, LeftFree, RunStart, Far;
    LeftFacts(m, h, a);
  }

  lemma LeftFacts(m: Words, h: Heap, a: int)
    requires Inv(h) && ImageOf(m, h) && UsedAt(h.pools, a)
    ensures var n, s := SizeAt(h.pools, a), RunStart(h, a); var ln := a - s;
            && NodeAddr(a, h.limit) && NodeAddr(s, h.limit) && NodeAddr(h.head, h.limit)
            && At(m, a + BSIZE) == ToWord(-n) && At(m, a + n + PREVFREE) == 0
            && BFH <= n && ln + n <= MAX_SIZE && a + n + BH <= h.limit && (a + n) % 4 == 0
            && At(m, a + PREVFREE) == ln
            && (LeftFree(h, a) ==> ln >= BFH && At(m, s + BSIZE) == ln)
            && (!LeftFree(h, a) ==> ln == 0)
            && Far(h.head, a)
            && NodeAddr(At(m, h.head + BLINK), h.limit) && At(m, At(m, h.head + BLINK) + FLINK) == h.head
            && NodeAddr(At(m, h.head + FLINK), h.limit) && At(m, At(m, h.head + FLINK) + BLINK) == h.head
  {
    hide All, PoolOf, BlockOf, Layout, Sum, Linked, RunAt, LeftFree, RunStart, Counted, DirectAt, WellFormed, Circle,
         Placed, Listed, LengthsAgree, At, NodeAddr;
    LeftSizes(h, a);
    ReadAt(m, h, a);
    ReadLeft(m, h, a);
    ReleaseJoins(h, a);
    if LeftFree(h, a) { ReadAt(m, h, RunStart(h, a)); }
    TailFacts(m, h);
    UsedFar(h, a);
  }

  lemma TailFacts(m: Words, h: Heap)
    requires Placed(h) && Listed(h) && Linked(m, Circle(h.head, h.free))
    ensures NodeAddr(h.head, h.limit)
    ensures NodeAddr(At(m, h.head + BLINK), h.limit) && At(m, At(m, h.head + BLINK) + FLINK) == h.head
    ensures At(m, h.head + BLINK) in Nodes(h) && At(m, At(m, h.head + FLINK) + BLINK) == h.head
    ensures NodeAddr(At(m, h.head + FLINK), h.limit)
  {
    hide Arranged, DirectValid, FreeAt;
    TailNode(m, h);
    NodesOfCircle(h);
    NodeBounds(h, At(m, h.head + BLINK));
    var c := Circle(h.head, h.free);
    assert c[0] == h.head && At(m, c[0] + FLINK) == c[1] && At(m, c[1] + BLINK) == c[0];
    NodeBounds(h, c[1]);
  }

  lemma RightSizes(h: Heap, a: int)
    requires Placed(h) && Listed(h) && UsedAt(h.pools, a)
    ensures var s, bn := RunStart(h, a), a + SizeAt(h.pools, a); var total := RunSize(h, a);
            && NodeAddr(s, h.limit) && s + BFH <= bn
            && s + total + BH <= h.limit && BFH <= total <= MAX_SIZE && total % 4 == 0
            && s + total == bn + (if RightFree(h, a) then SizeAt(h.pools, bn) else 0)
  {
    hide All, PoolOf, BlockOf, Layout, Sum, LeftFree, RunStart, Counted, WellFormed, RunSize, RightFree, SizeAt;
    ReleaseJoins(h, a);
    JoinExtent(h, a);
    RunInPool(h, a);
    UsedBlock(h, a);
    AllOwner(h.pools, h.limit, a);
    assert h.pools[PoolOf(h.pools, a)].Valid(h.limit);
    StartAligned(h, a);
  }

  lemma RightFacts(m0: Words, m: Words, h: Heap, a: int)
    requires Inv(h) && ImageOf(m0, h) && UsedAt(h.pools, a)
    requires Joining(m0, m, h, RunStart(h, a), a + SizeAt(h.pools, a), LeftList(h, a))
    ensures var s, bn := RunStart(h, a), a + SizeAt(h.pools, a); var total := RunSize(h, a);
            && NodeAddr(s, h.limit) && bn % 4 == 0 && s + BFH <= bn && bn + BH <= h.limit
            && s + total + BH <= h.limit && BFH <= total <= MAX_SIZE && total % 4 == 0
            && At(m, s + BSIZE) == bn - s
            && (RightFree(h, a) ==>
                  var rn := s + total - bn;
                  && BFH <= rn && At(m, bn + BSIZE) == rn && At(m, bn + rn + PREVFREE) == rn && (bn + rn) % 4 == 0
                  && NodeAddr(bn, h.limit))
            && (!RightFree(h, a) ==> s + total == bn && ToSigned(At(m, bn + BSIZE)) < 0)
  {
    hide All, LeftFree, RunStart, RunSize, RightFree, Circle, LeftList, Only, Nodes, Linked, Placed, Listed,
         LengthsAgree, Counted, ImageOf, UsedAt, FreeAt, At;
    ReadRight(m0, m, h, a);
    RightSizes(h, a);
    var bn := a + SizeAt(h.pools, a);
    if RightFree(h, a) {
      FreeFields(h, bn);
    } else {
      NotFreeAt(h, bn);
      NotFreeNegative(All(h.pools)[bn], h, bn);
    }
  }

  lemma FreeFields(h: Heap, f: int)
    requires Placed(h) && FreeAt(h.pools, f)
    ensures All(h.pools)[f].Field() == SizeAt(h.pools, f)
  {
    hide All, Placed;
  }

  lemma NotFreeAt(h: Heap, x: int)
    requires x in All(h.pools) && !FreeAt(h.pools, x)
    ensures !All(h.pools)[x].Free?
  {
    hide All;
  }

  /** The links of the free block that is taken off the list. */
  lemma RightLinks(m: Words, h: Heap, a: int)
    requires Placed(h) && Listed(h) && UsedAt(h.pools, a) && RightFree(h, a)
    requires Linked(m, Circle(h.head, LeftList(h, a)))
    ensures var s, bn := RunStart(h, a), a + SizeAt(h.pools, a);
            var prev, next := At(m, bn + BLINK), At(m, bn + FLINK);
            && NodeAddr(prev, h.limit) && NodeAddr(next, h.limit)
            && Far(prev, bn) && prev + FLINK != s + BSIZE && next + BLINK != s + BSIZE
            && At(m, prev + FLINK) == bn && At(m, next + BLINK) == bn
  {
    hide All, UsedAt, Linked, LeftFree, RunStart, RightFree, Circle, LeftList, Listed, Arranged, DirectValid;
    RightUnlinks(m, h, a);
    LeftNodes(h, a);
    StartSafe(h, a);
    RightFar(m, h, a);
  }

  lemma StartAligned(h: Heap, a: int)
    requires Placed(h) && UsedAt(h.pools, a)
    ensures RunStart(h, a) % 4 == 0 && RunStart(h, a) > 0
  {
    hide All, PoolOf, BlockOf, Layout, Sum, WellFormed, LeftFree, RunStart;
    ReleaseJoins(h, a);
    AllOwner(h.pools, h.limit, RunStart(h, a));
    assert h.pools[PoolOf(h.pools, RunStart(h, a))].Valid(h.limit);
  }

  lemma NotFreeNegative(b: Block, h: Heap, x: int)
    requires Placed(h) && x in All(h.pools) && All(h.pools)[x] == b && !b.Free?
    ensures ToSigned(ToWord(b.Field())) < 0
  {
    hide All, PoolOf, BlockOf, Layout, Sum;
    AllOwner(h.pools, h.limit, x);
    var p := h.pools[PoolOf(h.pools, x)];
    assert p.Valid(h.limit);
  }

  lemma RightFar(m: Words, h: Heap, a: int)
    requires Placed(h) && Listed(h) && UsedAt(h.pools, a) && RightFree(h, a)
    requires var bn := a + SizeAt(h.pools, a);
             At(m, bn + BLINK) in Circle(h.head, LeftList(h, a)) && At(m, bn + BLINK) != bn
    ensures Far(At(m, a + SizeAt(h.pools, a) + BLINK), a + SizeAt(h.pools, a))
  {
    hide Placed, Listed, UsedAt, LeftFree, RightFree, LeftList;
    LeftListFits(h, a);
    RightListed(h, a);
    var free, bn := LeftList(h, a), a + SizeAt(h.pools, a);
    var i, j := IndexOf(free, bn), IndexOf(free, At(m, bn + BLINK));
  }

  lemma InvParts(h: Heap)
    requires Inv(h)
    ensures Placed(h) && Listed(h) && LengthsAgree(h) && Counted(h)
  {
  }

  lemma JoiningLinked(m0: Words, m: Words, h: Heap, lo: int, hi: int, free: seq<int>)
    requires Joining(m0, m, h, lo, hi, free)
    ensures Linked(m, Circle(h.head, free))
  {
  }

  // ----- whole releases

  lemma TotallocNonNegative(h: Heap, buf: int)
    requires Inv(h) && IsLive(h, buf)
    ensures h.stats.totalloc >= 0
    ensures LivePooled(h, buf) ==> h.stats.totalloc >= SizeAt(h.pools, buf - BH)
    ensures LiveDirect(h, buf) ==> h.stats.totalloc >= h.direct[DirectOf(h.direct, buf - BDH)].size
  {
    hide All, PoolOf, BlockOf, Layout, Sum, TallyRun, TallyPools, DirectBytes, DirectOf;
    AllSized(h);
    Tallies.TalliesNonNegative(h.pools);
    DirectsNonNegative(h, h.direct);
    if LivePooled(h, buf) {
      PooledBytes(h, buf - BH);
    }
    if LiveDirect(h, buf) {
      DirectShare(h, h.direct, DirectOf(h.direct, buf - BDH));
    }
  }

  lemma UsedTotal(h: Heap, a: int)
    requires Inv(h) && UsedAt(h.pools, a)
    ensures h.stats.totalloc >= SizeAt(h.pools, a)
  {
    hide Inv, SizeAt, UsedAt;
    assert LivePooled(h, a + BH);
    TotallocNonNegative(h, a + BH);
  }

  lemma AllSized(h: Heap)
    requires Placed(h)
    ensures forall k :: 0 <= k < |h.pools| ==> Sized(h.pools[k].blocks)
  {
    forall k | 0 <= k < |h.pools| ensures Sized(h.pools[k].blocks) {
      assert h.pools[k].Valid(h.limit);
    }
  }

  lemma {:induction false} DirectsNonNegative(h: Heap, ds: seq<Direct>)
    requires forall j :: 0 <= j < |ds| ==> DirectValid(h, ds[j])
    ensures DirectBytes(ds) >= 0
  {
    hide DirectValid;
    if ds != [] {
      assert DirectValid(h, ds[0]);
      DirectSize(h, ds[0]);
      DirectsNonNegative(h, ds[1..]);
    }
  }

  lemma DirectSize(h: Heap, d: Direct)
    requires DirectValid(h, d)
    ensures BDH + SIZEQ <= d.size <= MAX_SIZE && d.size % 4 == 0
  {
  }

  lemma DirectShare(h: Heap, ds: seq<Direct>, j: nat)
    requires j < |ds| && forall i :: 0 <= i < |ds| ==> DirectValid(h, ds[i])
    ensures DirectBytes(ds) >= ds[j].size
  {
    hide DirectValid;
    var rest := ds[..j] + ds[j + 1..];
    DirectDrop(ds, j);
    forall i | 0 <= i < |rest| ensures DirectValid(h, rest[i]) {
      assert rest[i] == ds[if i < j then i else i + 1];
    }
    DirectsNonNegative(h, rest);
  }

  lemma PooledBytes(h: Heap, a: int)
    requires Placed(h) && UsedAt(h.pools, a)
    ensures TallyPools(h.pools).used >= SizeAt(h.pools, a)
  {
    hide All, PoolOf, BlockOf, Layout, Sum, TallyRun, TallyPools;
    UsedBlock(h, a);
    var k, i := PoolOf(h.pools, a), BlockOf(h.pools, a);
    var bs := h.pools[k].blocks;
    AllSized(h);
    TallySplicePools(h.pools, k, i, i + 1, []);
    assert bs[i..i + 1] == [bs[i]];
    TallyOfOne(bs[i]);
    EmptyRun(0);
    var pools' := SplicePools(h.pools, k, i, i + 1, []);
    forall n | 0 <= n < |pools'| ensures Sized(pools'[n].blocks) {
      if n == k {
        forall x | 0 <= x < |pools'[n].blocks| ensures pools'[n].blocks[x].Sized() {
          SpliceIndex(bs, i, i + 1, [], x);
        }
      }
    }
    Tallies.TalliesNonNegative(pools');
  }

  /** The header after a free block shows a negative size. */
  lemma AfterFree(m: Words, h: Heap, f: int)
    requires Placed(h) && Listed(h) && ImageOf(m, h) && f in h.free
    ensures var n := SizeAt(h.pools, f);
            && ToSigned(At(m, f + n + BSIZE)) < 0 && At(m, f + n + PREVFREE) == n && At(m, f + BSIZE) == n
            && BFH <= n <= MAX_SIZE && n % 4 == 0 && NodeAddr(f, h.limit) && f + n + BH <= h.limit
            && (f + n) % 4 == 0
  {
    hide All, PoolOf, BlockOf, Layout, Sum, Linked, RunAt, DirectAt;
    ReadAt(m, h, f);
    FreeBlock(h, f);
    var k, i := PoolOf(h.pools, f), BlockOf(h.pools, f);
    Located(h.pools, h.limit, k, i + 1);
    NextAddr(h.pools[k].blocks, i);
    AllOwner(h.pools, h.limit, f + SizeAt(h.pools, f));
    NotFreeNegative(All(h.pools)[f + SizeAt(h.pools, f)], h, f + SizeAt(h.pools, f));
  }

  lemma ReadDirect(m: Words, h: Heap, buf: int)
    requires Placed(h) && ImageOf(m, h) && LiveDirect(h, buf)
    ensures var d := h.direct[DirectOf(h.direct, buf - BDH)];
            && d.addr == buf - BDH && 0 < d.addr && d.addr % 4 == 0 && buf % 4 == 0
            && At(m, d.addr + TSIZE) == d.size && At(m, buf - BH + PREVFREE) == 0 && At(m, buf - BH + BSIZE) == 0
            && BDH + SIZEQ <= d.size <= MAX_SIZE && d.size % 4 == 0 && d.addr + d.size <= h.limit
  {
    hide Arranged, Linked, PoolAt, Circle, Apart;
    var j := DirectOf(h.direct, buf - BDH);
    assert DirectAt(m, h.direct[j]) && DirectValid(h, h.direct[j]);
  }

  lemma LimitAligned(h: Heap)
    requires Inv(h)
    ensures h.limit % 4 == 0 && h.limit <= WORD_SPAN
  {
  }

  lemma SealFacts(m: Words, h: Heap, a: int)
    requires Inv(h) && UsedAt(h.pools, a) && ImageOf(m, JoinBlock(h, a))
    ensures var s, total := RunStart(h, a), RunSize(h, a);
            && ToSigned(At(m, s + total + BSIZE)) < 0
            && BFH <= total <= MAX_SIZE && total % 4 == 0
            && NodeAddr(s, h.limit) && s + total + BH <= h.limit && (s + total) % 4 == 0
  {
    hide All, PoolOf, BlockOf, Layout, Sum, JoinBlock, Inv, ImageOf, RunSize, RunStart;
    InvParts(h);
    JoinKeeps(h, a);
    InvParts(JoinBlock(h, a));
    JoinedBlock(h, a);
    JoinListed(h, a);
    AfterFree(m, JoinBlock(h, a), RunStart(h, a));
    JoinStats(h, a);
  }

  lemma JoinStats(h: Heap, a: int)
    requires Inv(h) && UsedAt(h.pools, a)
    ensures var h' := JoinBlock(h, a);
            && h'.head == h.head && h'.limit == h.limit && h'.direct == h.direct && h'.ctl == h.ctl
            && h'.stats == h.stats.(totalloc := h.stats.totalloc - SizeAt(h.pools, a), numrel := h.stats.numrel + 1)
  {
    hide All, PoolOf, BlockOf, Layout, Sum, WellFormed;
    JoinSplices(h, a);
  }

  // ----- handing back a pool

  /**
   A release hands back its pool exactly when the joined block passes the test, and then the
   block is the whole pool.
   */
  lemma RelPooledCases(h: Heap, a: int)
    requires Inv(h) && UsedAt(h.pools, a)
    ensures var h1, s := JoinBlock(h, a), RunStart(h, a); var k := PoolOf(h.pools, a);
            && Inv(h1) && k < |h1.pools| && s in h1.free && SizeAt(h1.pools, s) == RunSize(h, a)
            && RelPooled(h, a) == (if WholePool(h1, RunSize(h, a)) then DropPool(h1, k, s) else h1)
            && (WholePool(h1, RunSize(h, a)) <==> h1.ctl.release && h1.ctl.poolLen > 0 && Empty(h1.pools[k]))
            && (Empty(h1.pools[k]) ==> h1.pools[k].base == s)
  {
    hide All, BlockOf, Layout, Sum, PoolOf, Counted, WholePool, DropPool, JoinBlock, JoinList, Placed, Listed,
         LengthsAgree;
    JoinKeeps(h, a);
    JoinedBlock(h, a);
    JoinListed(h, a);
    JoinSplices(h, a);
    var h1 := JoinBlock(h, a);
    var s := RunStart(h, a);
    var k, i := PoolOf(h1.pools, s), BlockOf(h1.pools, s);
    WholePoolTest(h1, k, i);
    EmptyRun(0);
    assert h1.pools[k].blocks[..0] == [];
  }

  lemma DropFacts(m: Words, h: Heap, k: nat)
    requires Placed(h) && Listed(h) && ImageOf(m, h) && k < |h.pools| && Empty(h.pools[k])
    ensures var b := h.pools[k].base; var n := SizeAt(h.pools, b);
            && b in h.free && NodeAddr(b, h.limit) && BFH <= n && (b + n) % 4 == 0 && b + n + BH <= h.limit
            && At(m, b + PREVFREE) == 0 && At(m, b + BSIZE) == n
            && At(m, b + n + PREVFREE) == n && At(m, b + n + BSIZE) == ToWord(ESENT)
  {
    hide All, PoolOf, BlockOf, Layout, Sum, Linked, DirectAt, Circle, Nodes, LastTag, RunAt;
    var p := h.pools[k];
    assert p.Valid(h.limit);
    EmptyRun(0);
    assert p.blocks[..0] == [];
    Located(h.pools, h.limit, k, 0);
    ReadBlock(m, h, k, 0);
    LastTagEmpty();
    AfterFree(m, h, p.base);
  }

  /** The neighbours of a listed block in the list. */
  lemma DropLinks(m: Words, h: Heap, b: int)
    requires Placed(h) && Listed(h) && b in h.free && Linked(m, Circle(h.head, h.free))
    ensures var prev, next := At(m, b + BLINK), At(m, b + FLINK);
            && NodeAddr(prev, h.limit) && NodeAddr(next, h.limit) && Far(prev, b)
            && At(m, prev + FLINK) == b && At(m, next + BLINK) == b
  {
    hide Arranged, DirectValid, FreeAt, Linked, Listed, Circle;
    WholeLinked(m, h, b);
    NodesOfCircle(h);
    NodeBounds(h, At(m, b + BLINK));
    NodeBounds(h, At(m, b + FLINK));
    NodesFar(h, At(m, b + BLINK), b);
  }

  lemma NodesFar(h: Heap, f: int, g: int)
    requires Placed(h) && Listed(h) && f in Nodes(h) && g in h.free && f != g
    ensures Far(f, g)
  {
    hide Placed, Listed;
    ListSpaced(h);
    var i, j := IndexOf(h.free, f), IndexOf(h.free, g);
  }

  lemma LastTagEmpty()
    ensures LastTag(0, []) == 0
  {
  }

  lemma DropImage(m: Words, h: Heap, k: nat)
    requires Inv(h) && ImageOf(m, h) && k < |h.pools| && Empty(h.pools[k])
    ensures var b := h.pools[k].base;
            var h', m' := DropPool(h, k, b), Unlinked(m, At(m, b + BLINK), At(m, b + FLINK));
            && Inv(h') && ImageOf(m', h') && Kept(m, m', h, h', {})
  {
    hide All, PoolOf, BlockOf, Layout, Sum, Linked, DirectAt, Circle, Nodes, Unlinked, Only, Placed, Listed, Counted,
         LengthsAgree, PoolAt, SameLive;
    DropKeepsInv(h, k);
    DropLive(h, k);
    var b := h.pools[k].base;
    WholeLinked(m, h, b) by { DropFacts(m, h, k); }
    var h', m' := DropPool(h, k, b), Unlinked(m, At(m, b + BLINK), At(m, b + FLINK));
    ImageDrop(m, m', h, h', k);
    LinkWriteKeeps(m, m', h, h', {});
  }

  /** Writes to link fields alone keep all buffers. */
  lemma LinkWriteKeeps(m: Words, m': Words, h: Heap, h': Heap, but: set<int>)
    requires Placed(h) && Listed(h) && SameLive(h, h', but)
    requires Only(m, m', 0, -1, Nodes(h))
    ensures Kept(m, m', h, h', but)
  {
    hide All, PoolOf, BlockOf, Layout, Sum, WellFormed, SamePayload, Only, SameLive, Nodes, Arranged;
    forall b | b !in but && IsLive(h, b)
      ensures SamePayload(m, m', b, Usable(h, b))
    {
      if LivePooled(h, b) {
        UsedPositive(h, b - BH);
        PooledKept(m, m', h, 0, -1, b - BH);
      } else {
        var j := DirectOf(h.direct, b - BDH);
        assert DirectValid(h, h.direct[j]);
        DirectKept(m, m', h, 0, -1, j);
      }
    }
  }

  lemma UsedPositive(h: Heap, a: int)
    requires Placed(h) && UsedAt(h.pools, a)
    ensures a > 0
  {
    hide All, PoolOf, BlockOf, Layout, Sum, WellFormed;
    AllOwner(h.pools, h.limit, a);
    assert h.pools[PoolOf(h.pools, a)].Valid(h.limit);
  }

  // ----- direct blocks

  lemma DirectReleased(m: Words, h: Heap, buf: int, c: int)
    requires Inv(h) && ImageOf(m, h) && LiveDirect(h, buf)
    ensures var j := DirectOf(h.direct, buf - BDH);
            var m' := Fill(m, buf, h.direct[j].addr + h.direct[j].size, c);
            && Inv(RelDirect(h, j)) && ImageOf(m', RelDirect(h, j))
            && Kept(m, m', h, RelDirect(h, j), {buf})
  {
    hide All, PoolOf, BlockOf, Layout, Sum, Linked, DirectAt, Circle, Only, Placed, Listed, Counted,
         LengthsAgree, PoolAt, SameLive, RelDirect, DirectOf, Nodes, SamePayload;
    var j := DirectOf(h.direct, buf - BDH);
    var d := h.direct[j];
    var m' := Fill(m, buf, d.addr + d.size, c);
    RelDirectKeeps(h, j);
    RelDirectLive(h, j);
    FillOnly(m, d.addr, d.addr + d.size - 1, buf, d.addr + d.size, c, {});
    ImageDropDirect(m, m', h, j);
    FillOnly(m, d.addr, d.addr + d.size - 1, buf, d.addr + d.size, c, Nodes(h));
    forall b | b != buf && IsLive(h, b)
      ensures SamePayload(m, m', b, Usable(h, b))
    {
      OtherBufferKept(m, m', h, j, b);
    }
  }

  lemma FillOnly(m: Words, lo: int, hi: int, x: int, y: int, c: int, nodes: set<int>)
    requires lo <= x && y <= hi + 1
    ensures Only(m, Fill(m, x, y, c), lo, hi, nodes)
  {
  }

  lemma OtherBufferKept(m: Words, m': Words, h: Heap, j: nat, b: int)
    requires Placed(h) && Listed(h) && j < |h.direct| && IsLive(h, b) && b != h.direct[j].addr + BDH
    requires Only(m, m', h.direct[j].addr, h.direct[j].addr + h.direct[j].size - 1, Nodes(h))
    ensures SamePayload(m, m', b, Usable(h, b))
  {
    hide All, PoolOf, BlockOf, Layout, Sum, WellFormed, SamePayload, Only, Nodes;
    var d := h.direct[j];
    assert DirectValid(h, d);
    if LivePooled(h, b) {
      AllOwner(h.pools, h.limit, b - BH);
      var p := h.pools[PoolOf(h.pools, b - BH)];
      assert Apart(p.base, p.End(), d.addr, d.addr + d.size);
      PooledKept(m, m', h, d.addr, d.addr + d.size - 1, b - BH);
    } else {
      var i := DirectOf(h.direct, b - BDH);
      assert DirectValid(h, h.direct[i]);
      if i < j {
        assert Apart(h.direct[i].addr, h.direct[i].addr + h.direct[i].size, d.addr, d.addr + d.size);
      } else {
        assert Apart(d.addr, d.addr + d.size, h.direct[i].addr, h.direct[i].addr + h.direct[i].size);
      }
      DirectKept(m, m', h, d.addr, d.addr + d.size - 1, i);
    }
  }

  lemma CountedOf(h: Heap)
    requires Inv(h)
    ensures h.stats.numpblk == h.stats.numpget - h.stats.numprel
  {
  }

  /** Zero in the size field separates direct from pooled buffers. */
  lemma SizeFacts(m: Words, h: Heap, buf: int)
    requires Inv(h) && ImageOf(m, h) && IsLive(h, buf)
    ensures buf % 4 == 0 && BH < buf && buf <= h.limit
    ensures LivePooled(h, buf) ==>
              && At(m, buf - BH + BSIZE) == ToWord(-SizeAt(h.pools, buf - BH))
              && BFH <= SizeAt(h.pools, buf - BH) <= MAX_SIZE && !LiveDirect(h, buf)
    ensures LiveDirect(h, buf) ==> At(m, buf - BH + BSIZE) == 0 && !LivePooled(h, buf)
  {
    hide All, PoolOf, BlockOf, Layout, Sum, WellFormed, DirectOf, Counted, LengthsAgree, Linked, RunAt, DirectAt;
    if LivePooled(h, buf) {
      ReadAt(m, h, buf - BH);
      OneKind(h, buf - BH);
    } else {
      ReadDirect(m, h, buf);
    }
  }
}
