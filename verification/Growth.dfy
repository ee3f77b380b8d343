/** Memory when storage is added: a new pool, a new direct block, a carve. */
module Growth {
  import opened Memory
  import opened Blocks
  import opened Pools
  import opened Heap
  import opened HeapFacts
  import opened Image
  import opened Live
  import opened Frames
  import opened Joins

  /** Memory after `bpool`, written out; `n` is the masked length. */
  function PoolWords(m: Words, head: int, base: int, n: int): Words {
    var m1 := m[base + PREVFREE := 0];
    var m2 := Appended(m1, head, At(m1, head + BLINK), base)[base + BSIZE := n - BH];
    Fill(m2, base + BFH, base + (n - BH), WIPED)
      [base + (n - BH) + PREVFREE := n - BH][base + (n - BH) + BSIZE := ToWord(ESENT)]
  }

  lemma RegionFits(h: Heap, base: int, len: int)
    requires PoolRegion(h, base, len)
    ensures BFH + BH <= Mask(len) <= MAX_SIZE
  {
  }

  /** What a new pool changes besides pools and list. */
  lemma AddPoolFields(h: Heap, base: int, len: int)
    ensures var h', n := AddPool(h, base, len), Mask(len);
            && h'.head == h.head && h'.limit == h.limit && h'.direct == h.direct
            && h'.ctl == h.ctl.(poolLen :=
                 if h.ctl.poolLen == 0 then n else if n != h.ctl.poolLen then -1 else h.ctl.poolLen)
            && h'.stats == h.stats.(numpget := h.stats.numpget + 1, numpblk := h.stats.numpblk + 1)
  {
  }

  lemma PoolFacts(m: Words, h: Heap, base: int, len: int)
    requires Inv(h) && ImageOf(m, h) && PoolRegion(h, base, len)
    ensures NodeAddr(base, h.limit) && Far(h.head, base) && NodeAddr(h.head, h.limit)
    ensures NodeAddr(At(m, h.head + BLINK), h.limit) && At(m, At(m, h.head + BLINK) + FLINK) == h.head
    ensures NodeAddr(At(m, h.head + FLINK), h.limit) && At(m, At(m, h.head + FLINK) + BLINK) == h.head
    ensures At(m[base + PREVFREE := 0], h.head + BLINK) == At(m, h.head + BLINK)
    ensures At(m[base + PREVFREE := 0], h.head + FLINK) == At(m, h.head + FLINK)
    ensures At(m[base + PREVFREE := 0], At(m, h.head + BLINK) + FLINK) == h.head
    ensures At(m[base + PREVFREE := 0], At(m, h.head + FLINK) + BLINK) == h.head
    ensures BFH + BH <= Mask(len) <= MAX_SIZE && Mask(len) % 4 == 0 && base + Mask(len) <= h.limit
  {
    hide Arranged, DirectValid, FreeAt, Counted, LengthsAgree, PoolAt, DirectAt, Linked;
    LinkedOf(m, h);
    TailFacts(m, h);
    OtherNodes(h, base, base + Mask(len));
    TailIn(m, h);
  }

  lemma TailIn(m: Words, h: Heap)
    requires Linked(m, Circle(h.head, h.free))
    ensures At(m, h.head + BLINK) in Circle(h.head, h.free) && At(m, h.head + FLINK) in Circle(h.head, h.free)
  {
    var c := Circle(h.head, h.free);
    TailNode(m, h);
    NodesOfCircle(h);
    assert c[0] == h.head && At(m, c[0] + FLINK) == c[1];
  }

  lemma PoolLinked(m: Words, h: Heap, base: int, len: int)
    requires Inv(h) && ImageOf(m, h) && PoolRegion(h, base, len)
    ensures Linked(PoolWords(m, h.head, base, Mask(len)), Circle(h.head, h.free + [base]))
    ensures Only(m, PoolWords(m, h.head, base, Mask(len)), base, base + Mask(len) - 1, Nodes(h))
  {
    hide Arranged, DirectValid, FreeAt, Counted, LengthsAgree, PoolAt, DirectAt, Linked, Circle;
    LinkedOf(m, h);
    var n := Mask(len);
    OtherNodes(h, base, base + n);
    ListSpaced(h);
    BaseSpaced(h, base, n);
    NodesOfCircle(h);
    TailNode(m, h);
    var c := Circle(h.head, h.free);
    var m1 := m[base + PREVFREE := 0];
    LinkedStore(m, c, base + PREVFREE, 0);
    TailNode(m1, h);
    LinkedAppend(m1, h.head, h.free, base);
    var m2 := Appended(m1, h.head, At(m1, h.head + BLINK), base);
    BodyLinked(m2, Circle(h.head, h.free + [base]), base, n);
    PoolOnly(m, h.head, base, n, Nodes(h));
  }

  /** Size, wiping and sentinel of a new pool reach no link. */
  lemma BodyLinked(m: Words, c: seq<int>, base: int, n: int)
    requires Linked(m, c) && BFH + BH <= n
    requires forall f :: f in c ==> f == base || Apart(f, f + BFH, base, base + n)
    ensures var m1 := Fill(m[base + BSIZE := n - BH], base + BFH, base + (n - BH), WIPED);
            Linked(m1[base + (n - BH) + PREVFREE := n - BH][base + (n - BH) + BSIZE := ToWord(ESENT)], c)
  {
    hide Linked, Fill;
    LinkedStore(m, c, base + BSIZE, n - BH);
    var m1 := Fill(m[base + BSIZE := n - BH], base + BFH, base + (n - BH), WIPED);
    LinkedFill(m[base + BSIZE := n - BH], c, base + BFH, base + (n - BH), WIPED);
    LinkedStore(m1, c, base + (n - BH) + PREVFREE, n - BH);
    LinkedStore(m1[base + (n - BH) + PREVFREE := n - BH], c, base + (n - BH) + BSIZE, ToWord(ESENT));
  }

  lemma PoolOnly(m: Words, head: int, base: int, n: int, nodes: set<int>)
    requires head in nodes && At(m[base + PREVFREE := 0], head + BLINK) in nodes && n >= BFH + BH
    ensures Only(m, PoolWords(m, head, base, n), base, base + n - 1, nodes)
  {
  }

  lemma BaseSpaced(h: Heap, base: int, n: int)
    requires Spaced(h.head, h.free) && n >= BFH + BH
    requires forall f :: f in Circle(h.head, h.free) ==> Apart(f, f + BFH, base, base + n)
    ensures Spaced(h.head, h.free + [base])
    ensures forall f :: f in Circle(h.head, h.free + [base]) ==> f == base || Apart(f, f + BFH, base, base + n)
  {
    forall i | 0 <= i < |h.free| ensures Far(h.free[i], base) {
      assert Circle(h.head, h.free)[i + 1] == h.free[i];
      assert h.free[i] in Circle(h.head, h.free);
    }
    CircleHead(h);
    forall f | f in Circle(h.head, h.free + [base]) && f != base
      ensures f in Circle(h.head, h.free)
    {
    }
  }

  lemma PoolBlocks(m: Words, h: Heap, base: int, len: int)
    requires Inv(h) && ImageOf(m, h) && PoolRegion(h, base, len) && Full(m, h.limit)
    ensures var n := Mask(len); var m' := PoolWords(m, h.head, base, n);
            BlockAt(m', base, 0, Free(n - BH)) && HeaderAt(m', base + (n - BH), n - BH, Sentinel)
  {
    hide Arranged, DirectValid, FreeAt, Counted, LengthsAgree, PoolAt, DirectAt, Linked, Circle;
    LinkedOf(m, h);
    var n := Mask(len);
    var m' := PoolWords(m, h.head, base, n);
    OtherNodes(h, base, base + n);
    TailIn(m, h);
    PoolFacts(m, h, base, len);
    hide ImageOf, Placed, Listed;
    assert h.head in Circle(h.head, h.free) by { CircleHead(h); }
    forall x | base + BFH <= x < base + (n - BH) && x % 4 == 0 ensures At(m', x) == WIPED {
      assert x in m;
    }
  }

  lemma CircleHead(h: Heap)
    ensures h.head in Circle(h.head, h.free)
  {
    assert Circle(h.head, h.free)[0] == h.head;
  }

  lemma PoolImage(m: Words, h: Heap, base: int, len: int)
    requires Inv(h) && ImageOf(m, h) && PoolRegion(h, base, len) && Full(m, h.limit)
    ensures var h', m' := AddPool(h, base, len), PoolWords(m, h.head, base, Mask(len));
            Inv(h') && ImageOf(m', h') && Kept(m, m', h, h', {})
  {
    hide Arranged, DirectValid, FreeAt, Counted, LengthsAgree, PoolAt, DirectAt, Linked, Circle, Nodes, Only,
         PoolWords, SameLive, BlockAt, HeaderAt, AddPool, Unowned;
    AddPoolKeeps(h, base, len);
    AddPoolLive(h, base, len);
    PoolLinked(m, h, base, len);
    PoolBlocks(m, h, base, len);
    var m' := PoolWords(m, h.head, base, Mask(len));
    ImageAddPool(m, m', h, base, len);
    FreshWriteKeeps(m, m', h, AddPool(h, base, len), base, base + Mask(len) - 1, {});
  }

  // ----- a direct block

  function DirectWords(m: Words, addr: int, size: int): Words {
    m[addr + (BDH - BH) + BSIZE := 0][addr + (BDH - BH) + PREVFREE := 0][addr + TSIZE := size]
  }

  lemma DirectImage(m: Words, h: Heap, addr: int, size: int)
    requires Inv(h) && ImageOf(m, h) && DirectRegion(h, addr, size)
    ensures var h', m' := AddDirect(h, addr, size), DirectWords(m, addr, size);
            Inv(h') && ImageOf(m', h') && Kept(m, m', h, h', {addr + BDH})
  {
    hide Arranged, DirectValid, FreeAt, Counted, LengthsAgree, PoolAt, Linked, Circle, Nodes, Only, SameLive,
         AddDirect, Unowned;
    AddDirectKeeps(h, addr, size);
    AddDirectLive(h, addr, size);
    var m' := DirectWords(m, addr, size);
    DirectOnly(m, addr, size, {});
    DirectOnly(m, addr, size, Nodes(h));
    ImageAddDirect(m, m', h, addr, size);
    FreshWriteKeeps(m, m', h, AddDirect(h, addr, size), addr, addr + size - 1, {addr + BDH});
  }

  lemma DirectOnly(m: Words, addr: int, size: int, nodes: set<int>)
    requires size >= BDH
    ensures Only(m, DirectWords(m, addr, size), addr, addr + size - 1, nodes)
  {
  }

  // ----- a carve

  lemma CarveImage(m: Words, h: Heap, f: int, size: int)
    requires Inv(h) && ImageOf(m, h) && Carvable(h, f, size)
    ensures var (h', buf) := Carve(h, f, size); var m' := CarvedWords(m, h, f, size);
            Inv(h') && ImageOf(m', h') && Kept(m, m', h, h', {buf})
  {
    hide Carve, CarvedWords, Inv, ImageOf, Carvable, Kept, Only, Splits, Nodes;
    CarveKeeps(h, f, size);
    if Splits(h, f, size) { SplitImage(m, h, f, size); } else { WholeImage(m, h, f, size); }
    CarveKept(m, h, f, size);
  }

  /** What a carve reads. */
  lemma CarveFacts(m: Words, h: Heap, f: int, size: int)
    requires Inv(h) && ImageOf(m, h) && Carvable(h, f, size)
    ensures var n := SizeAt(h.pools, f); var j := IndexOf(h.free, f); var c := Circle(h.head, h.free);
            && NodeAddr(f, h.limit) && BFH <= size <= n <= MAX_SIZE && f + n + BH <= h.limit && (f + n) % 4 == 0
            && n % 4 == 0 && size % 4 == 0
            && At(m, f + BSIZE) == n && At(m, f + n + PREVFREE) == n
            && j + 2 < |c| && At(m, f + BLINK) == c[j] && At(m, f + FLINK) == c[j + 2]
            && NodeAddr(c[j], h.limit) && NodeAddr(c[j + 2], h.limit) && Far(c[j], f) && Far(c[j + 2], f)
            && At(m, c[j] + FLINK) == f && At(m, c[j + 2] + BLINK) == f
            && c[j] + FLINK != f + n && c[j + 2] + BLINK != f + n
  {
    hide Arranged, DirectValid, FreeAt, Counted, LengthsAgree, PoolAt, Linked, Circle, DirectAt, All;
    InvParts(h);
    AfterFree(m, h, f);
    LinkedOf(m, h);
    WholeLinked(m, h, f);
    DropLinks(m, h, f);
    NextNode(h, f);
    NodesFar(h, At(m, f + FLINK), f);
  }

  lemma SplitAligned(b: int, n: int, size: int)
    requires b % 4 == 0 && n % 4 == 0 && size % 4 == 0
    ensures (b + (n - size)) % 4 == 0 && (b + (n - size) + size) % 4 == 0
  {
  }

  /** What is read and written when the whole block is taken. */
  lemma WholeFacts(m: Words, h: Heap, f: int, size: int)
    requires Inv(h) && ImageOf(m, h) && Carvable(h, f, size) && !Splits(h, f, size)
    ensures var n := SizeAt(h.pools, f); var prev, next := At(m, f + BLINK), At(m, f + FLINK);
            && NodeAddr(f, h.limit) && BFH <= n <= MAX_SIZE && f + n + BH <= h.limit && (f + n) % 4 == 0
            && At(m, f + BSIZE) == n && At(m, f + n + PREVFREE) == n
            && NodeAddr(prev, h.limit) && NodeAddr(next, h.limit) && Far(prev, f)
            && At(m, prev + FLINK) == f && At(m, next + BLINK) == f
            && CarvedWords(m, h, f, size)
               == Unlinked(m, prev, next)[f + BSIZE := ToWord(-n)][f + n + PREVFREE := 0]
  {
    hide Inv, ImageOf, Carvable, SizeAt, Circle, IndexOf, Unlinked, At, NodeAddr, Far;
    CarveFacts(m, h, f, size);
  }

  /** The addresses and fields that a split looks at. */
  lemma SplitFacts(m: Words, h: Heap, f: int, size: int)
    requires Inv(h) && ImageOf(m, h) && Carvable(h, f, size) && Splits(h, f, size)
    ensures var n := SizeAt(h.pools, f);
            && 0 < f && f % 4 == 0 && (f + (n - size)) % 4 == 0 && (f + (n - size) + size) % 4 == 0
            && f + BH <= f + (n - size) && BH <= size <= n <= MAX_SIZE && f + n + BH <= h.limit
            && At(m, f + BSIZE) == n && At(m, f + n + PREVFREE) == n
  {
    hide Inv, ImageOf, Carvable, SizeAt, At, Circle, IndexOf;
    CarveFacts(m, h, f, size);
    SplitAligned(f, SizeAt(h.pools, f), size);
  }

  lemma SplitWords(m: Words, h: Heap, f: int, size: int)
    requires Splits(h, f, size)
    ensures var n := SizeAt(h.pools, f);
            CarvedWords(m, h, f, size) == m[f + BSIZE := n - size][f + (n - size) + PREVFREE := n - size]
                                           [f + (n - size) + BSIZE := ToWord(-size)][f + n + PREVFREE := 0]
  {
  }
}
