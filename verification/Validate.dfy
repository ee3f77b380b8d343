/** The pool validator: what it checks, and that it accepts every reachable pool. */
module Validate {
  import opened Memory
  import opened Blocks
  import opened Pools
  import opened Heap
  import opened HeapFacts
  import opened Image
  import opened Joins

  /**
   Memory as far as the validator walks: size fields lead from `a` through the blocks `bs` to the
   sentinel, to a size field of zero, or to a free block that is not intact, and every address
   looked at on the way exists.
   */
  ghost predicate Walkable(m: Words, limit: int, a: int, bs: seq<Block>)
    decreases bs
  {
    && bs != []
    && 0 < a && a % 4 == 0 && a + BH <= limit && limit % 4 == 0
    && At(m, a + BSIZE) == ToWord(bs[0].Field())
    && match bs[0]
       case Sentinel => |bs| == 1
       case Used(n) => 0 < n <= MAX_SIZE && n % 4 == 0 && Walkable(m, limit, a + n, bs[1..])
       case Free(n) =>
         && 0 <= n <= MAX_SIZE && n % 4 == 0
         && if n == 0 then |bs| == 1
            else Followable(m, limit, a, n) && (FreeIntact(m, a, n) ==> Walkable(m, limit, a + n, bs[1..]))
  }

  /** The body and the two list neighbours of a free block are within memory. */
  ghost predicate Followable(m: Words, limit: int, a: int, n: int) {
    && a + BFH <= limit && a + n <= limit
    && NodeAddr(At(m, a + BLINK), limit) && NodeAddr(At(m, a + FLINK), limit)
  }

  /** Its neighbours in the list point at the free block, and its body still holds the wiping pattern. */
  ghost predicate FreeIntact(m: Words, a: int, n: int) {
    && At(m, At(m, a + BLINK) + FLINK) == a
    && At(m, At(m, a + FLINK) + BLINK) == a
    && WipedAt(m, a + BFH, a + n)
  }

  /** No size field is zero and every free block is intact. */
  ghost predicate Intact(m: Words, a: int, bs: seq<Block>)
    decreases bs
  {
    bs != [] ==>
      && (bs[0].Free? ==> bs[0].size > 0 && FreeIntact(m, a, bs[0].size))
      && Intact(m, a + bs[0].Size(), bs[1..])
  }

  /** A size field of a block that could exist: at most MAX_SIZE in either direction. */
  predicate Plausible(b: Block) {
    b.Sentinel? || 0 <= b.Size() <= MAX_SIZE
  }

  /** No size field of a real block, nor zero, can be taken for the end sentinel. */
  lemma SentinelDistinct(b: Block)
    requires Plausible(b)
    ensures b.Field() == ESENT <==> b.Sentinel?
    ensures ToSigned(ToWord(b.Field())) == b.Field()
  {
  }

  /** What one header tells the validator. */
  lemma WalkStep(m: Words, limit: int, a: int, bs: seq<Block>)
    requires Walkable(m, limit, a, bs)
    ensures bs != [] && 0 < a && a % 4 == 0 && a + BH <= limit && limit % 4 == 0
    ensures ToSigned(At(m, a + BSIZE)) == bs[0].Field() && (bs[0].Field() == ESENT <==> bs[0].Sentinel?)
    ensures bs[0].Sentinel? ==> Intact(m, a, bs)
    ensures bs[0].Used? ==> var n := bs[0].size;
              0 < n && Walkable(m, limit, a + n, bs[1..]) && (Intact(m, a, bs) <==> Intact(m, a + n, bs[1..]))
    ensures bs[0].Free? ==> bs[0].size >= 0 && (bs[0].size == 0 ==> !Intact(m, a, bs))
    ensures bs[0].Free? && bs[0].size > 0 ==> var n := bs[0].size;
              && n % 4 == 0 && Followable(m, limit, a, n)
              && (FreeIntact(m, a, n) ==> Walkable(m, limit, a + n, bs[1..]))
              && (Intact(m, a, bs) <==> FreeIntact(m, a, n) && Intact(m, a + n, bs[1..]))
  {
    hide At, Followable, FreeIntact;
    SentinelDistinct(bs[0]);
  }

  /** A region whose first byte is `c` and which equals itself shifted by one holds nothing but `c`. */
  lemma {:induction false} ShiftedEqual(s: seq<byte>, lo: int, hi: int, c: byte)
    requires 0 <= lo < hi <= |s|
    ensures s[lo] == c && s[lo..hi - 1] == s[lo + 1..hi] <==> forall i :: lo <= i < hi ==> s[i] == c
  {
    if s[lo] == c && s[lo..hi - 1] == s[lo + 1..hi] {
      forall i | lo <= i < hi ensures s[i] == c {
        ShiftedAll(s, lo, hi, c, i);
      }
    }
  }

  lemma {:induction false} ShiftedAll(s: seq<byte>, lo: int, hi: int, c: byte, i: int)
    requires 0 <= lo <= i < hi <= |s| && s[lo] == c && s[lo..hi - 1] == s[lo + 1..hi]
    ensures s[i] == c
    decreases i
  {
    if i > lo {
      ShiftedAll(s, lo, hi, c, i - 1);
      assert s[lo..hi - 1][i - 1 - lo] == s[lo + 1..hi][i - 1 - lo];
    }
  }

  lemma PatternWord(s: seq<byte>, x: int)
    requires 0 <= x && x + 3 < |s| && x % 4 == 0
    ensures At(Decode(s), x) == WIPED <==> s[x] == 0x55 && s[x + 1] == 0x55 && s[x + 2] == 0x55 && s[x + 3] == 0x55
  {
    DecodeAt(s, x);
    hide At, Decode;
    if At(Decode(s), x) == WIPED {
      JoinInjective(s[x], s[x + 1], s[x + 2], s[x + 3], 0x55, 0x55, 0x55, 0x55);
    }
  }

  /** Words of the pattern are bytes of the pattern. */
  lemma WipedBytes(s: seq<byte>, lo: int, hi: int)
    requires 0 <= lo <= hi <= |s| && lo % 4 == 0 && hi % 4 == 0 && |s| % 4 == 0
    ensures WipedAt(Decode(s), lo, hi) <==> forall i :: lo <= i < hi ==> s[i] == 0x55
  {
    hide Decode, At;
    if WipedAt(Decode(s), lo, hi) {
      forall i | lo <= i < hi ensures s[i] == 0x55 {
        WordOf(i, lo, hi);
        PatternWord(s, i - i % 4);
      }
    }
    if forall i :: lo <= i < hi ==> s[i] == 0x55 {
      forall x | lo <= x < hi && x % 4 == 0 ensures At(Decode(s), x) == WIPED {
        WordOf(x, lo, hi);
        PatternWord(s, x);
      }
    }
  }

  lemma BothAligned(b: int, n: int)
    requires b % 4 == 0 && n % 4 == 0
    ensures (b + BFH) % 4 == 0 && (b + n) % 4 == 0
  {
  }

  /** The validator's test of a free block's body, bytes against words. */
  lemma PatternTest(s: seq<byte>, lo: int, hi: int)
    requires 0 <= lo < hi <= |s| && lo % 4 == 0 && hi % 4 == 0 && |s| % 4 == 0
    ensures (s[lo] == 0x55 && s[lo..hi - 1] == s[lo + 1..hi]) <==> WipedAt(Decode(s), lo, hi)
  {
    hide Decode, WipedAt;
    WipedBytes(s, lo, hi);
    ShiftedEqual(s, lo, hi, 0x55);
  }

  // ----- what it means to be intact

  /** The free block of `n` bytes at `x`: its size, what its list neighbours point at, and every byte of its body. */
  predicate SoundFree(s: seq<byte>, x: int, n: int) {
    var m := Decode(s);
    && n > 0
    && At(m, At(m, x + 12) + 8) == x
    && At(m, At(m, x + 8) + 12) == x
    && forall i :: x + 16 <= i < x + n ==> 0 <= i < |s| && s[i] == 0x55
  }

  lemma SoundIsIntact(s: seq<byte>, x: int, n: int)
    requires 0 < x && x % 4 == 0 && 0 < n && n % 4 == 0 && |s| % 4 == 0
    requires Followable(Decode(s), |s|, x, n)
    ensures FreeIntact(Decode(s), x, n) <==> SoundFree(s, x, n)
  {
    hide Decode, At, WipedAt;
    BothAligned(x, n);
    if n > BFH {
      WipedBytes(s, x + BFH, x + n);
    } else {
      NothingWiped(Decode(s), x + BFH, x + n);
    }
  }

  lemma NothingWiped(m: Words, lo: int, hi: int)
    requires hi <= lo
    ensures WipedAt(m, lo, hi)
  {
  }

  lemma SumShift(bs: seq<Block>, i: nat)
    requires 0 < i < |bs|
    ensures Sum(bs[..i]) == bs[0].Size() + Sum(bs[1..][..i - 1])
  {
    assert bs[..i][1..] == bs[1..][..i - 1];
  }

  /** The validator accepts exactly the pools all of whose free blocks are sound, wherever they are. */
  lemma {:induction false} IntactMeans(s: seq<byte>, a: int, bs: seq<Block>)
    requires Walkable(Decode(s), |s|, a, bs)
    ensures Intact(Decode(s), a, bs)
            <==> forall i :: 0 <= i < |bs| && bs[i].Free? ==> SoundFree(s, a + Sum(bs[..i]), bs[i].size)
    decreases bs
  {
    hide Decode, Walkable, Intact, Followable, FreeIntact, SoundFree, Sum;
    WalkStep(Decode(s), |s|, a, bs);
    SumNone(bs);
    var rest := bs[1..];
    if bs[0].Free? && bs[0].size > 0 { SoundIsIntact(s, a, bs[0].size); }
    if bs[0].Free? && bs[0].size == 0 { UnsoundNone(s, a); }
    if bs[0].Sentinel? {
      LastWalked(Decode(s), |s|, a, bs);
    } else if bs[0].Used? || (bs[0].size > 0 && SoundFree(s, a, bs[0].size)) {
      IntactMeans(s, a + bs[0].size, rest);
      forall i | 0 < i < |bs|
        ensures a + Sum(bs[..i]) == a + bs[0].size + Sum(rest[..i - 1]) && bs[i] == rest[i - 1]
      {
        SumShift(bs, i);
      }
      if forall i :: 0 <= i < |bs| && bs[i].Free? ==> SoundFree(s, a + Sum(bs[..i]), bs[i].size) {
        forall j | 0 <= j < |rest| && rest[j].Free?
          ensures SoundFree(s, a + bs[0].size + Sum(rest[..j]), rest[j].size)
        {
          assert bs[j + 1] == rest[j] && SoundFree(s, a + Sum(bs[..j + 1]), bs[j + 1].size);
        }
      }
    }
  }

  lemma SumNone(bs: seq<Block>)
    requires bs != []
    ensures Sum(bs[..0]) == 0
  {
  }

  lemma UnsoundNone(s: seq<byte>, x: int)
    ensures !SoundFree(s, x, 0)
  {
  }

  lemma LastWalked(m: Words, limit: int, a: int, bs: seq<Block>)
    requires Walkable(m, limit, a, bs) && bs[0].Sentinel?
    ensures |bs| == 1
  {
  }

  /** Every pool of a reachable heap can be walked and is intact: the validator accepts it. */
  lemma ReachableIntact(m: Words, h: Heap, k: nat)
    requires Inv(h) && ImageOf(m, h) && k < |h.pools|
    ensures Walkable(m, h.limit, h.pools[k].base, h.pools[k].blocks)
    ensures Intact(m, h.pools[k].base, h.pools[k].blocks)
  {
    var bs := h.pools[k].blocks;
    assert h.pools[k].Valid(h.limit);
    assert bs[0..] == bs && bs[..0] == [];
    RestIntact(m, h, k, 0);
  }

  lemma {:induction false} RestIntact(m: Words, h: Heap, k: nat, i: nat)
    requires Inv(h) && ImageOf(m, h) && k < |h.pools| && i < |h.pools[k].blocks|
    ensures var bs := h.pools[k].blocks;
            && Walkable(m, h.limit, AddrOf(h.pools, k, i), bs[i..])
            && Intact(m, AddrOf(h.pools, k, i), bs[i..])
    decreases |h.pools[k].blocks| - i
  {
    hide All, PoolOf, BlockOf, Layout, Sum, Linked, RunAt, DirectAt, Circle, Nodes, Counted, LengthsAgree, FreeIntact;
    var bs, a := h.pools[k].blocks, AddrOf(h.pools, k, i);
    assert h.pools[k].Valid(h.limit);
    BlockIntact(m, h, k, i);
    assert bs[i..][0] == bs[i] && bs[i..][1..] == bs[i + 1..];
    if i + 1 < |bs| {
      NextAddr(bs, i);
      RestIntact(m, h, k, i + 1);
    } else {
      assert bs[i..][1..] == [];
    }
  }

  lemma BlockIntact(m: Words, h: Heap, k: nat, i: nat)
    requires Inv(h) && ImageOf(m, h) && k < |h.pools| && i < |h.pools[k].blocks|
    ensures var b, a := h.pools[k].blocks[i], AddrOf(h.pools, k, i);
            && 0 < a && a % 4 == 0 && a + b.Size() <= h.limit
            && b.Sized() && b.Size() <= MAX_SIZE && At(m, a + BSIZE) == ToWord(b.Field())
            && (b.Free? ==> NodeAddr(At(m, a + BLINK), h.limit) && NodeAddr(At(m, a + FLINK), h.limit))
            && (b.Free? ==> FreeIntact(m, a, b.size))
  {
    hide All, PoolOf, BlockOf, Layout, Sum, Linked, RunAt, DirectAt, Circle, Nodes, Counted, LengthsAgree;
    assert h.pools[k].Valid(h.limit);
    Located(h.pools, h.limit, k, i);
    AllOwner(h.pools, h.limit, AddrOf(h.pools, k, i));
    BlockFits(h.pools[k].blocks, i);
    ReadBlock(m, h, k, i);
    if h.pools[k].blocks[i].Free? {
      LinkedOf(m, h);
      DropLinks(m, h, AddrOf(h.pools, k, i));
    }
  }
}
