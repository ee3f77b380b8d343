/**
 Blocks and pools as values.  A pool is a run of blocks laid end to end from its base
 address; the last of them is the dummy block that holds the end sentinel.
 */
module Blocks {
  const BH := 8      // sizeof(struct bhead)
  const BFH := 16    // sizeof(struct bfhead)
  const BDH := 12    // sizeof(struct bdhead)
  const QUANT := 4   // SizeQuant; alignment to it is written % 4
  const SIZEQ := 8   // SizeQ
  const ESENT := -0x8000_0000
  const MAX_SIZE := 0x7FFF_FFFF

  datatype Block =
    | Free(size: int)
    | Used(size: int)
    | Sentinel
  {
    /** Bytes from this header to the next one. */
    function Size(): int {
      if Sentinel? then BH else size
    }

    /** What the header's `bsize` field holds. */
    function Field(): int {
      match this
      case Free(n) => n
      case Used(n) => -n
      case Sentinel => ESENT
    }

    /** What the `prevfree` field of the header after this block holds. */
    function Tag(): int {
      if Free? then size else 0
    }

    predicate Sized() {
      !Sentinel? ==> size >= BFH && size % 4 == 0
    }
  }

  predicate Sized(bs: seq<Block>) {
    forall i :: 0 <= i < |bs| ==> bs[i].Sized()
  }

  function Sum(bs: seq<Block>): int {
    if bs == [] then 0 else bs[0].Size() + Sum(bs[1..])
  }

  /** Each block of a run that starts at `a`, by address. */
  function Layout(a: int, bs: seq<Block>): map<int, Block>
    decreases bs
  {
    if bs == [] then map[] else map[a := bs[0]] + Layout(a + bs[0].Size(), bs[1..])
  }

  /** The tag that follows a run whose first block carries `tag`. */
  function LastTag(tag: int, bs: seq<Block>): int {
    if bs == [] then tag else bs[|bs| - 1].Tag()
  }

  /** The blocks of one pool: exactly the last is the sentinel, there are others, and no two neighbours are free. */
  predicate WellFormed(bs: seq<Block>) {
    && Sized(bs)
    && |bs| >= 2
    && (forall i :: 0 <= i < |bs| ==> (bs[i].Sentinel? <==> i == |bs| - 1))
    && (forall i :: 0 < i < |bs| ==> !(bs[i - 1].Free? && bs[i].Free?))
  }

  lemma {:induction false} SumConcat(x: seq<Block>, y: seq<Block>)
    ensures Sum(x + y) == Sum(x) + Sum(y)
  {
    if x == [] {
      assert x + y == y;
    } else {
      assert (x + y)[1..] == x[1..] + y;
      SumConcat(x[1..], y);
    }
  }

  lemma {:induction false} SumPositive(bs: seq<Block>)
    requires Sized(bs)
    ensures 0 <= Sum(bs) && Sum(bs) % 4 == 0
    ensures bs != [] ==> Sum(bs) >= bs[0].Size() > 0
  {
    if bs != [] {
      SumPositive(bs[1..]);
    }
  }

  lemma {:induction false} LayoutConcat(a: int, x: seq<Block>, y: seq<Block>)
    ensures Layout(a, x + y) == Layout(a, x) + Layout(a + Sum(x), y)
    decreases x
  {
    if x == [] {
      assert x + y == y;
    } else {
      var a' := a + x[0].Size();
      assert (x + y)[1..] == x[1..] + y;
      LayoutConcat(a', x[1..], y);
      UnionAssociates(map[a := x[0]], Layout(a', x[1..]), Layout(a + Sum(x), y));
    }
  }

  lemma UnionAssociates(p: map<int, Block>, q: map<int, Block>, r: map<int, Block>)
    ensures p + (q + r) == (p + q) + r
  {
  }

  /** Every block of a run lies inside the run. */
  lemma {:induction false} LayoutInside(a: int, bs: seq<Block>)
    requires Sized(bs)
    ensures forall x :: x in Layout(a, bs) ==>
              a <= x && x + Layout(a, bs)[x].Size() <= a + Sum(bs) && Layout(a, bs)[x].Sized()
    decreases bs
  {
    if bs != [] {
      SumPositive(bs[1..]);
      LayoutInside(a + bs[0].Size(), bs[1..]);
    }
  }

  /** Every block of a run is as aligned as the run is. */
  lemma {:induction false} LayoutAligned(a: int, bs: seq<Block>)
    requires Sized(bs) && a % 4 == 0
    ensures forall x :: x in Layout(a, bs) ==> x % 4 == 0
    decreases bs
  {
    if bs != [] {
      LayoutAligned(a + bs[0].Size(), bs[1..]);
    }
  }

  lemma LayoutHead(a: int, bs: seq<Block>)
    requires bs != []
    ensures Layout(a, bs) == map[a := bs[0]] + Layout(a + bs[0].Size(), bs[1..])
    ensures Sum(bs) == bs[0].Size() + Sum(bs[1..])
  {
  }

  /** Blocks of a run do not overlap. */
  lemma {:induction false} LayoutApart(a: int, bs: seq<Block>)
    requires Sized(bs)
    ensures forall x, y :: x in Layout(a, bs) && y in Layout(a, bs) && x < y ==>
              x + Layout(a, bs)[x].Size() <= y
    decreases bs
  {
    if bs != [] {
      LayoutInside(a + bs[0].Size(), bs[1..]);
      LayoutApart(a + bs[0].Size(), bs[1..]);
    }
  }

  /** Position in a run of the block at address `x`; the length of the run when there is none. */
  function Find(a: int, bs: seq<Block>, x: int): (i: nat)
    ensures i <= |bs|
    decreases bs
  {
    if bs == [] || a == x then 0 else 1 + Find(a + bs[0].Size(), bs[1..], x)
  }

  lemma {:induction false} FindFinds(a: int, bs: seq<Block>, x: int)
    requires Sized(bs) && x in Layout(a, bs)
    ensures Find(a, bs, x) < |bs|
    ensures bs[Find(a, bs, x)] == Layout(a, bs)[x]
    ensures a + Sum(bs[..Find(a, bs, x)]) == x
    decreases bs
  {
    LayoutInside(a + bs[0].Size(), bs[1..]);
    var i := Find(a, bs, x);
    if a != x {
      FindFinds(a + bs[0].Size(), bs[1..], x);
      assert bs[..i][1..] == bs[1..][..i - 1];
    }
  }

  /** Conversely, the i-th block is in the layout, and is found at its own index. */
  lemma {:induction false} LayoutHas(a: int, bs: seq<Block>, i: nat)
    requires Sized(bs) && i < |bs|
    ensures a + Sum(bs[..i]) in Layout(a, bs)
    ensures Layout(a, bs)[a + Sum(bs[..i])] == bs[i]
    ensures Find(a, bs, a + Sum(bs[..i])) == i
    decreases bs
  {
    LayoutInside(a + bs[0].Size(), bs[1..]);
    if i > 0 {
      assert bs[..i][1..] == bs[1..][..i - 1];
      LayoutHas(a + bs[0].Size(), bs[1..], i - 1);
      SumPositive(bs[1..][..i - 1]);
    }
  }

  lemma SumOfOne(b: Block)
    ensures Sum([b]) == b.Size()
    ensures forall a :: Layout(a, [b]) == map[a := b]
  {
    assert [b][1..] == [];
  }

  lemma SumOfTwo(b: Block, c: Block)
    ensures Sum([b, c]) == b.Size() + c.Size()
    ensures forall a :: Layout(a, [b, c]) == map[a := b] + map[a + b.Size() := c]
  {
    assert [b, c][1..] == [c];
    SumOfOne(c);
  }

  /** A run with its blocks i..j replaced. */
  function Splice(bs: seq<Block>, i: nat, j: nat, mid: seq<Block>): seq<Block>
    requires i <= j <= |bs|
  {
    bs[..i] + mid + bs[j..]
  }

  /** Replacing part of a run by blocks of the same total size moves nothing else. */
  lemma SpliceLayout(a: int, bs: seq<Block>, i: nat, j: nat, mid: seq<Block>)
    requires Sized(bs) && Sized(mid) && i <= j <= |bs|
    requires Sum(mid) == Sum(bs[i..j])
    ensures Sum(Splice(bs, i, j, mid)) == Sum(bs)
    ensures var x := a + Sum(bs[..i]);
            Layout(a, Splice(bs, i, j, mid)) == (Layout(a, bs) - Layout(x, bs[i..j]).Keys) + Layout(x, mid)
    ensures Layout(a + Sum(bs[..i]), bs[i..j]).Keys <= Layout(a, bs).Keys
  {
    assert bs == bs[..i] + bs[i..j] + bs[j..];
    SwapRun(a, bs[..i], bs[i..j], mid, bs[j..]);
  }

  lemma SpliceIndex(bs: seq<Block>, i: nat, j: nat, mid: seq<Block>, n: nat)
    requires i <= j <= |bs| && n < |Splice(bs, i, j, mid)|
    ensures Splice(bs, i, j, mid)[n]
            == if n < i then bs[n] else if n < i + |mid| then mid[n - i] else bs[n - |mid| - i + j]
  {
  }

  /** A splice of ordinary blocks that puts no two free blocks side by side keeps a pool well formed. */
  lemma SpliceWellFormed(bs: seq<Block>, i: nat, j: nat, mid: seq<Block>)
    requires WellFormed(bs) && i <= j < |bs| && mid != []
    requires forall n :: 0 <= n < |mid| ==> !mid[n].Sentinel? && mid[n].Sized()
    requires forall n :: 0 < n < |mid| ==> !(mid[n - 1].Free? && mid[n].Free?)
    requires i > 0 && mid[0].Free? ==> !bs[i - 1].Free?
    requires mid[|mid| - 1].Free? ==> !bs[j].Free?
    ensures WellFormed(Splice(bs, i, j, mid))
  {
    var r := Splice(bs, i, j, mid);
    forall n | 0 <= n < |r|
      ensures r[n].Sized() && (r[n].Sentinel? <==> n == |r| - 1)
    {
      SpliceIndex(bs, i, j, mid, n);
    }
    forall n | 0 < n < |r|
      ensures !(r[n - 1].Free? && r[n].Free?)
    {
      SpliceIndex(bs, i, j, mid, n - 1);
      SpliceIndex(bs, i, j, mid, n);
    }
  }

  lemma SwapRun(a: int, p: seq<Block>, q: seq<Block>, q': seq<Block>, r: seq<Block>)
    requires Sized(p) && Sized(q) && Sized(q') && Sized(r)
    requires Sum(q) == Sum(q')
    ensures Sum(p + q' + r) == Sum(p + q + r)
    ensures Layout(a, p + q' + r) == (Layout(a, p + q + r) - Layout(a + Sum(p), q).Keys) + Layout(a + Sum(p), q')
    ensures Layout(a + Sum(p), q).Keys <= Layout(a, p + q + r).Keys
  {
    hide Layout, Sum;
    LayoutThree(a, p, q, r);
    LayoutThree(a, p, q', r);
    var x, z := a + Sum(p), a + Sum(p) + Sum(q);
    SwapMiddle(Layout(a, p), Layout(x, q), Layout(x, q'), Layout(z, r));
  }

  lemma SwapMiddle(p: map<int, Block>, q: map<int, Block>, q': map<int, Block>, r: map<int, Block>)
    requires p.Keys !! q.Keys && p.Keys !! q'.Keys && q.Keys !! r.Keys && q'.Keys !! r.Keys
    ensures p + q' + r == ((p + q + r) - q.Keys) + q'
  {
  }

  lemma LayoutThree(a: int, x: seq<Block>, y: seq<Block>, z: seq<Block>)
    requires Sized(x) && Sized(y) && Sized(z)
    ensures Sum(x + y + z) == Sum(x) + Sum(y) + Sum(z)
    ensures Layout(a, x + y + z) == Layout(a, x) + Layout(a + Sum(x), y) + Layout(a + Sum(x) + Sum(y), z)
    ensures Layout(a, x).Keys !! Layout(a + Sum(x), y).Keys
    ensures Layout(a, x).Keys !! Layout(a + Sum(x) + Sum(y), z).Keys
    ensures Layout(a + Sum(x), y).Keys !! Layout(a + Sum(x) + Sum(y), z).Keys
  {
    hide Layout, Sum, Sized;
    SumConcat(x, y);
    SumConcat(x + y, z);
    LayoutConcat(a, x, y);
    LayoutConcat(a, x + y, z);
    SumPositive(y);
    LayoutsApart(a, x, a + Sum(x), y);
    LayoutsApart(a, x, a + Sum(x) + Sum(y), z);
    LayoutsApart(a + Sum(x), y, a + Sum(x) + Sum(y), z);
  }

  lemma LayoutsApart(a: int, x: seq<Block>, b: int, y: seq<Block>)
    requires Sized(x) && Sized(y) && a + Sum(x) <= b
    ensures Layout(a, x).Keys !! Layout(b, y).Keys
  {
    LayoutInside(a, x);
    LayoutInside(b, y);
  }
}
