/**
 A set of pools: which pool and which block an address belongs to, and what replacing a
 run of blocks in one pool does to all of them.
 */
module Pools {
  import opened Blocks

  datatype Pool = Pool(base: int, blocks: seq<Block>) {
    function Len(): int {
      Sum(blocks)
    }

    function End(): int {
      base + Sum(blocks)
    }

    function Map(): map<int, Block> {
      Layout(base, blocks)
    }

    predicate Valid(limit: int) {
      && WellFormed(blocks)
      && 0 < base && base % 4 == 0
      && End() <= limit
      && Len() <= MAX_SIZE
    }
  }

  predicate Apart(lo: int, hi: int, lo': int, hi': int) {
    hi <= lo' || hi' <= lo
  }

  predicate Arranged(pools: seq<Pool>, limit: int) {
    && (forall k :: 0 <= k < |pools| ==> pools[k].Valid(limit))
    && (forall j, k :: 0 <= j < k < |pools| ==>
          Apart(pools[j].base, pools[j].End(), pools[k].base, pools[k].End()))
  }

  /** Every block of every pool, by address. */
  function All(pools: seq<Pool>): map<int, Block> {
    if pools == [] then map[] else pools[0].Map() + All(pools[1..])
  }

  function SizeAt(pools: seq<Pool>, x: int): int {
    if x in All(pools) then All(pools)[x].Size() else 0
  }

  predicate FreeAt(pools: seq<Pool>, x: int) {
    x in All(pools) && All(pools)[x].Free?
  }

  predicate UsedAt(pools: seq<Pool>, x: int) {
    x in All(pools) && All(pools)[x].Used?
  }

  /** The pool whose region holds address `x`; the number of pools when there is none. */
  function PoolOf(pools: seq<Pool>, x: int): (k: nat)
    ensures k <= |pools|
  {
    if pools == [] || pools[0].base <= x < pools[0].End() then 0 else 1 + PoolOf(pools[1..], x)
  }

  /** In that pool, the position of the block at `x`. */
  function BlockOf(pools: seq<Pool>, x: int): nat {
    var k := PoolOf(pools, x);
    if k < |pools| then Find(pools[k].base, pools[k].blocks, x) else 0
  }

  lemma {:induction false} AllOwner(pools: seq<Pool>, limit: int, x: int)
    requires Arranged(pools, limit) && x in All(pools)
    ensures var k := PoolOf(pools, x);
            && k < |pools|
            && x in pools[k].Map() && pools[k].Map()[x] == All(pools)[x]
            && pools[k].base <= x && x + All(pools)[x].Size() <= pools[k].End()
            && x % 4 == 0 && All(pools)[x].Sized()
  {
    hide Layout, Sum;
    var p := pools[0];
    assert p.Valid(limit);
    LayoutInside(p.base, p.blocks);
    LayoutAligned(p.base, p.blocks);
    if x in All(pools[1..]) {
      AllOwner(pools[1..], limit, x);
      var j := PoolOf(pools[1..], x);
      assert pools[1..][j] == pools[j + 1];
      assert Apart(p.base, p.End(), pools[j + 1].base, pools[j + 1].End());
    }
  }

  lemma {:induction false} AllHas(pools: seq<Pool>, limit: int, k: nat, x: int)
    requires Arranged(pools, limit) && k < |pools| && x in pools[k].Map()
    ensures x in All(pools) && All(pools)[x] == pools[k].Map()[x]
    ensures PoolOf(pools, x) == k
  {
    var p := pools[0];
    assert p.Valid(limit) && pools[k].Valid(limit);
    LayoutInside(pools[k].base, pools[k].blocks);
    if k == 0 {
      if x in All(pools[1..]) {
        AllOwner(pools[1..], limit, x);
        assert false;
      }
    } else {
      assert Apart(p.base, p.End(), pools[k].base, pools[k].End());
      AllHas(pools[1..], limit, k - 1, x);
    }
  }

  /** The block at `x`, taken apart: its pool, its position there, and what precedes it. */
  lemma Locate(pools: seq<Pool>, limit: int, x: int)
    requires Arranged(pools, limit) && x in All(pools)
    ensures var k := PoolOf(pools, x); var i := BlockOf(pools, x);
            && k < |pools| && i < |pools[k].blocks|
            && pools[k].blocks[i] == All(pools)[x]
            && pools[k].base + Sum(pools[k].blocks[..i]) == x
  {
    AllOwner(pools, limit, x);
    var k := PoolOf(pools, x);
    assert pools[k].Valid(limit);
    FindFinds(pools[k].base, pools[k].blocks, x);
  }

  lemma ValidSized(p: Pool, limit: int)
    requires p.Valid(limit)
    ensures Sized(p.blocks)
  {
  }

  /** Conversely, the i-th block of pool k is found at its address. */
  lemma Located(pools: seq<Pool>, limit: int, k: nat, i: nat)
    requires Arranged(pools, limit) && k < |pools| && i < |pools[k].blocks|
    ensures var x := pools[k].base + Sum(pools[k].blocks[..i]);
            && x in All(pools) && All(pools)[x] == pools[k].blocks[i]
            && PoolOf(pools, x) == k && BlockOf(pools, x) == i
  {
    hide Sum, All, PoolOf, Layout, Find, WellFormed;
    assert pools[k].Valid(limit);
    assert Sized(pools[k].blocks) by { ValidSized(pools[k], limit); }
    LayoutHas(pools[k].base, pools[k].blocks, i);
    AllHas(pools, limit, k, pools[k].base + Sum(pools[k].blocks[..i]));
  }

  /** No two blocks overlap, in whatever pools they are. */
  lemma AllApart(pools: seq<Pool>, limit: int, x: int, y: int)
    requires Arranged(pools, limit) && x in All(pools) && y in All(pools) && x != y
    ensures Apart(x, x + All(pools)[x].Size(), y, y + All(pools)[y].Size())
  {
    hide All, PoolOf, Layout, Sum;
    AllOwner(pools, limit, x);
    AllOwner(pools, limit, y);
    var j, k := PoolOf(pools, x), PoolOf(pools, y);
    assert pools[j].Valid(limit);
    if j == k {
      LayoutApart(pools[j].base, pools[j].blocks);
    } else if j < k {
      assert Apart(pools[j].base, pools[j].End(), pools[k].base, pools[k].End());
    } else {
      assert Apart(pools[k].base, pools[k].End(), pools[j].base, pools[j].End());
    }
  }

  /** Blocks i..j of pool k replaced by `mid`. */
  function SplicePools(pools: seq<Pool>, k: nat, i: nat, j: nat, mid: seq<Block>): seq<Pool> {
    if k < |pools| && i <= j <= |pools[k].blocks|
    then pools[k := Pool(pools[k].base, Splice(pools[k].blocks, i, j, mid))]
    else pools
  }

  /** The address of the i-th block of pool k. */
  function AddrOf(pools: seq<Pool>, k: nat, i: nat): int
    requires k < |pools| && i <= |pools[k].blocks|
  {
    pools[k].base + Sum(pools[k].blocks[..i])
  }

  ghost predicate Spliceable(pools: seq<Pool>, limit: int, k: nat, i: nat, j: nat, mid: seq<Block>) {
    && Arranged(pools, limit) && k < |pools| && i <= j < |pools[k].blocks|
    && Sum(mid) == Sum(pools[k].blocks[i..j])
    && WellFormed(Splice(pools[k].blocks, i, j, mid))
  }

  lemma SpliceArranged(pools: seq<Pool>, limit: int, k: nat, i: nat, j: nat, mid: seq<Block>)
    requires Spliceable(pools, limit, k, i, j, mid)
    ensures Arranged(SplicePools(pools, k, i, j, mid), limit)
    ensures SplicePools(pools, k, i, j, mid)[k].Len() == pools[k].Len()
    ensures Sized(mid)
  {
    var bs := pools[k].blocks;
    var bs' := Splice(bs, i, j, mid);
    assert pools[k].Valid(limit);
    forall n | 0 <= n < |mid| ensures mid[n].Sized() {
      assert bs'[i + n] == mid[n];
    }
    SpliceLayout(pools[k].base, bs, i, j, mid);
  }

  /** What a splice does to the map of all blocks: the old run goes, the new run comes. */
  lemma SpliceAll(pools: seq<Pool>, limit: int, k: nat, i: nat, j: nat, mid: seq<Block>)
    requires Spliceable(pools, limit, k, i, j, mid)
    ensures var x := AddrOf(pools, k, i);
            All(SplicePools(pools, k, i, j, mid))
            == (All(pools) - Layout(x, pools[k].blocks[i..j]).Keys) + Layout(x, mid)
    ensures Layout(AddrOf(pools, k, i), pools[k].blocks[i..j]).Keys <= All(pools).Keys
  {
    hide All, Layout, Sum, PoolOf, Apart;
    SpliceArranged(pools, limit, k, i, j, mid);
    assert pools[k].Valid(limit);
    SpliceLayout(pools[k].base, pools[k].blocks, i, j, mid);
    ReplaceAll(pools, limit, k, SplicePools(pools, k, i, j, mid)[k]);
    var x := AddrOf(pools, k, i);
    var was, out, into := pools[k].Map(), Layout(x, pools[k].blocks[i..j]), Layout(x, mid);
    forall y | y in was ensures y in All(pools) && All(pools)[y] == was[y] {
      AllHas(pools, limit, k, y);
    }
    ReplaceTwice(All(pools), was, out.Keys, into);
  }

  lemma ReplaceTwice(all: map<int, Block>, was: map<int, Block>, out: set<int>, into: map<int, Block>)
    requires out <= was.Keys <= all.Keys
    requires forall y :: y in was.Keys ==> all[y] == was[y]
    ensures (all - was.Keys) + ((was - out) + into) == (all - out) + into
    ensures out <= all.Keys
  {
    var l, r := (all - was.Keys) + ((was - out) + into), (all - out) + into;
    assert forall y :: y in l.Keys <==> y in r.Keys;
    assert forall y :: y in l.Keys ==> l[y] == r[y];
  }

  /** Replacing one pool replaces its blocks. */
  lemma ReplaceAll(pools: seq<Pool>, limit: int, k: nat, p: Pool)
    requires Arranged(pools, limit) && k < |pools| && Arranged(pools[k := p], limit)
    ensures All(pools[k := p]) == (All(pools) - pools[k].Map().Keys) + p.Map()
  {
    hide All, PoolOf, Layout, Sum, WellFormed;
    var pools' := pools[k := p];
    forall x | x in All(pools')
      ensures x in (All(pools) - pools[k].Map().Keys) + p.Map()
      ensures All(pools')[x] == ((All(pools) - pools[k].Map().Keys) + p.Map())[x]
    {
      AllOwner(pools', limit, x);
      var j := PoolOf(pools', x);
      if j != k {
        AllHas(pools, limit, j, x);
        if x in pools[k].Map() { AllHas(pools, limit, k, x); }
        if x in p.Map() { AllHas(pools', limit, k, x); }
      }
    }
    forall x | x in (All(pools) - pools[k].Map().Keys) + p.Map()
      ensures x in All(pools')
    {
      if x in p.Map() {
        AllHas(pools', limit, k, x);
      } else {
        AllOwner(pools, limit, x);
        AllHas(pools', limit, PoolOf(pools, x), x);
      }
    }
  }

  lemma {:induction false} AllAppend(pools: seq<Pool>, p: Pool)
    ensures All(pools + [p]) == All(pools) + p.Map()
  {
    if pools == [] {
      assert pools + [p] == [p];
      assert All([p]) == p.Map() + All([]);
    } else {
      assert (pools + [p])[1..] == pools[1..] + [p];
      AllAppend(pools[1..], p);
      UnionAssociates(pools[0].Map(), All(pools[1..]), p.Map());
    }
  }

  function Dropped(pools: seq<Pool>, k: nat): seq<Pool>
    requires k < |pools|
  {
    pools[..k] + pools[k + 1..]
  }

  lemma DropArranged(pools: seq<Pool>, limit: int, k: nat)
    requires Arranged(pools, limit) && k < |pools|
    ensures Arranged(Dropped(pools, k), limit)
  {
  }

  lemma DropLength(pools: seq<Pool>, k: nat)
    requires k < |pools|
    ensures |Dropped(pools, k)| == |pools| - 1
  {
  }

  lemma DropIndex(pools: seq<Pool>, k: nat, j: nat)
    requires k < |pools| && j < |pools| - 1
    ensures Dropped(pools, k)[j] == if j < k then pools[j] else pools[j + 1]
  {
  }

  lemma DropKeeps(pools: seq<Pool>, limit: int, k: nat, x: int)
    requires Arranged(pools, limit) && k < |pools|
    requires Arranged(Dropped(pools, k), limit) && x in All(Dropped(pools, k))
    ensures x in All(pools) && x !in pools[k].Map() && All(pools)[x] == All(Dropped(pools, k))[x]
  {
    hide All, PoolOf, Layout, Sum, WellFormed;
    hide Dropped;
    AllOwner(Dropped(pools, k), limit, x);
    var j := PoolOf(Dropped(pools, k), x);
    DropLength(pools, k);
    DropIndex(pools, k, j);
    AllHas(pools, limit, if j < k then j else j + 1, x);
    if x in pools[k].Map() { AllHas(pools, limit, k, x); }
  }

  lemma DropLoses(pools: seq<Pool>, limit: int, k: nat, x: int)
    requires Arranged(pools, limit) && k < |pools|
    requires Arranged(Dropped(pools, k), limit) && x in All(pools) && x !in pools[k].Map()
    ensures x in All(Dropped(pools, k))
  {
    hide All, PoolOf, Layout, Sum, WellFormed;
    hide Dropped;
    AllOwner(pools, limit, x);
    var j := PoolOf(pools, x);
    var j' := if j < k then j else j - 1;
    DropLength(pools, k);
    DropIndex(pools, k, j');
    AllHas(Dropped(pools, k), limit, j', x);
  }

  /** Dropping one pool drops its blocks. */
  lemma DropAll(pools: seq<Pool>, limit: int, k: nat)
    requires Arranged(pools, limit) && k < |pools|
    ensures Arranged(Dropped(pools, k), limit)
    ensures All(Dropped(pools, k)) == All(pools) - pools[k].Map().Keys
  {
    hide All, PoolOf, Layout, Sum, WellFormed;
    DropArranged(pools, limit, k);
    forall x | x in All(Dropped(pools, k))
      ensures x in All(pools) && x !in pools[k].Map() && All(pools)[x] == All(Dropped(pools, k))[x]
    {
      DropKeeps(pools, limit, k, x);
    }
    forall x | x in All(pools) && x !in pools[k].Map()
      ensures x in All(Dropped(pools, k))
    {
      DropLoses(pools, limit, k, x);
    }
    var l, r := All(Dropped(pools, k)), All(pools) - pools[k].Map().Keys;
    assert l.Keys == r.Keys;
  }
}
