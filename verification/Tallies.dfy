/** Sums over runs and pools, and removal from the free list. */
module Tallies {
  import opened Blocks
  import opened Pools
  import opened Heap

  lemma {:induction false} TallyConcat(x: seq<Block>, y: seq<Block>)
    ensures TallyRun(x + y) == TallyRun(x).Plus(TallyRun(y))
  {
    if x == [] {
      assert x + y == y;
    } else {
      assert (x + y)[1..] == x[1..] + y;
      TallyConcat(x[1..], y);
    }
  }

  lemma TallyOfOne(b: Block)
    ensures TallyRun([b]) == TallyBlock(b)
  {
    assert [b][1..] == [];
  }

  lemma TallyOfTwo(b: Block, c: Block)
    ensures TallyRun([b, c]) == TallyBlock(b).Plus(TallyBlock(c))
  {
    assert [b, c][1..] == [c];
    TallyOfOne(c);
  }

  lemma TallySplice(bs: seq<Block>, i: nat, j: nat, mid: seq<Block>)
    requires i <= j <= |bs|
    ensures TallyRun(Splice(bs, i, j, mid)) == TallyRun(bs).Minus(TallyRun(bs[i..j])).Plus(TallyRun(mid))
  {
    assert bs == bs[..i] + bs[i..j] + bs[j..];
    TallyConcat(bs[..i], bs[i..j]);
    TallyConcat(bs[..i] + bs[i..j], bs[j..]);
    TallyConcat(bs[..i], mid);
    TallyConcat(bs[..i] + mid, bs[j..]);
  }

  lemma {:induction false} TallyJoin(x: seq<Pool>, y: seq<Pool>)
    ensures TallyPools(x + y) == TallyPools(x).Plus(TallyPools(y))
  {
    if x == [] {
      assert x + y == y;
    } else {
      assert (x + y)[1..] == x[1..] + y;
      TallyJoin(x[1..], y);
    }
  }

  lemma TallyOne(p: Pool)
    ensures TallyPools([p]) == TallyRun(p.blocks)
  {
    assert [p][1..] == [];
  }

  /** A list of pools with one of them singled out. */
  lemma TallyAround(x: seq<Pool>, p: Pool, y: seq<Pool>)
    ensures TallyPools(x + [p] + y) == TallyPools(x).Plus(TallyRun(p.blocks)).Plus(TallyPools(y))
  {
    TallyJoin(x, [p]);
    TallyOne(p);
    TallyJoin(x + [p], y);
  }

  lemma TallyReplace(pools: seq<Pool>, k: nat, p: Pool)
    requires k < |pools|
    ensures TallyPools(pools[k := p]) == TallyPools(pools).Minus(TallyRun(pools[k].blocks)).Plus(TallyRun(p.blocks))
  {
    hide TallyPools, TallyRun;
    var x, y := pools[..k], pools[k + 1..];
    TallyAround(x, pools[k], y);
    TallyAround(x, p, y);
    assert pools == x + [pools[k]] + y;
    assert pools[k := p] == x + [p] + y;
  }

  lemma TallySplicePools(pools: seq<Pool>, k: nat, i: nat, j: nat, mid: seq<Block>)
    requires k < |pools| && i <= j <= |pools[k].blocks|
    ensures TallyPools(SplicePools(pools, k, i, j, mid))
            == TallyPools(pools).Minus(TallyRun(pools[k].blocks[i..j])).Plus(TallyRun(mid))
  {
    var bs := pools[k].blocks;
    var p := Pool(pools[k].base, Splice(bs, i, j, mid));
    TallySplice(bs, i, j, mid);
    TallyReplace(pools, k, p);
    Cancel(TallyPools(pools), TallyRun(bs), TallyRun(bs[i..j]), TallyRun(mid));
  }

  lemma Cancel(t: Tally, r: Tally, m: Tally, n: Tally)
    ensures t.Minus(r).Plus(r.Minus(m).Plus(n)) == t.Minus(m).Plus(n)
  {
  }

  lemma TallyAppend(pools: seq<Pool>, p: Pool)
    ensures TallyPools(pools + [p]) == TallyPools(pools).Plus(TallyRun(p.blocks))
  {
    TallyJoin(pools, [p]);
    TallyOne(p);
  }

  lemma TallyDrop(pools: seq<Pool>, k: nat)
    requires k < |pools|
    ensures TallyPools(Dropped(pools, k)) == TallyPools(pools).Minus(TallyRun(pools[k].blocks))
  {
    hide TallyPools, TallyRun;
    var x, y := pools[..k], pools[k + 1..];
    TallyAround(x, pools[k], y);
    TallyJoin(x, y);
    assert pools == x + [pools[k]] + y;
  }

  lemma {:induction false} DirectAppend(ds: seq<Direct>, d: Direct)
    ensures DirectBytes(ds + [d]) == DirectBytes(ds) + d.size
  {
    if ds == [] {
      assert ds + [d] == [d];
      assert DirectBytes([d][1..]) == 0;
    } else {
      assert (ds + [d])[1..] == ds[1..] + [d];
      DirectAppend(ds[1..], d);
    }
  }

  lemma {:induction false} DirectDrop(ds: seq<Direct>, j: nat)
    requires j < |ds|
    ensures DirectBytes(ds[..j] + ds[j + 1..]) == DirectBytes(ds) - ds[j].size
  {
    var rest := ds[..j] + ds[j + 1..];
    if j == 0 {
      assert rest == ds[1..];
    } else {
      assert rest[1..] == ds[1..][..j - 1] + ds[1..][j..];
      DirectDrop(ds[1..], j - 1);
    }
  }

  /** The sentinel is the last block and no other. */
  predicate Ended(bs: seq<Block>) {
    (bs != [] ==> bs[|bs| - 1].Sentinel?) && forall i :: 0 <= i < |bs| - 1 ==> !bs[i].Sentinel?
  }

  lemma EndedRest(bs: seq<Block>)
    requires Ended(bs) && |bs| > 1
    ensures Ended(bs[1..]) && !bs[0].Sentinel?
  {
  }

  lemma TallyStep(bs: seq<Block>)
    requires bs != []
    ensures TallyRun(bs) == TallyBlock(bs[0]).Plus(TallyRun(bs[1..])) && Sum(bs) == bs[0].Size() + Sum(bs[1..])
    ensures TallyRun([]) == ZERO && Sum([]) == 0
  {
  }

  /** The blocks of a well-formed pool account for every byte of it but the sentinel. */
  lemma {:induction false} TallyTotal(bs: seq<Block>)
    requires Ended(bs)
    ensures bs != [] ==> TallyRun(bs).used + TallyRun(bs).free == Sum(bs) - BH
    ensures bs == [] ==> TallyRun(bs) == ZERO
  {
    if bs != [] {
      TallyStep(bs);
      if |bs| > 1 {
        EndedRest(bs);
        hide TallyRun, Sum, Ended;
        TallyTotal(bs[1..]);
      } else {
        assert bs[1..] == [];
      }
    }
  }

  lemma {:induction false} TallyNonNegative(bs: seq<Block>)
    requires Sized(bs)
    ensures TallyRun(bs).used >= 0 && TallyRun(bs).free >= 0
  {
    if bs != [] {
      TallyNonNegative(bs[1..]);
    }
  }

  lemma {:induction false} TalliesNonNegative(pools: seq<Pool>)
    requires forall k :: 0 <= k < |pools| ==> Sized(pools[k].blocks)
    ensures TallyPools(pools).used >= 0 && TallyPools(pools).free >= 0
  {
    if pools != [] {
      TallyNonNegative(pools[0].blocks);
      TalliesNonNegative(pools[1..]);
    }
  }

  // ----- removal from the list

  /** Removing an entry of a list without duplicates takes out that entry and nothing else. */
  lemma {:induction false} RemoveAt(s: seq<int>, j: nat)
    requires Distinct(s) && j < |s|
    ensures Remove(s, s[j]) == s[..j] + s[j + 1..]
  {
    if j == 0 {
      assert s[..0] + s[1..] == s[1..];
    } else {
      assert s[0] != s[j];
      var rest := s[1..];
      assert rest[j - 1] == s[j];
      assert Distinct(rest);
      hide Distinct;
      RemoveAt(rest, j - 1);
      assert s[..j] + s[j + 1..] == [s[0]] + (rest[..j - 1] + rest[j..]);
    }
  }

  lemma RemoveKeeps(s: seq<int>, x: int)
    requires Distinct(s) && x in s
    ensures Distinct(Remove(s, x)) && |Remove(s, x)| == |s| - 1
    ensures forall y :: y in Remove(s, x) <==> y in s && y != x
  {
    var j :| 0 <= j < |s| && s[j] == x;
    RemoveAt(s, j);
    hide Remove;
    OneFewer(s, j, Remove(s, x));
  }

  lemma OneFewer(s: seq<int>, j: nat, r: seq<int>)
    requires Distinct(s) && j < |s| && r == s[..j] + s[j + 1..]
    ensures Distinct(r) && |r| == |s| - 1
    ensures forall y :: y in r <==> y in s && y != s[j]
  {
    forall i | 0 <= i < |r| ensures r[i] == (if i < j then s[i] else s[i + 1]) && r[i] != s[j] {
    }
    forall y | y in s && y != s[j] ensures y in r {
      var i :| 0 <= i < |s| && s[i] == y;
      assert r[if i < j then i else i - 1] == y;
    }
  }

  lemma AppendDistinct(s: seq<int>, x: int)
    requires Distinct(s) && x !in s
    ensures Distinct(s + [x])
  {
  }
}
