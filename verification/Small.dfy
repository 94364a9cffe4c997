/** A small geometry: two children, single parity, sectors of 512 bytes, two places. */
module Small {
  import opened Bytes
  import opened Blkptr
  import opened PoolRead
  import opened RaidzGeometry
  import opened Writing
  import Raidz

  const FIRST := Dva(1, 0)
  const SECOND := Dva(1, 8)

  function TwoBlocks(a: seq<Byte>, b: seq<Byte>): seq<Placed>
  {
    [Placed(FIRST, 512, a), Placed(SECOND, 512, b)]
  }

  lemma {:induction false} TwoApart(pool: Pool, a: seq<Byte>, b: seq<Byte>)
    requires pool.ashift == 9 && pool.ncols == 2 && pool.nparity == 1 && |a| == |b| == 512
    ensures AllOn(pool, TwoBlocks(a, b)) && AllClear(pool, TwoBlocks(a, b))
  {
    hide Raidz.Layout.Map, Raidz.Layout.Check;
    assert Pow2(9) == 512;
    AsizeAgrees(0, 512, 9, 2, 1);
    AsizeAgrees(4096, 512, 9, 2, 1);
  }

  /** A pool on which both places can be read. */
  lemma {:induction false} SmallPool(a: seq<Byte>, b: seq<Byte>) returns (pool: Pool)
    requires |a| == |b| == 512
    ensures pool.ashift == 9 && pool.ncols == 2 && pool.nparity == 1 && pool.Valid()
    ensures AllOn(pool, TwoBlocks(a, b)) && AllClear(pool, TwoBlocks(a, b)) && Healthy(pool, TwoBlocks(a, b))
  {
    hide Healthy, AllClear, AllOn, Pow2;
    TwoApart(Pool(map[], 9, 2, 1), a, b);
    pool := HealthyPool(9, 2, 1, TwoBlocks(a, b));
    TwoApart(pool, a, b);
  }

  lemma PlacesAreOn(pool: Pool, ws: seq<Placed>)
    requires pool.Valid() && AllOn(pool, ws)
    ensures forall k :: 0 <= k < |ws| ==> pool.Aligned(ws[k].dva) && ws[k].psize > 0
  {
    hide Pool.LayoutOf;
  }
}
