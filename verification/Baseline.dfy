/** The arithmetic of the storage study: its exact byte counts as a function of the tree size, the number of
    queries, the level and the number of distinct upper shards, and exactly when they stay within the baseline. */
module Baseline {
  import opened Arithmetic

  datatype Measurements = Measurements(
    baseline: nat,
    assistance: nat,
    noDedup: nat,
    upperDedup: nat,
    minimumViable: nat)

  /** The counts for a tree of the given depth cut into the given number of blocks, with `u` distinct upper shards. */
  function Exact(depth: nat, blocks: nat, q: nat, k: nat, u: nat): Measurements {
    var m := Min(k, depth);
    Measurements(32 * (q * depth), 32 * blocks, 32 * (q * depth + blocks),
                 32 * (q * m + u * (depth - m) + blocks), 32 * (q * m + blocks))
  }

  /** The number of blocks of height `k`, or of the whole tree when it is lower. */
  function BlockCount(n: nat, k: nat): nat {
    CeilDiv(n, Pow2(Min(k, CeilLog2(n))))
  }

  function MeasurementsOf(n: nat, q: nat, k: nat, u: nat): Measurements {
    Exact(CeilLog2(n), BlockCount(n, k), q, k, u)
  }

  /** The labels cost no more than the upper levels that need not be stored again. */
  predicate PaysOff(depth: nat, blocks: nat, q: nat, k: nat, u: nat) {
    k < depth && blocks <= (q - u) * (depth - k)
  }

  /** The condition on a study: `n` leaves, `q` queries, level `k`, queries in `b` blocks. */
  predicate StaysWithin(n: nat, q: nat, k: nat, b: nat) {
    PaysOff(CeilLog2(n), BlockCount(n, k), q, k, b)
  }

  // ---------------------------------------------------------------- products

  lemma MulAtLeast(a: nat, b: nat, c: nat)
    requires b <= c
    ensures a * b <= a * c
  {
  }

  lemma SplitProduct(q: int, k: int, u: int)
    ensures q * (k + u) == q * k + q * u
    ensures (k + u) * q == k * q + u * q
  {
  }

  // ---------------------------------------------------------------- the comparison

  /** The order of the three counts, and exactly which of them stay within the baseline: the full one never, the
      deduplicated one when the labels pay off against `u` stored upper shards, the minimum viable one when they
      pay off against none. */
  lemma ComparedWithBaseline(depth: nat, blocks: nat, q: nat, k: nat, u: nat)
    requires u <= q && u <= blocks && blocks > 0
    ensures var m := Exact(depth, blocks, q, k, u);
            && m.noDedup == m.baseline + m.assistance > m.baseline
            && m.minimumViable <= m.upperDedup <= m.noDedup
            && (m.upperDedup <= m.baseline <==> PaysOff(depth, blocks, q, k, u))
            && (m.minimumViable <= m.baseline <==> PaysOff(depth, blocks, q, k, 0))
            && (k <= depth ==> m.upperDedup <= 32 * (q * k + blocks * (depth - k + 1)))
  {
    var m := Min(k, depth);
    var x := depth - m;
    SplitProduct(q, m, x);
    SplitProduct(x, q - u, u);
    MulAtLeast(x, u, q);
    MulAtLeast(x, u, blocks);
    SplitProduct(blocks, x, 1);
  }

  /** Fewer occupied blocks never hurt. */
  lemma FewerBlocksPayOff(depth: nat, blocks: nat, q: nat, k: nat, u: nat, b: nat)
    requires u <= b <= q && PaysOff(depth, blocks, q, k, b)
    ensures PaysOff(depth, blocks, q, k, u)
  {
    MulAtLeast(depth - k, q - b, q - u);
  }

  lemma BlockCountPositive(n: nat, k: nat)
    requires n > 0
    ensures BlockCount(n, k) > 0
  {
    CeilDivBelow(0, n, Pow2(Min(k, CeilLog2(n))));
  }

  // ---------------------------------------------------------------- occupied blocks

  /** The blocks of height `h` that the indices lie in. */
  function BlocksOf(indices: seq<nat>, h: nat): set<nat> {
    set j | 0 <= j < |indices| :: Shift(indices[j], h)
  }

  lemma BlocksOfPush(indices: seq<nat>, i: nat, h: nat)
    ensures BlocksOf(indices + [i], h) == BlocksOf(indices, h) + {Shift(i, h)}
  {
    var more := indices + [i];
    assert more[|indices|] == i;
    forall b | b in BlocksOf(indices, h) ensures b in BlocksOf(more, h) {
      var j :| 0 <= j < |indices| && Shift(indices[j], h) == b;
      assert more[j] == indices[j];
    }
  }

  predicate InDifferentBlocks(indices: seq<nat>, h: nat) {
    forall i, j :: 0 <= i < j < |indices| ==> Shift(indices[i], h) != Shift(indices[j], h)
  }

  /** At most one block per index, and exactly one when no two indices share a block. */
  lemma {:induction false} BlocksPerIndex(indices: seq<nat>, h: nat)
    ensures |BlocksOf(indices, h)| <= |indices|
    ensures InDifferentBlocks(indices, h) ==> |BlocksOf(indices, h)| == |indices|
  {
    if indices != [] {
      var n := |indices| - 1;
      BlocksPerIndex(indices[..n], h);
      BlocksOfPush(indices[..n], indices[n], h);
      assert indices[..n] + [indices[n]] == indices;
    } else {
      assert BlocksOf(indices, h) == {};
    }
  }

  lemma {:induction false} BoundedSet(s: set<nat>, w: nat)
    requires forall x :: x in s ==> x < w
    ensures |s| <= w
  {
    if w > 0 {
      BoundedSet(s - {w - 1}, w - 1);
    } else {
      assert s == {};
    }
  }

  /** At most as many blocks as there are. */
  lemma BlocksPerTree(indices: seq<nat>, n: nat, k: nat)
    requires forall j :: 0 <= j < |indices| ==> indices[j] < n
    ensures |BlocksOf(indices, Min(k, CeilLog2(n)))| <= BlockCount(n, k)
  {
    var h := Min(k, CeilLog2(n));
    forall b | b in BlocksOf(indices, h) ensures b < BlockCount(n, k) {
      var j :| 0 <= j < |indices| && Shift(indices[j], h) == b;
      ShiftDivides(indices[j], h);
      DivMod(indices[j], Pow2(h));
      CeilDivBelow(b, n, Pow2(h));
    }
    BoundedSet(BlocksOf(indices, h), BlockCount(n, k));
  }

  /** Queries that all lie in different blocks never pay off, for any tree and level. */
  lemma SpreadQueriesNeverPayOff(n: nat, indices: seq<nat>, k: nat)
    requires n > 0 && InDifferentBlocks(indices, Min(k, CeilLog2(n)))
    ensures !StaysWithin(n, |indices|, k, |BlocksOf(indices, Min(k, CeilLog2(n)))|)
  {
    BlocksPerIndex(indices, Min(k, CeilLog2(n)));
    BlockCountPositive(n, k);
  }

  // ---------------------------------------------------------------- half depth

  /** With `k` half the depth and at least half the leaves queried, the labels cost no more than the upper
      levels they replace. */
  lemma LabelsArePaidFor(n: nat, q: nat)
    requires n >= 2 && q >= Max(n / 2, 2)
    ensures StaysWithin(n, q, CeilLog2(n) / 2, 0)
  {
    var depth := CeilLog2(n);
    var k := depth / 2;
    var u := depth - k;
    if n <= 4 {
      FewLabels(n);
      MulAtLeast(q, 1, u);
    } else {
      assert u >= 2 && k >= 1 by {
        DepthAtLeast(n, 2);
      }
      BlocksAtMost(n, k, 1);
      assert CeilDiv(n, Pow2(1)) == (n + 1) / 2;
      MulAtLeast(q, 2, u);
    }
  }

  lemma DepthAtLeast(n: nat, h: nat)
    requires n > Pow2(h)
    ensures CeilLog2(n) > h
  {
    CeilLog2Bounds(n);
    if CeilLog2(n) <= h {
      Pow2Monotone(CeilLog2(n), h);
    }
  }

  lemma DepthAtMost(n: nat, h: nat)
    requires n <= Pow2(h)
    ensures CeilLog2(n) <= h
  {
    CeilLog2Bounds(n);
    if CeilLog2(n) > h {
      Pow2Monotone(h, CeilLog2(n) - 1);
    }
  }

  lemma FewLabels(n: nat)
    requires 2 <= n <= 4
    ensures var depth := CeilLog2(n);
            CeilDiv(n, Pow2(depth / 2)) == 2 && depth - depth / 2 == 1
  {
    assert n == 2 || n == 3 || n == 4;
    assert CeilLog2(2) == 1 && CeilLog2(3) == 2 && CeilLog2(4) == 2;
    assert Pow2(0) == 1 && Pow2(1) == 2;
  }

  /** Blocks of height at least `h` are no more than blocks of height `h`. */
  lemma BlocksAtMost(n: nat, k: nat, h: nat)
    requires h <= k
    ensures CeilDiv(n, Pow2(k)) <= CeilDiv(n, Pow2(h))
  {
    var v, p, p' := CeilDiv(n, Pow2(h)), Pow2(h), Pow2(k);
    Pow2Monotone(h, k);
    CeilDivBelow(v, n, p);
    MulAtLeast(v, p, p');
    CeilDivBelow(v, n, p');
  }

  /** From 10 leaves on even an upper shard for every block is paid for by sharing. */
  lemma SharingBeatsBaseline(n: nat, q: nat, b: nat)
    requires n >= 10 && q >= n / 2 && b <= BlockCount(n, CeilLog2(n) / 2)
    ensures b <= q && StaysWithin(n, q, CeilLog2(n) / 2, b)
  {
    var depth := CeilLog2(n);
    var k, w := depth / 2, BlockCount(n, depth / 2);
    assert depth >= 4 by {
      DepthAtLeast(n, 3);
    }
    assert 3 * w <= 2 * q by {
      BlocksAtMost(n, k, 2);
      assert CeilDiv(n, Pow2(2)) == (n + 3) / 4;
    }
    MulAtLeast(q - b, 2, depth - k);
  }

  /** Different leaves below `n`, at least half of them and at least two if there are two. */
  predicate HalfQueried(n: nat, indices: seq<nat>) {
    && |indices| >= Max(n / 2, Min(n, 2))
    && (forall j :: 0 <= j < |indices| ==> indices[j] < n)
    && (forall i, j :: 0 <= i < j < |indices| ==> indices[i] != indices[j])
  }

  /** The queried study at half depth meets the condition. */
  predicate HalfDepthWithin(n: nat, indices: seq<nat>) {
    var k := CeilLog2(n) / 2;
    StaysWithin(n, |indices|, k, |BlocksOf(indices, k)|)
  }

  /** Queries that do not pay off over fewer than ten leaves: in different blocks, or over nine leaves two in one
      block and one in each of the others. */
  function FailingQueries(n: nat): seq<nat> {
    if n == 2 then [0, 1]
    else if n == 9 then [0, 1, 4, 8]
    else seq(Max(n / 2, Min(n, 2)), j requires 0 <= j => 2 * j)
  }

  lemma FewLeavesFail(n: nat)
    requires 1 <= n < 10
    ensures HalfQueried(n, FailingQueries(n)) && !HalfDepthWithin(n, FailingQueries(n))
  {
    if n == 9 {
      NineLeavesFail();
    } else {
      var indices, k := FailingQueries(n), CeilLog2(n) / 2;
      assert k <= 1 && (n == 2 ==> k == 0) by {
        DepthAtMost(n, 3);
        assert CeilLog2(2) == 1;
      }
      forall i, j | 0 <= i < j < |indices| ensures Shift(indices[i], k) != Shift(indices[j], k) {
        assert Shift(indices[i], k) == if k == 0 then indices[i] else indices[i] / 2;
        assert Shift(indices[j], k) == if k == 0 then indices[j] else indices[j] / 2;
      }
      SpreadQueriesNeverPayOff(n, indices, k);
    }
  }

  lemma NineLeavesFail()
    ensures HalfQueried(9, [0, 1, 4, 8]) && !HalfDepthWithin(9, [0, 1, 4, 8])
  {
    assert CeilLog2(9) == 4;
    assert Pow2(2) == 4;
    var indices: seq<nat> := [0, 1, 4, 8];
    assert Shift(0, 2) == 0 && Shift(1, 2) == 0 && Shift(4, 2) == 1 && Shift(8, 2) == 2;
    assert indices[0] == 0 && indices[1] == 1 && indices[2] == 4 && indices[3] == 8;
    assert BlocksOf(indices, 2) == {0, 1, 2};
  }

  /** Ten leaves is the exact threshold: at half depth, every choice of at least half the leaves meets the
      condition if and only if there are ten leaves or more. */
  lemma HalfDepthThreshold(n: nat)
    requires n >= 1
    ensures n >= 10 <==> forall indices: seq<nat> :: HalfQueried(n, indices) ==> HalfDepthWithin(n, indices)
  {
    if n < 10 {
      FewLeavesFail(n);
    } else {
      var k := CeilLog2(n) / 2;
      forall indices: seq<nat> | HalfQueried(n, indices) ensures HalfDepthWithin(n, indices) {
        BlocksPerTree(indices, n, k);
        SharingBeatsBaseline(n, |indices|, |BlocksOf(indices, k)|);
      }
    }
  }
}
