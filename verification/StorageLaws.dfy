/** Exact byte counts of an anchored store, the sharing of upper shards, and the study that measures them. */
module StorageLaws {
  import opened Wrappers
  import opened Arithmetic
  import opened Sums
  import opened Bsv
  import opened MerkleTree
  import opened MerkleLaws
  import opened Merkle
  import opened ProofStore
  import opened StoreLaws
  import opened StoreRuns
  import opened AnchorAll
  import opened Storage
  import opened Baseline

  /** The stored proof is the entry of some index of the list. */
  predicate IsEntryOf(hp: PairHash<Hash>, k: nat, leaves: seq<Hash>, p: StoredProof) {
    && p.leafIndex < |leaves|
    && p.shards == ShardProof(MerkleProof(p.leafIndex, Siblings(hp, leaves, p.leafIndex)), k)
  }

  predicate AreEntriesOf(hp: PairHash<Hash>, k: nat, leaves: seq<Hash>, stored: seq<StoredProof>) {
    forall j :: 0 <= j < |stored| ==> IsEntryOf(hp, k, leaves, stored[j])
  }

  // ---------------------------------------------------------------- one entry

  /** The measures of at most one shard. */
  lemma MaybeShard(present: bool, s: ProofShard, k: nat)
    ensures var shards := if present then [s] else [];
            && Total(shards, ShardSize) == (if present then |s.siblings| else 0)
            && Total(BelowLevel(shards, k), ShardSize) == (if present && s.fromLevel < k then |s.siblings| else 0)
            && UpperContents(shards, k) == if present && s.fromLevel >= k then {s.siblings} else {}
  {
    var none: seq<ProofShard> := [];
    assert BelowLevel(none, k) == none && UpperContents(none, k) == {};
    assert none + [s] == [s];
    OneMoreShard(none, s, k);
  }

  lemma UpperOfBoth(a: seq<ProofShard>, b: seq<ProofShard>, k: nat)
    ensures UpperContents(a + b, k) == UpperContents(a, k) + UpperContents(b, k)
  {
    assert forall x :: x in a + b <==> x in a || x in b;
  }

  lemma {:induction false} BelowOfBoth(a: seq<ProofShard>, b: seq<ProofShard>, k: nat)
    ensures BelowLevel(a + b, k) == BelowLevel(a, k) + BelowLevel(b, k)
  {
    if a == [] {
      assert a + b == b;
    } else {
      assert (a + b)[1..] == a[1..] + b;
      BelowOfBoth(a[1..], b, k);
    }
  }

  /** The measures of a cut proof: all of it, the part below `k`, and the upper shard if there is one. */
  lemma {:induction false} ShardMeasures(proof: MerkleProof<Hash>, k: nat)
    ensures var s, shards := proof.siblings, ShardProof(proof, k);
            && Total(shards, ShardSize) == |s|
            && Total(BelowLevel(shards, k), ShardSize) == Min(k, |s|)
            && UpperContents(shards, k) == if k < |s| then {s[k..]} else {}
  {
    var s := proof.siblings;
    var m := Min(k, |s|);
    var first, second := ProofShard(0, m, s[..m]), ProofShard(m, |s|, s[m..]);
    var a, b := if 0 < m then [first] else [], if m < |s| then [second] else [];
    assert ShardProof(proof, k) == a + b;
    MaybeShard(0 < m, first, k);
    MaybeShard(m < |s|, second, k);
    TotalAppend(a, b, ShardSize);
    BelowOfBoth(a, b, k);
    TotalAppend(BelowLevel(a, k), BelowLevel(b, k), ShardSize);
    UpperOfBoth(a, b, k);
  }

  /** One entry holds the whole path, its lower part below `k`, and one upper shard when there are levels above `k`. */
  lemma EntryMeasures(hp: PairHash<Hash>, k: nat, leaves: seq<Hash>, p: StoredProof)
    requires IsEntryOf(hp, k, leaves, p)
    ensures TotalSiblings(p) == Depth(leaves)
    ensures LowerSiblingCount(p, k) == Min(k, Depth(leaves))
    ensures UpperContents(p.shards, k)
         == if k < Depth(leaves) then {Siblings(hp, leaves, p.leafIndex)[k..]} else {}
  {
    ShardMeasures(MerkleProof(p.leafIndex, Siblings(hp, leaves, p.leafIndex)), k);
  }

  /** Two indices of one tree in the same block of height `k` have the same upper siblings. */
  lemma UpperShardsShared(hp: PairHash<Hash>, leaves: seq<Hash>, k: nat, i: nat, j: nat)
    requires i < |leaves| && j < |leaves| && k <= Depth(leaves) && Shift(i, k) == Shift(j, k)
    ensures Siblings(hp, leaves, i)[k..] == Siblings(hp, leaves, j)[k..]
  {
    PathOverLevel(hp, leaves, k, i);
    PathOverLevel(hp, leaves, k, j);
  }

  /** What a retrieval returns: the full path or its lower part, and the leaf index. */
  lemma RetrievalBytes(hp: PairHash<Hash>, k: nat, leaves: seq<Hash>, p: StoredProof)
    requires IsEntryOf(hp, k, leaves, p)
    ensures RetrievalAdversarialBytes(p) == 32 * Depth(leaves) + 8
    ensures RetrievalAssistedBytes(p, k) == 32 * Min(k, Depth(leaves)) + 8
    ensures RetrievalAssistedBytes(p, k) < RetrievalAdversarialBytes(p) <==> k < Depth(leaves)
  {
    EntryMeasures(hp, k, leaves, p);
  }

  // ---------------------------------------------------------------- distinct upper shards

  function LeafIndices(stored: seq<StoredProof>): seq<nat> {
    seq(|stored|, j requires 0 <= j < |stored| => stored[j].leafIndex)
  }

  /** The siblings of an index from the published level on. */
  function UpperPath(hp: PairHash<Hash>, leaves: seq<Hash>, index: nat, k: nat): seq<Hash>
    requires index < |leaves|
  {
    Siblings(hp, leaves, index)[PublishedLevel(leaves, k)..]
  }

  function UpperPaths(hp: PairHash<Hash>, leaves: seq<Hash>, indices: seq<nat>, k: nat): set<seq<Hash>>
    requires InRange(leaves, indices)
  {
    set j | 0 <= j < |indices| :: UpperPath(hp, leaves, indices[j], k)
  }

  lemma UpperPathsPush(hp: PairHash<Hash>, leaves: seq<Hash>, indices: seq<nat>, i: nat, k: nat)
    requires InRange(leaves, indices) && i < |leaves|
    ensures UpperPaths(hp, leaves, indices + [i], k)
         == UpperPaths(hp, leaves, indices, k) + {UpperPath(hp, leaves, i, k)}
  {
    var more := indices + [i];
    assert more[|indices|] == i;
    forall v | v in UpperPaths(hp, leaves, indices, k) ensures v in UpperPaths(hp, leaves, more, k) {
      var j :| 0 <= j < |indices| && UpperPath(hp, leaves, indices[j], k) == v;
      assert more[j] == indices[j];
    }
  }

  lemma {:induction false} UpperOfEntry(hp: PairHash<Hash>, k: nat, leaves: seq<Hash>, p: StoredProof)
    requires IsEntryOf(hp, k, leaves, p)
    ensures UpperContents(p.shards, k) == if k < Depth(leaves) then {UpperPath(hp, leaves, p.leafIndex, k)} else {}
  {
    EntryMeasures(hp, k, leaves, p);
  }

  /** The distinct upper shards held are the distinct upper paths of the entries; at or above the root there are
      none. */
  lemma {:induction false} UniqueUpperIsPaths(hp: PairHash<Hash>, k: nat, leaves: seq<Hash>, stored: seq<StoredProof>)
    requires AreEntriesOf(hp, k, leaves, stored)
    ensures UniqueUpper(stored, k) == if k < Depth(leaves) then UpperPaths(hp, leaves, LeafIndices(stored), k) else {}
  {
    if stored == [] {
      assert LeafIndices(stored) == [];
    } else {
      var init, p := stored[..|stored| - 1], stored[|stored| - 1];
      UniqueUpperIsPaths(hp, k, leaves, init);
      UpperOfEntry(hp, k, leaves, p);
      assert LeafIndices(stored) == LeafIndices(init) + [p.leafIndex];
      UpperPathsPush(hp, leaves, LeafIndices(init), p.leafIndex, k);
      assert UniqueUpper(stored, k) == UniqueUpper(init, k) + UpperContents(p.shards, k);
    }
  }

  /** Over distinct labels different positions have different paths: already their lowest siblings differ. */
  lemma PathsApart(hp: PairHash<Hash>, labels: seq<Hash>, i: nat, j: nat)
    requires i < |labels| && j < |labels| && i != j && Distinct(labels)
    ensures Siblings(hp, labels, i) != Siblings(hp, labels, j)
  {
    LowestIsNeighbour(hp, labels, i);
    LowestIsNeighbour(hp, labels, j);
    NeighboursApart(|labels|, i, j);
  }

  lemma PathOfBlock(hp: PairHash<Hash>, leaves: seq<Hash>, index: nat, k: nat)
    requires index < |leaves|
    ensures var m := PublishedLevel(leaves, k);
            && Shift(index, m) < |Level(hp, leaves, m)|
            && UpperPath(hp, leaves, index, k) == Siblings(hp, Level(hp, leaves, m), Shift(index, m))
  {
    PathOverLevel(hp, leaves, PublishedLevel(leaves, k), index);
  }

  /** Whether a new index brings a new path is decided by whether it brings a new block. */
  lemma SharedPath(hp: PairHash<Hash>, leaves: seq<Hash>, indices: seq<nat>, i: nat, k: nat)
    requires InRange(leaves, indices) && i < |leaves|
    ensures var m := PublishedLevel(leaves, k);
            var path, paths := UpperPath(hp, leaves, i, k), UpperPaths(hp, leaves, indices, k);
            && (Shift(i, m) in BlocksOf(indices, m) ==> path in paths)
            && (Distinct(Level(hp, leaves, m)) && path in paths ==> Shift(i, m) in BlocksOf(indices, m))
  {
    var m := PublishedLevel(leaves, k);
    var path, paths := UpperPath(hp, leaves, i, k), UpperPaths(hp, leaves, indices, k);
    PathOfBlock(hp, leaves, i, k);
    if Shift(i, m) in BlocksOf(indices, m) {
      var j :| 0 <= j < |indices| && Shift(indices[j], m) == Shift(i, m);
      PathOfBlock(hp, leaves, indices[j], k);
    }
    if Distinct(Level(hp, leaves, m)) && path in paths {
      var j :| 0 <= j < |indices| && UpperPath(hp, leaves, indices[j], k) == path;
      PathOfBlock(hp, leaves, indices[j], k);
      if Shift(indices[j], m) != Shift(i, m) {
        PathsApart(hp, Level(hp, leaves, m), Shift(indices[j], m), Shift(i, m));
      }
    }
  }

  lemma AddOne<T>(s: set<T>, x: T)
    ensures |s + {x}| == |s| + if x in s then 0 else 1
  {
    if x in s {
      assert s + {x} == s;
    }
  }

  /** Never more distinct upper paths than occupied blocks, and over distinct labels exactly as many. */
  lemma {:induction false} PathsPerBlock(hp: PairHash<Hash>, leaves: seq<Hash>, indices: seq<nat>, k: nat)
    requires |leaves| > 0 && InRange(leaves, indices)
    ensures var m := PublishedLevel(leaves, k);
            var paths, occupied := UpperPaths(hp, leaves, indices, k), BlocksOf(indices, m);
            |paths| <= |occupied| && (Distinct(Level(hp, leaves, m)) ==> |paths| == |occupied|)
    decreases |indices|
  {
    var m := PublishedLevel(leaves, k);
    if indices == [] {
      assert UpperPaths(hp, leaves, indices, k) == {} && BlocksOf(indices, m) == {};
    } else {
      var init, i := indices[..|indices| - 1], indices[|indices| - 1];
      PathsPerBlock(hp, leaves, init, k);
      SharedPath(hp, leaves, init, i, k);
      UpperPathsPush(hp, leaves, init, i, k);
      BlocksOfPush(init, i, m);
      AddOne(UpperPaths(hp, leaves, init, k), UpperPath(hp, leaves, i, k));
      AddOne(BlocksOf(init, m), Shift(i, m));
      assert indices == init + [i];
    }
  }

  /** At most one distinct upper shard per block of height `k`. */
  lemma UpperPerBlock(hp: PairHash<Hash>, k: nat, leaves: seq<Hash>, stored: seq<StoredProof>)
    requires |leaves| > 0 && AreEntriesOf(hp, k, leaves, stored) && k < Depth(leaves)
    ensures |UniqueUpper(stored, k)| <= CeilDiv(|leaves|, Pow2(k))
  {
    UniqueUpperIsPaths(hp, k, leaves, stored);
    PathsPerBlock(hp, leaves, LeafIndices(stored), k);
    BlocksPerTree(LeafIndices(stored), |leaves|, k);
  }

  // ---------------------------------------------------------------- all counts

  lemma {:induction false} EntryTotals(hp: PairHash<Hash>, k: nat, leaves: seq<Hash>, stored: seq<StoredProof>)
    requires AreEntriesOf(hp, k, leaves, stored)
    ensures Total(stored, TotalSiblings) == |stored| * Depth(leaves)
    ensures Total(stored, LowerCount(k)) == |stored| * Min(k, Depth(leaves))
  {
    forall j | 0 <= j < |stored|
      ensures TotalSiblings(stored[j]) == Depth(leaves) && LowerSiblingCount(stored[j], k) == Min(k, Depth(leaves))
    {
      EntryMeasures(hp, k, leaves, stored[j]);
    }
    TotalConstant(stored, TotalSiblings, Depth(leaves));
    TotalConstant(stored, LowerCount(k), Min(k, Depth(leaves)));
  }

  lemma OneMoreTimes(n: nat, c: nat)
    ensures (n + 1) * c == n * c + c
  {
  }

  lemma {:induction false} TotalConstant<T>(s: seq<T>, weight: T -> nat, c: nat)
    requires forall j :: 0 <= j < |s| ==> weight(s[j]) == c
    ensures Total(s, weight) == |s| * c
  {
    if s != [] {
      TotalConstant(s[..|s| - 1], weight, c);
      OneMoreTimes(|s| - 1, c);
    }
  }

  /** What an anchored study counts: siblings in all, siblings below `k`, labels, siblings in distinct upper shards. */
  lemma {:induction false} StudyCounts(hp: PairHash<Hash>, k: nat, leaves: seq<Hash>, stored: seq<StoredProof>)
    requires |leaves| > 0 && AreEntriesOf(hp, k, leaves, stored)
    ensures Total(stored, TotalSiblings) == |stored| * Depth(leaves)
    ensures Total(stored, LowerCount(k)) == |stored| * Min(k, Depth(leaves))
    ensures |AssistanceOf(hp, leaves, k).nodeLabels| == BlockCount(|leaves|, k)
    ensures SetSize(UniqueUpper(stored, k))
         == |UpperPaths(hp, leaves, LeafIndices(stored), k)| * (Depth(leaves) - Min(k, Depth(leaves)))
  {
    EntryTotals(hp, k, leaves, stored);
    LevelWidth(hp, leaves, Min(k, Depth(leaves)));
    UniqueUpperIsPaths(hp, k, leaves, stored);
    UpperSize(hp, k, leaves, LeafIndices(stored));
  }

  lemma UpperSize(hp: PairHash<Hash>, k: nat, leaves: seq<Hash>, indices: seq<nat>)
    requires InRange(leaves, indices)
    ensures SetSize(if k < Depth(leaves) then UpperPaths(hp, leaves, indices, k) else {})
         == |UpperPaths(hp, leaves, indices, k)| * (Depth(leaves) - Min(k, Depth(leaves)))
  {
    if k < Depth(leaves) {
      var paths := UpperPaths(hp, leaves, indices, k);
      forall v | v in paths ensures |v| == Depth(leaves) - k {
        var j :| 0 <= j < |indices| && UpperPath(hp, leaves, indices[j], k) == v;
      }
      SetSizeUniform(paths, Depth(leaves) - k);
    }
  }

  /** How many distinct upper paths there can be: no more than occupied blocks, of which there are no more than
      queries and no more than blocks in the tree; exactly one per occupied block when the labels are distinct. */
  lemma UpperPathCount(hp: PairHash<Hash>, k: nat, leaves: seq<Hash>, indices: seq<nat>)
    requires |leaves| > 0 && InRange(leaves, indices)
    ensures var m := PublishedLevel(leaves, k);
            var u, b := |UpperPaths(hp, leaves, indices, k)|, |BlocksOf(indices, m)|;
            && u <= b <= |indices| && b <= BlockCount(|leaves|, k)
            && (Distinct(Level(hp, leaves, m)) ==> u == b)
  {
    PathsPerBlock(hp, leaves, indices, k);
    BlocksPerIndex(indices, PublishedLevel(leaves, k));
    BlocksPerTree(indices, |leaves|, k);
  }

  // ---------------------------------------------------------------- the study

  /** The measurements of a study over the given entries. */
  function Measured(hp: PairHash<Hash>, k: nat, leaves: seq<Hash>, indices: seq<nat>): Measurements
    requires InRange(leaves, indices)
  {
    MeasurementsOf(|leaves|, |indices|, k, |UpperPaths(hp, leaves, indices, k)|)
  }

  /** The five byte counts in terms of leaves, queries, level and distinct upper paths. */
  lemma MeasuredCounts(hp: PairHash<Hash>, k: nat, leaves: seq<Hash>, indices: seq<nat>)
    requires InRange(leaves, indices)
    ensures var q, depth, m := |indices|, Depth(leaves), Min(k, Depth(leaves));
            var u, blocks := |UpperPaths(hp, leaves, indices, k)|, CeilDiv(|leaves|, Pow2(m));
            var bytes := Measured(hp, k, leaves, indices);
            && bytes.baseline == 32 * (q * depth)
            && bytes.assistance == 32 * blocks
            && bytes.noDedup == 32 * (q * depth + blocks)
            && bytes.upperDedup == 32 * (q * m + u * (depth - m) + blocks)
            && bytes.minimumViable == 32 * (q * m + blocks)
  {
  }

  /** Exactly when a study stays within the baseline. The full count never does; the minimum viable count does
      when the labels pay off against no stored upper shard; the deduplicated count does when they pay off
      against the distinct upper paths, and in terms of the queries alone: it does whenever they pay off
      against the occupied blocks and, over distinct labels, only then. */
  lemma WithinBaselineIff(hp: PairHash<Hash>, k: nat, leaves: seq<Hash>, indices: seq<nat>)
    requires |leaves| > 0 && InRange(leaves, indices)
    ensures var n, q, m := |leaves|, |indices|, Measured(hp, k, leaves, indices);
            var u, b := |UpperPaths(hp, leaves, indices, k)|, |BlocksOf(indices, PublishedLevel(leaves, k))|;
            && m.noDedup == m.baseline + m.assistance > m.baseline
            && m.minimumViable <= m.upperDedup <= m.noDedup
            && (m.minimumViable <= m.baseline <==> StaysWithin(n, q, k, 0))
            && (m.upperDedup <= m.baseline <==> StaysWithin(n, q, k, u))
            && (StaysWithin(n, q, k, b) ==> m.upperDedup <= m.baseline)
            && (Distinct(Level(hp, leaves, PublishedLevel(leaves, k))) ==>
                  (m.upperDedup <= m.baseline <==> StaysWithin(n, q, k, b)))
  {
    var n, q := |leaves|, |indices|;
    var u, b := |UpperPaths(hp, leaves, indices, k)|, |BlocksOf(indices, PublishedLevel(leaves, k))|;
    UpperPathCount(hp, k, leaves, indices);
    BlockCountPositive(n, k);
    ComparedWithBaseline(CeilLog2(n), BlockCount(n, k), q, k, u);
    if StaysWithin(n, q, k, b) {
      FewerBlocksPayOff(CeilLog2(n), BlockCount(n, k), q, k, u, b);
    }
  }

  /** The labels of two blocks of the published level give a collision away. */
  predicate LabelsCollide(hp: PairHash<Hash>, leaves: seq<Hash>, h: nat, i: nat, j: nat) {
    && i < j && Scale(i, h) < |leaves| && Scale(j, h) < |leaves|
    && Collision(hp, LabelCollision(hp, leaves, h, i, j))
  }

  /** Over distinct leaves the condition on the queries alone is exact, or labels of two named blocks collide. */
  lemma WithinBaselineByQueries(hp: PairHash<Hash>, k: nat, leaves: seq<Hash>, indices: seq<nat>)
    requires |leaves| > 0 && InRange(leaves, indices) && Distinct(leaves)
    ensures var m, h := Measured(hp, k, leaves, indices), PublishedLevel(leaves, k);
            || (m.upperDedup <= m.baseline <==> StaysWithin(|leaves|, |indices|, k, |BlocksOf(indices, h)|))
            || exists i, j :: LabelsCollide(hp, leaves, h, i, j)
  {
    var h := PublishedLevel(leaves, k);
    var labels := Level(hp, leaves, h);
    WithinBaselineIff(hp, k, leaves, indices);
    if !Distinct(labels) {
      var i: nat, j: nat :| i < j < |labels| && labels[i] == labels[j];
      LabelsDistinct(hp, leaves, h, i, j);
      assert LabelsCollide(hp, leaves, h, i, j);
    }
  }

  /** The tested setting, half the depth and half the leaves queried: from ten leaves on the deduplicated store is
      within the baseline, whatever the leaves and the hash. */
  lemma HalfDepthStudyWithin(hp: PairHash<Hash>, leaves: seq<Hash>, indices: seq<nat>)
    requires |leaves| >= 10 && InRange(leaves, indices) && |indices| >= |leaves| / 2
    ensures var m := Measured(hp, Depth(leaves) / 2, leaves, indices);
            m.minimumViable <= m.upperDedup <= m.baseline
  {
    var k := Depth(leaves) / 2;
    UpperPathCount(hp, k, leaves, indices);
    SharingBeatsBaseline(|leaves|, |indices|, |BlocksOf(indices, k)|);
    WithinBaselineIff(hp, k, leaves, indices);
  }

  /** Below ten leaves it is not: over distinct labels there are queries of half the leaves that exceed it. */
  lemma SmallTreeExceedsBaseline(hp: PairHash<Hash>, leaves: seq<Hash>)
    requires 1 <= |leaves| < 10 && Distinct(Level(hp, leaves, Depth(leaves) / 2))
    ensures var indices := FailingQueries(|leaves|);
            && HalfQueried(|leaves|, indices)
            && var m := Measured(hp, Depth(leaves) / 2, leaves, indices);
               m.upperDedup > m.baseline
  {
    FewLeavesFail(|leaves|);
    WithinBaselineIff(hp, Depth(leaves) / 2, leaves, FailingQueries(|leaves|));
  }

  /** Both verifiers accept every entry read back. */
  lemma EntriesPass(hp: PairHash<Hash>, k: nat, leaves: seq<Hash>, indices: seq<nat>, j: nat)
    requires InRange(leaves, indices) && j < |indices|
    ensures var stored := AnsweringCall(leaves, indices, j).Entry(hp, k);
            var published := Replay(hp, k, CallsFor(leaves, indices)).assistance;
            && AdversarialVerdict(hp, leaves[indices[j]], stored, Adversarial) == Ok(Unit)
            && AssistedVerdict(hp, published, leaves[indices[j]], stored) == Ok(Unit)
  {
    var call := AnsweringCall(leaves, indices, j);
    AnchoredAnswers(hp, k, leaves, indices, j);
    EntryIsHonest(hp, k, call);
    OwnLabelsServe(hp, k, call);
    AssistedAcceptsIff(hp, k, call, leaves, Replay(hp, k, CallsFor(leaves, indices)).assistance);
  }

  /** The entries that the queries of a study answer. */
  function EntriesFor(hp: PairHash<Hash>, k: nat, leaves: seq<Hash>, indices: seq<nat>): (s: seq<StoredProof>)
    requires InRange(leaves, indices)
    ensures AreEntriesOf(hp, k, leaves, s) && LeafIndices(s) == Answered(leaves, indices)
  {
    seq(|indices|, j requires 0 <= j < |indices| => AnsweringCall(leaves, indices, j).Entry(hp, k))
  }

  /** What the study measures over those entries. */
  lemma {:induction false} StudyMeasures(hp: PairHash<Hash>, k: nat, leaves: seq<Hash>, indices: seq<nat>,
                                         m: Measurements)
    requires |indices| > 0 && InRange(leaves, indices)
    requires var stored := EntriesFor(hp, k, leaves, indices);
             && m.baseline == HASH_BYTES * Total(stored, TotalSiblings)
             && m.assistance == HASH_BYTES * |AssistanceOf(hp, leaves, k).nodeLabels|
             && m.noDedup == HASH_BYTES * Total(stored, TotalSiblings) + m.assistance
             && m.minimumViable == HASH_BYTES * Total(stored, LowerCount(k)) + m.assistance
             && m.upperDedup == m.minimumViable + HASH_BYTES * SetSize(UniqueUpper(stored, k))
    ensures m == Measured(hp, k, leaves, Answered(leaves, indices))
  {
    var stored, u := EntriesFor(hp, k, leaves, indices), |UpperPaths(hp, leaves, Answered(leaves, indices), k)|;
    StudyCounts(hp, k, leaves, stored);
    FromCounts(Depth(leaves), BlockCount(|leaves|, k), |indices|, k, u, Total(stored, TotalSiblings),
               Total(stored, LowerCount(k)), SetSize(UniqueUpper(stored, k)), m);
  }

  lemma {:induction false} FromCounts(depth: nat, blocks: nat, q: nat, k: nat, u: nat, siblings: nat, lower: nat,
                                      upper: nat, m: Measurements)
    requires siblings == q * depth && lower == q * Min(k, depth) && upper == u * (depth - Min(k, depth))
    requires m.baseline == 32 * siblings && m.assistance == 32 * blocks && m.noDedup == 32 * siblings + m.assistance
    requires m.minimumViable == 32 * lower + m.assistance && m.upperDedup == m.minimumViable + 32 * upper
    ensures m == Exact(depth, blocks, q, k, u)
  {
  }

  /** Querying the key of the `j`-th index answers its entry. */
  lemma EntryRead(hp: PairHash<Hash>, k: nat, leaves: seq<Hash>, indices: seq<nat>, j: nat)
    requires InRange(leaves, indices) && j < |indices|
    ensures Replay(hp, k, CallsFor(leaves, indices)).Query(KeyFor(indices[j], leaves[indices[j]]))
         == Ok(EntriesFor(hp, k, leaves, indices)[j])
  {
    AnchoredAnswers(hp, k, leaves, indices, j);
    assert KeyFor(indices[j], leaves[indices[j]]) == CallsFor(leaves, indices)[j].key;
  }

  method ReadBack(store: ProofStore, leaves: seq<Hash>, indices: seq<nat>) returns (stored: seq<StoredProof>)
    requires InRange(leaves, indices)
    requires store.State() == Replay(store.hp, store.predeterminedLevel, CallsFor(leaves, indices))
    ensures stored == EntriesFor(store.hp, store.predeterminedLevel, leaves, indices)
  {
    ghost var expected := EntriesFor(store.hp, store.predeterminedLevel, leaves, indices);
    stored := [];
    for j := 0 to |indices|
      invariant |stored| == j && forall i :: 0 <= i < j ==> stored[i] == expected[i]
    {
      EntryRead(store.hp, store.predeterminedLevel, leaves, indices, j);
      var p := store.Query(KeyFor(indices[j], leaves[indices[j]]));
      stored := stored + [p.value];
    }
  }

  method BaselineRealised(stored: seq<StoredProof>) returns (bytes: nat)
    ensures bytes == HASH_BYTES * Total(stored, TotalSiblings)
  {
    bytes := 0;
    for j := 0 to |stored|
      invariant bytes == HASH_BYTES * Total(stored[..j], TotalSiblings)
    {
      assert stored[..j + 1][..j] == stored[..j];
      bytes := bytes + TotalSiblings(stored[j]) * HASH_BYTES;
    }
    assert stored[..|stored|] == stored;
  }

  /** The verification loop: both verifiers on every entry, stopping at the first failure. */
  method VerifyEvery(store: ProofStore, leaves: seq<Hash>, indices: seq<nat>, stored: seq<StoredProof>)
    returns (r: Result<Unit, ProofStoreError>)
    requires InRange(leaves, indices) && |stored| == |indices|
    ensures r == Ok(Unit) <==>
              forall j :: 0 <= j < |indices| ==>
                && AdversarialVerdict(store.hp, leaves[indices[j]], stored[j], Adversarial) == Ok(Unit)
                && AssistedVerdict(store.hp, store.State().assistance, leaves[indices[j]], stored[j]) == Ok(Unit)
  {
    for j := 0 to |indices|
      invariant forall i :: 0 <= i < j ==>
                  && AdversarialVerdict(store.hp, leaves[indices[i]], stored[i], Adversarial) == Ok(Unit)
                  && AssistedVerdict(store.hp, store.State().assistance, leaves[indices[i]], stored[i]) == Ok(Unit)
    {
      var full := store.Verify(leaves[indices[j]], stored[j], Adversarial);
      if full.Err? {
        return Err(full.error);
      }
      var assisted := store.VerifyWithAssistance(leaves[indices[j]], stored[j]);
      if assisted.Err? {
        return Err(assisted.error);
      }
    }
    return Ok(Unit);
  }

  /** The study itself: anchor the queried indices, read every entry back, measure, verify every entry twice. */
  method StorageStudy(hp: PairHash<Hash>, leaves: seq<Hash>, indices: seq<nat>, k: nat)
    returns (r: Result<Measurements, ProofStoreError>)
    requires |indices| > 0 && InRange(leaves, indices)
    ensures r == Ok(Measured(hp, k, leaves, Answered(leaves, indices)))
    ensures |leaves| <= U32_MAX + 1 ==> r == Ok(Measured(hp, k, leaves, indices))
  {
    var store := new ProofStore(hp, k);
    AnchorIndices(store, leaves, indices);
    var stored := ReadBack(store, leaves, indices);
    var m := Measure(store, leaves, indices, stored);
    forall j | 0 <= j < |indices|
      ensures AdversarialVerdict(hp, leaves[indices[j]], stored[j], Adversarial) == Ok(Unit)
      ensures AssistedVerdict(hp, store.State().assistance, leaves[indices[j]], stored[j]) == Ok(Unit)
    {
      EntriesPass(hp, k, leaves, indices, j);
    }
    var verified := VerifyEvery(store, leaves, indices, stored);
    assert verified.Ok?;  // the early return of the source is dead here: every entry passes
    if |leaves| <= U32_MAX + 1 {
      AnsweredAsQueried(leaves, indices);
    }
    return Ok(m);
  }

  method Measure(store: ProofStore, leaves: seq<Hash>, indices: seq<nat>, stored: seq<StoredProof>)
    returns (m: Measurements)
    requires |indices| > 0 && InRange(leaves, indices)
    requires store.State() == Replay(store.hp, store.predeterminedLevel, CallsFor(leaves, indices))
    requires stored == EntriesFor(store.hp, store.predeterminedLevel, leaves, indices)
    ensures m == Measured(store.hp, store.predeterminedLevel, leaves, Answered(leaves, indices))
  {
    AnchoredAnswers(store.hp, store.predeterminedLevel, leaves, indices, 0);
    var assistance := store.ProofAssistanceFor(stored[0].expectedRoot);
    var assistanceBytes := |assistance.value.nodeLabels| * HASH_BYTES;
    var baseline := BaselineRealised(stored);
    var noDedup, upperDedup, minimumViable := MeasureStoreBytes(stored, store.predeterminedLevel, assistanceBytes);
    m := Measurements(baseline, assistanceBytes, noDedup, upperDedup, minimumViable);
    StudyMeasures(store.hp, store.predeterminedLevel, leaves, indices, m);
  }
}
