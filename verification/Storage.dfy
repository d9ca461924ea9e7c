/** The storage study: what the populated store holds, byte for byte, against the full-proof baseline. */
module Storage {
  import opened Sums
  import opened Bsv
  import opened ProofStore
  import opened StoreLaws

  const HASH_BYTES: nat := 32
  const USIZE_BYTES: nat := 8

  function ShardSize(s: ProofShard): nat {
    |s.siblings|
  }

  /** `proof_total_siblings`. */
  function TotalSiblings(p: StoredProof): nat {
    Total(p.shards, ShardSize)
  }

  function RetrievalAdversarialBytes(p: StoredProof): nat {
    TotalSiblings(p) * HASH_BYTES + USIZE_BYTES
  }

  function RetrievalAssistedBytes(p: StoredProof, k: nat): nat {
    LowerSiblingCount(p, k) * HASH_BYTES + USIZE_BYTES
  }

  /** Siblings held in the shards below level `k`. */
  function LowerSiblingCount(p: StoredProof, k: nat): nat {
    Total(BelowLevel(p.shards, k), ShardSize)
  }

  /** The same as a weight of entries. */
  function LowerCount(k: nat): StoredProof -> nat {
    p => LowerSiblingCount(p, k)
  }

  /** The contents of the shards from level `k` on, duplicates merged. */
  function UpperContents(shards: seq<ProofShard>, k: nat): set<seq<Hash>> {
    set s | s in shards && s.fromLevel >= k :: s.siblings
  }

  function UniqueUpper(stored: seq<StoredProof>, k: nat): set<seq<Hash>> {
    if stored == [] then {}
    else UniqueUpper(stored[..|stored| - 1], k) + UpperContents(stored[|stored| - 1].shards, k)
  }

  /** The siblings in a set of shard contents. */
  ghost function SetSize(contents: set<seq<Hash>>): nat {
    if contents == {} then 0
    else
      var v :| v in contents;
      |v| + SetSize(contents - {v})
  }

  lemma {:induction false} SetSizeRemove(contents: set<seq<Hash>>, v: seq<Hash>)
    requires v in contents
    ensures SetSize(contents) == |v| + SetSize(contents - {v})
    decreases |contents|
  {
    var w :| w in contents && SetSize(contents) == |w| + SetSize(contents - {w});
    if v != w {
      SetSizeRemove(contents - {w}, v);
      SetSizeRemove(contents - {v}, w);
      assert contents - {w} - {v} == contents - {v} - {w};
    }
  }

  lemma {:induction false} SetSizeUniform(contents: set<seq<Hash>>, n: nat)
    requires forall v :: v in contents ==> |v| == n
    ensures SetSize(contents) == |contents| * n
    decreases |contents|
  {
    if contents != {} {
      var v :| v in contents;
      SetSizeRemove(contents, v);
      SetSizeUniform(contents - {v}, n);
    }
  }

  /** What one more entry adds to the three measures. */
  lemma OneMoreEntry(stored: seq<StoredProof>, i: nat, k: nat)
    requires i < |stored|
    ensures Total(stored[..i + 1], TotalSiblings) == Total(stored[..i], TotalSiblings) + TotalSiblings(stored[i])
    ensures Total(stored[..i + 1], LowerCount(k)) == Total(stored[..i], LowerCount(k)) + LowerSiblingCount(stored[i], k)
    ensures UniqueUpper(stored[..i + 1], k) == UniqueUpper(stored[..i], k) + UpperContents(stored[i].shards, k)
  {
    assert stored[..i + 1][..i] == stored[..i];
  }

  method MeasureStoreBytes(stored: seq<StoredProof>, k: nat, assistanceBytes: nat)
    returns (noDedup: nat, upperDedup: nat, minimumViable: nat)
    ensures noDedup == HASH_BYTES * Total(stored, TotalSiblings) + assistanceBytes
    ensures minimumViable == HASH_BYTES * Total(stored, LowerCount(k)) + assistanceBytes
    ensures upperDedup == minimumViable + HASH_BYTES * SetSize(UniqueUpper(stored, k))
  {
    noDedup := assistanceBytes;
    var lowerBytes := 0;
    var uniqueUpper: set<seq<Hash>> := {};
    for i := 0 to |stored|
      invariant noDedup == HASH_BYTES * Total(stored[..i], TotalSiblings) + assistanceBytes
      invariant lowerBytes == HASH_BYTES * Total(stored[..i], LowerCount(k))
      invariant uniqueUpper == UniqueUpper(stored[..i], k)
    {
      var bytes, lowerOfEntry, upperOfEntry := MeasureEntry(stored[i], k);
      OneMoreEntry(stored, i, k);
      noDedup := noDedup + bytes;
      lowerBytes := lowerBytes + lowerOfEntry;
      uniqueUpper := uniqueUpper + upperOfEntry;
    }
    assert stored[..|stored|] == stored;
    var upperBytes := 0;
    var rest := uniqueUpper;
    while rest != {}
      invariant upperBytes + HASH_BYTES * SetSize(rest) == HASH_BYTES * SetSize(uniqueUpper)
      decreases rest
    {
      var v :| v in rest;
      SetSizeRemove(rest, v);
      upperBytes := upperBytes + |v| * HASH_BYTES;
      rest := rest - {v};
    }
    minimumViable := lowerBytes + assistanceBytes;
    upperDedup := lowerBytes + upperBytes + assistanceBytes;
  }

  /** The inner loop over the shards of one entry. */
  method MeasureEntry(p: StoredProof, k: nat) returns (bytes: nat, lowerBytes: nat, upper: set<seq<Hash>>)
    ensures bytes == HASH_BYTES * TotalSiblings(p)
    ensures lowerBytes == HASH_BYTES * LowerSiblingCount(p, k)
    ensures upper == UpperContents(p.shards, k)
  {
    bytes, lowerBytes, upper := 0, 0, {};
    for i := 0 to |p.shards|
      invariant bytes == HASH_BYTES * Total(p.shards[..i], ShardSize)
      invariant lowerBytes == HASH_BYTES * Total(BelowLevel(p.shards[..i], k), ShardSize)
      invariant upper == UpperContents(p.shards[..i], k)
    {
      var s := p.shards[i];
      OneMoreShardAt(p.shards, i, k);
      bytes := bytes + |s.siblings| * HASH_BYTES;
      if s.fromLevel < k {
        lowerBytes := lowerBytes + |s.siblings| * HASH_BYTES;
      } else {
        upper := upper + {s.siblings};
      }
    }
    assert p.shards[..|p.shards|] == p.shards;
  }

  lemma {:induction false} BelowLevelPush(shards: seq<ProofShard>, s: ProofShard, k: nat)
    ensures BelowLevel(shards + [s], k) == BelowLevel(shards, k) + if s.fromLevel < k then [s] else []
  {
    if shards == [] {
      assert shards + [s] == [s];
      assert [s][1..] == [];
    } else {
      assert (shards + [s])[1..] == shards[1..] + [s];
      BelowLevelPush(shards[1..], s, k);
    }
  }

  /** What one more shard adds to the three measures. */
  lemma OneMoreShard(shards: seq<ProofShard>, s: ProofShard, k: nat)
    ensures Total(shards + [s], ShardSize) == Total(shards, ShardSize) + |s.siblings|
    ensures Total(BelowLevel(shards + [s], k), ShardSize)
         == Total(BelowLevel(shards, k), ShardSize) + if s.fromLevel < k then |s.siblings| else 0
    ensures UpperContents(shards + [s], k)
         == UpperContents(shards, k) + if s.fromLevel < k then {} else {s.siblings}
  {
    TotalPush(shards, s, ShardSize);
    TotalPush(BelowLevel(shards, k), s, ShardSize);
    assert BelowLevel(shards + [s], k) == BelowLevel(shards, k) + if s.fromLevel < k then [s] else [] by {
      BelowLevelPush(shards, s, k);
    }
    assert BelowLevel(shards, k) + [] == BelowLevel(shards, k);
    UpperContentsPush(shards, s, k);
  }

  lemma OneMoreShardAt(shards: seq<ProofShard>, i: nat, k: nat)
    requires i < |shards|
    ensures var s, before, after := shards[i], shards[..i], shards[..i + 1];
            && Total(after, ShardSize) == Total(before, ShardSize) + |s.siblings|
            && Total(BelowLevel(after, k), ShardSize)
               == Total(BelowLevel(before, k), ShardSize) + (if s.fromLevel < k then |s.siblings| else 0)
            && UpperContents(after, k) == UpperContents(before, k) + if s.fromLevel < k then {} else {s.siblings}
  {
    assert shards[..i + 1] == shards[..i] + [shards[i]];
    OneMoreShard(shards[..i], shards[i], k);
  }

  lemma UpperContentsPush(shards: seq<ProofShard>, s: ProofShard, k: nat)
    ensures UpperContents(shards + [s], k)
         == UpperContents(shards, k) + if s.fromLevel < k then {} else {s.siblings}
  {
    assert forall x :: x in shards + [s] <==> x in shards || x == s;
  }
}
