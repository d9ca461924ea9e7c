/** Anchoring many indices of one leaf list into one store, as both studies do. */
module AnchorAll {
  import opened Wrappers
  import opened Arithmetic
  import opened Bsv
  import opened MerkleTree
  import opened ProofStore
  import opened StoreRuns

  const U32_MAX: nat := 0xFFFF_FFFF

  /** The key of a study entry; the block position saturates at `u32::MAX`. */
  function KeyFor(index: nat, leaf: Hash): IndexKey {
    IndexKey(leaf, Output, 0, Min(index, U32_MAX), None, None, None)
  }

  /** The fields of such a key: an output at position 0 of the transaction that the leaf stands for. */
  lemma KeyFields(index: nat, leaf: Hash)
    ensures var key := KeyFor(index, leaf);
            && key.txid == leaf && key.direction == Output && key.position == 0
            && key.blockPosition == (if index < 0x1_0000_0000 then index else 0xFFFF_FFFF)
            && key.lockingScript.None? && key.unlockingScript.None? && key.amount.None?
  {
  }

  predicate InRange(leaves: seq<Hash>, indices: seq<nat>) {
    forall j :: 0 <= j < |indices| ==> indices[j] < |leaves|
  }

  /** The calls the loop makes. */
  function CallsFor(leaves: seq<Hash>, indices: seq<nat>): (calls: seq<AnchorCall>)
    requires InRange(leaves, indices)
    ensures |calls| == |indices|
    ensures forall j :: 0 <= j < |calls| ==>
              calls[j] == AnchorCall(KeyFor(indices[j], leaves[indices[j]]), leaves, indices[j]) && calls[j].Succeeds()
  {
    seq(|indices|, j requires 0 <= j < |indices| =>
      AnchorCall(KeyFor(indices[j], leaves[indices[j]]), leaves, indices[j]))
  }

  method AnchorIndices(store: ProofStore, leaves: seq<Hash>, indices: seq<nat>)
    requires InRange(leaves, indices)
    requires store.State() == EMPTY
    modifies store
    ensures store.State() == Replay(store.hp, store.predeterminedLevel, CallsFor(leaves, indices))
  {
    ghost var calls := CallsFor(leaves, indices);
    for j := 0 to |indices|
      invariant store.State() == Replay(store.hp, store.predeterminedLevel, calls[..j])
    {
      assert calls[..j + 1][..j] == calls[..j];
      var i := indices[j];
      var answer := store.Anchor(KeyFor(i, leaves[i]), leaves, i);
      assert answer.Ok?;  // the index is in range: no call of this loop fails
    }
    assert calls[..|indices|] == calls;
  }

  /** Every key that was anchored answers an entry of the list, and its root has that list's assistance. */
  lemma AnchoredAnswers(hp: PairHash<Hash>, k: nat, leaves: seq<Hash>, indices: seq<nat>, j: nat)
    requires InRange(leaves, indices) && j < |indices|
    ensures var calls := CallsFor(leaves, indices);
            var last := LastFor(calls, calls[j].key);
            && last.Some? && last.value.leaves == leaves && last.value.Leaf() == leaves[indices[j]]
            && Replay(hp, k, calls).Query(calls[j].key) == Ok(last.value.Entry(hp, k))
            && Root(hp, leaves) in Replay(hp, k, calls).assistance
            && Replay(hp, k, calls).assistance[Root(hp, leaves)] == AssistanceOf(hp, leaves, k)
  {
    var calls := CallsFor(leaves, indices);
    LastForExists(calls, j);
    RunInvariant(hp, k, calls, calls[j].key);
    LastUnderExists(hp, calls, calls[j]);
    AssistanceAfterRun(hp, k, calls, Root(hp, leaves));
  }

  lemma {:induction false} LastForExists(calls: seq<AnchorCall>, j: nat)
    requires j < |calls| && calls[j].Succeeds()
    ensures LastFor(calls, calls[j].key).Some?
  {
    if j < |calls| - 1 {
      LastForExists(calls[..|calls| - 1], j);
    }
  }

  /** The call that the key of the `j`-th index answers for: the last one under that key. */
  function AnsweringCall(leaves: seq<Hash>, indices: seq<nat>, j: nat): (c: AnchorCall)
    requires InRange(leaves, indices) && j < |indices|
    ensures c.Succeeds() && c.leaves == leaves
    ensures c in CallsFor(leaves, indices) && c.key == CallsFor(leaves, indices)[j].key
  {
    LastForExists(CallsFor(leaves, indices), j);
    LastFor(CallsFor(leaves, indices), CallsFor(leaves, indices)[j].key).value
  }

  /** The leaf indices that the keys answer for. */
  function Answered(leaves: seq<Hash>, indices: seq<nat>): (s: seq<nat>)
    requires InRange(leaves, indices)
    ensures |s| == |indices| && InRange(leaves, s)
  {
    seq(|indices|, j requires 0 <= j < |indices| => AnsweringCall(leaves, indices, j).index)
  }

  /** Distinct indices have distinct keys as long as they fit `u32`. */
  lemma KeysDistinct(i: nat, x: Hash, j: nat, y: Hash)
    requires i != j && i <= U32_MAX && j <= U32_MAX
    ensures KeyFor(i, x) != KeyFor(j, y)
  {
  }

  /** So over at most 2^32 leaves the indices answered for are the indices queried. */
  lemma AnsweredAsQueried(leaves: seq<Hash>, indices: seq<nat>)
    requires InRange(leaves, indices) && |leaves| <= U32_MAX + 1
    ensures Answered(leaves, indices) == indices
  {
    var calls := CallsFor(leaves, indices);
    forall j | 0 <= j < |indices| ensures Answered(leaves, indices)[j] == indices[j] {
      var last := AnsweringCall(leaves, indices, j);
      if last.index != indices[j] {
        KeysDistinct(last.index, last.Leaf(), indices[j], leaves[indices[j]]);
      }
    }
  }

  /** Over at most 2^32 leaves the answer is the entry of exactly the queried index. */
  lemma AnchoredAnswersExactly(hp: PairHash<Hash>, k: nat, leaves: seq<Hash>, indices: seq<nat>, j: nat)
    requires InRange(leaves, indices) && j < |indices| && |leaves| <= U32_MAX + 1
    ensures var calls := CallsFor(leaves, indices);
            Replay(hp, k, calls).Query(calls[j].key) == Ok(calls[j].Entry(hp, k))
  {
    AnchoredAnswers(hp, k, leaves, indices, j);
    AnsweredAsQueried(leaves, indices);
    assert AnsweringCall(leaves, indices, j).index == Answered(leaves, indices)[j];
  }
}
