/** Every sequence of `anchor` calls: what the store then answers and which verifier accepts it. */
module StoreRuns {
  import opened Wrappers
  import opened Arithmetic
  import opened Bsv
  import opened MerkleTree
  import opened MerkleLaws
  import opened Merkle
  import opened ProofStore
  import opened StoreLaws

  const EMPTY: Contents := Contents(map[], map[])

  /** The contents after a run; failed calls are part of a run. */
  function Replay(hp: PairHash<Hash>, k: nat, calls: seq<AnchorCall>): Contents {
    if calls == [] then EMPTY
    else Replay(hp, k, calls[..|calls| - 1]).AfterAnchor(hp, k, calls[|calls| - 1])
  }

  /** The last successful call under a key. */
  function LastFor(calls: seq<AnchorCall>, key: IndexKey): (c: Option<AnchorCall>)
    ensures c.Some? ==> c.value.Succeeds() && c.value.key == key && c.value in calls
  {
    if calls == [] then None
    else
      var last := calls[|calls| - 1];
      if last.Succeeds() && last.key == key then Some(last) else LastFor(calls[..|calls| - 1], key)
  }

  /** The last successful call whose leaves have the given root. */
  function LastUnder(hp: PairHash<Hash>, calls: seq<AnchorCall>, root: Hash): (c: Option<AnchorCall>)
    ensures c.Some? ==> c.value.Succeeds() && c.value.Root(hp) == root && c.value in calls
  {
    if calls == [] then None
    else
      var last := calls[|calls| - 1];
      if last.Succeeds() && last.Root(hp) == root then Some(last) else LastUnder(hp, calls[..|calls| - 1], root)
  }

  /** Nothing that succeeds under the key after the last call does. */
  lemma {:induction false} LastForIsLatest(calls: seq<AnchorCall>, key: IndexKey, i: nat)
    requires i < |calls| && calls[i].Succeeds() && calls[i].key == key
    requires forall j :: i < j < |calls| ==> !(calls[j].Succeeds() && calls[j].key == key)
    ensures LastFor(calls, key) == Some(calls[i])
  {
    if i < |calls| - 1 {
      LastForIsLatest(calls[..|calls| - 1], key, i);
    }
  }

  /** A store driven through a run holds the replayed contents. */
  method Run(hp: PairHash<Hash>, k: nat, calls: seq<AnchorCall>) returns (store: ProofStore)
    ensures fresh(store) && store.hp == hp && store.predeterminedLevel == k
    ensures store.State() == Replay(hp, k, calls)
  {
    store := new ProofStore(hp, k);
    for i := 0 to |calls|
      invariant fresh(store) && store.hp == hp && store.predeterminedLevel == k
      invariant store.State() == Replay(hp, k, calls[..i])
    {
      assert calls[..i + 1][..i] == calls[..i];
      var _ := store.Anchor(calls[i].key, calls[i].leaves, calls[i].index);
      assert calls[i] == AnchorCall(calls[i].key, calls[i].leaves, calls[i].index);
    }
    assert calls[..|calls|] == calls;
  }

  // ---------------------------------------------------------------- the run invariant

  lemma {:induction false} StorageAfterRun(hp: PairHash<Hash>, k: nat, calls: seq<AnchorCall>, key: IndexKey)
    ensures Replay(hp, k, calls).Query(key)
         == match LastFor(calls, key)
            case None => Err(KeyNotFound)
            case Some(c) => Ok(c.Entry(hp, k))
  {
    if calls != [] {
      StorageAfterRun(hp, k, calls[..|calls| - 1], key);
    }
  }

  lemma {:induction false} AssistanceAfterRun(hp: PairHash<Hash>, k: nat, calls: seq<AnchorCall>, root: Hash)
    ensures var published, last := Replay(hp, k, calls).assistance, LastUnder(hp, calls, root);
            && (root in published <==> last.Some?)
            && (last.Some? ==> published[root] == AssistanceOf(hp, last.value.leaves, k))
  {
    if calls != [] {
      AssistanceAfterRun(hp, k, calls[..|calls| - 1], root);
    }
  }

  lemma {:induction false} LastUnderExists(hp: PairHash<Hash>, calls: seq<AnchorCall>, c: AnchorCall)
    requires c in calls && c.Succeeds()
    ensures LastUnder(hp, calls, c.Root(hp)).Some?
  {
    if c != calls[|calls| - 1] {
      assert c in calls[..|calls| - 1];
      LastUnderExists(hp, calls[..|calls| - 1], c);
    }
  }

  /** Nothing that succeeds with the root after the last such call does. */
  lemma {:induction false} LastUnderIsLatest(hp: PairHash<Hash>, calls: seq<AnchorCall>, root: Hash, i: nat)
    requires i < |calls| && calls[i].Succeeds() && calls[i].Root(hp) == root
    requires forall j :: i < j < |calls| ==> !(calls[j].Succeeds() && calls[j].Root(hp) == root)
    ensures LastUnder(hp, calls, root) == Some(calls[i])
  {
    if i < |calls| - 1 {
      LastUnderIsLatest(hp, calls[..|calls| - 1], root, i);
    }
  }

  /** After every run: a query answers the entry of the last successful call under the key; that entry
      reassembles to the honest proof, which passes the full verifier with the anchored leaf, and its root
      has assistance. */
  lemma RunInvariant(hp: PairHash<Hash>, k: nat, calls: seq<AnchorCall>, key: IndexKey)
    ensures LastFor(calls, key).None? ==> Replay(hp, k, calls).Query(key) == Err(KeyNotFound)
    ensures LastFor(calls, key).Some? ==>
              var c, stored := LastFor(calls, key).value, Replay(hp, k, calls).Query(key);
              && stored == Ok(c.Entry(hp, k))
              && stored.value.key == key && stored.value.expectedRoot == MerkleTree.Root(hp, c.leaves)
              && stored.value.Reassembled() == MerkleProof(c.index, Siblings(hp, c.leaves, c.index))
              && AdversarialVerdict(hp, c.Leaf(), stored.value, Adversarial) == Ok(Unit)
              && stored.value.expectedRoot in Replay(hp, k, calls).assistance
  {
    StorageAfterRun(hp, k, calls, key);
    if LastFor(calls, key).Some? {
      var c := LastFor(calls, key).value;
      EntryIsHonest(hp, k, c);
      LastUnderExists(hp, calls, c);
      AssistanceAfterRun(hp, k, calls, c.Root(hp));
    }
  }

  /** After every run: published labels hash to the root they are published under, and lie at the
      predetermined level or below. */
  lemma PublishedLabelsHashToRoot(hp: PairHash<Hash>, k: nat, calls: seq<AnchorCall>, root: Hash)
    requires root in Replay(hp, k, calls).assistance
    ensures var a := Replay(hp, k, calls).assistance[root];
            |a.nodeLabels| > 0 && Root(hp, a.nodeLabels) == root && a.predeterminedLevel <= k
  {
    AssistanceAfterRun(hp, k, calls, root);
    AssistanceIsCut(hp, LastUnder(hp, calls, root).value.leaves, k);
  }

  // ---------------------------------------------------------------- assisted acceptance over runs

  /** The assisted verdict on the anchored leaf of the entry stored under `key`. */
  function AssistedAfterRun(hp: PairHash<Hash>, k: nat, calls: seq<AnchorCall>, key: IndexKey)
    : Result<Unit, ProofStoreError>
    requires LastFor(calls, key).Some?
  {
    var c := LastFor(calls, key).value;
    AssistedVerdict(hp, Replay(hp, k, calls).assistance, c.Leaf(), c.Entry(hp, k))
  }

  /** Exactly when an anchored leaf passes the assisted verifier: the labels last published under its root,
      by whatever call, serve its entry. */
  lemma AssistedAfterRunIff(hp: PairHash<Hash>, k: nat, calls: seq<AnchorCall>, key: IndexKey)
    requires LastFor(calls, key).Some?
    ensures var c := LastFor(calls, key).value;
            && LastUnder(hp, calls, c.Root(hp)).Some?
            && (AssistedAfterRun(hp, k, calls, key) == Ok(Unit)
                <==> LabelsServe(hp, k, c, LastUnder(hp, calls, c.Root(hp)).value.leaves))
  {
    var c := LastFor(calls, key).value;
    LastUnderExists(hp, calls, c);
    AssistanceAfterRun(hp, k, calls, c.Root(hp));
    AssistedAcceptsIff(hp, k, c, LastUnder(hp, calls, c.Root(hp)).value.leaves, Replay(hp, k, calls).assistance);
  }

  /** The call that last published under the root of the entry stored under `key`. */
  function Publisher(hp: PairHash<Hash>, calls: seq<AnchorCall>, key: IndexKey): (p: AnchorCall)
    requires LastFor(calls, key).Some?
    ensures p.Succeeds() && p in calls && p.Root(hp) == LastFor(calls, key).value.Root(hp)
  {
    LastUnderExists(hp, calls, LastFor(calls, key).value);
    LastUnder(hp, calls, LastFor(calls, key).value.Root(hp)).value
  }

  /** When the list last published under the root is as deep as the entry's own, the assisted verifier accepts
      the anchored leaf, for every `k`, exactly when that list reaches the first leaf of the entry's block, or
      the pairs extracted from the two trees collide. A list of the same length always does. */
  lemma AssistedAfterRunAccepts(hp: PairHash<Hash>, k: nat, calls: seq<AnchorCall>, key: IndexKey)
    requires LastFor(calls, key).Some?
    requires Depth(Publisher(hp, calls, key).leaves) == Depth(LastFor(calls, key).value.leaves)
    ensures var c, p := LastFor(calls, key).value, Publisher(hp, calls, key);
            var first := RoundDown(c.index, Min(k, Depth(c.leaves)));
            && (AssistedAfterRun(hp, k, calls, key) == Ok(Unit) ==> first < |p.leaves|)
            && (first < |p.leaves| ==>
                  || AssistedAfterRun(hp, k, calls, key) == Ok(Unit)
                  || Collision(hp, NodeCollision(hp, c.leaves, 0, p.leaves, 0, Depth(c.leaves))))
            && (|p.leaves| == |c.leaves| ==> first < |p.leaves|)
  {
    var c, p := LastFor(calls, key).value, Publisher(hp, calls, key);
    AssistedAfterRunIff(hp, k, calls, key);
    LabelsServeByLength(hp, k, c, p.leaves);
  }

  /** Sharing the leaf list itself is enough without any collision clause. */
  lemma AssistedAfterRunSameLeaves(hp: PairHash<Hash>, k: nat, calls: seq<AnchorCall>, key: IndexKey)
    requires LastFor(calls, key).Some?
    requires var c := LastFor(calls, key).value;
             forall o :: o in calls && o.Succeeds() && o.Root(hp) == c.Root(hp) ==> o.leaves == c.leaves
    ensures AssistedAfterRun(hp, k, calls, key) == Ok(Unit)
  {
    AssistedAfterRunIff(hp, k, calls, key);
    OwnLabelsServe(hp, k, LastFor(calls, key).value);
  }

  /** Without that hypothesis it fails, whatever the hash: anchoring ABC after ABCC overwrites the labels of
      the common root, and position 3 of ABCC is no longer covered. */
  lemma AssistedAfterRunCanFail(hp: PairHash<Hash>, x: Hash, y: Hash, z: Hash, key: IndexKey, key': IndexKey)
    requires key != key'
    ensures var calls := [AnchorCall(key, [x, y, z, z], 3), AnchorCall(key', [x, y, z], 0)];
            && LastFor(calls, key) == Some(calls[0])
            && AssistedAfterRun(hp, 0, calls, key) == Err(AssistanceMismatch)
  {
    var long, short := [x, y, z, z], [x, y, z];
    var calls := [AnchorCall(key, long, 3), AnchorCall(key', short, 0)];
    assert calls[..1] == [calls[0]];
    assert LastFor(calls[..1], key) == Some(calls[0]);
    assert short + [short[2]] == long;
    RootIgnoresWrittenOutDuplicate(hp, short);
    assert LastUnder(hp, calls, Root(hp, long)) == Some(calls[1]);
    AssistedAfterRunIff(hp, 0, calls, key);
    assert AssistanceOf(hp, short, 0).nodeLabels == short;
  }

  // ---------------------------------------------------------------- other leaves over runs

  /** What the assisted verifier completes the entry under `key` to, with the labels last published under its root. */
  function CompletedAfterRun(hp: PairHash<Hash>, k: nat, calls: seq<AnchorCall>, key: IndexKey): MerkleProof<Hash>
    requires LastFor(calls, key).Some?
    requires var c, a := LastFor(calls, key).value, AssistanceOf(hp, Publisher(hp, calls, key).leaves, k);
             Shift(c.index, |WalkedSiblings(a, c.Entry(hp, k).shards)|) < |a.nodeLabels|
  {
    CompletedProof(hp, AssistanceOf(hp, Publisher(hp, calls, key).leaves, k), LastFor(calls, key).value.Entry(hp, k))
  }

  /** Whatever leaf the assisted verifier accepts for a stored entry after a run: when the list last published under
      the root is as deep as the entry's own it is the anchored leaf, and when that list is shallower it is a
      label of the entry's tree, as far above the leaves as the list is shallower; or a collision is extracted. */
  lemma AssistedAfterRunSound(hp: PairHash<Hash>, k: nat, calls: seq<AnchorCall>, key: IndexKey, leaf: Hash)
    requires LastFor(calls, key).Some?
    requires Depth(Publisher(hp, calls, key).leaves) <= Depth(LastFor(calls, key).value.leaves)
    requires var published, stored := Replay(hp, k, calls).assistance, LastFor(calls, key).value.Entry(hp, k);
             AssistedVerdict(hp, published, leaf, stored) == Ok(Unit)
    ensures var c, a := LastFor(calls, key).value, AssistanceOf(hp, Publisher(hp, calls, key).leaves, k);
            Shift(c.index, |WalkedSiblings(a, c.Entry(hp, k).shards)|) < |a.nodeLabels|
    ensures var c, p := LastFor(calls, key).value, Publisher(hp, calls, key);
            var s := CompletedAfterRun(hp, k, calls, key).siblings;
            && |s| == Depth(p.leaves)
            && ProvesLabel(hp, c.leaves, c.index, leaf, s)
            && (Depth(p.leaves) == Depth(c.leaves) ==>
                  leaf == c.Leaf() || Collision(hp, ForgeryCollision(hp, c.leaves, c.index, leaf, s)))
  {
    var c, p := LastFor(calls, key).value, Publisher(hp, calls, key);
    AssistanceAfterRun(hp, k, calls, c.Root(hp));
    EntryAssistedSound(hp, k, c, p.leaves, Replay(hp, k, calls).assistance, leaf);
  }

  /** With labels published at the leaves themselves: exactly the leaf that the list last published under the root has
      at the entry's index passes, whichever list that is. */
  lemma AssistedAfterRunAtLeaves(hp: PairHash<Hash>, calls: seq<AnchorCall>, key: IndexKey, leaf: Hash)
    requires LastFor(calls, key).Some?
    ensures var c, p := LastFor(calls, key).value, Publisher(hp, calls, key);
            AssistedVerdict(hp, Replay(hp, 0, calls).assistance, leaf, c.Entry(hp, 0)) == Ok(Unit)
            <==> c.index < |p.leaves| && leaf == p.leaves[c.index]
  {
    var c, p := LastFor(calls, key).value, Publisher(hp, calls, key);
    AssistanceAfterRun(hp, 0, calls, c.Root(hp));
    assert AssistanceOf(hp, p.leaves, 0) == ProofAssistance(0, p.leaves);
  }

  /** The shallower case happens, whatever the hash: anchoring the labels of any level of a list after the list
      itself makes the label at the entry's index pass as its leaf, with no forged data. */
  lemma InnerLabelPassesAfterRun(hp: PairHash<Hash>, leaves: seq<Hash>, h: nat, index: nat,
                                 key: IndexKey, key': IndexKey)
    requires |leaves| > 0 && h <= Depth(leaves) && key != key'
    requires index < |leaves| && index < |Level(hp, leaves, h)|
    ensures var labels := Level(hp, leaves, h);
            var calls := [AnchorCall(key, leaves, index), AnchorCall(key', labels, 0)];
            && LastFor(calls, key) == Some(calls[0])
            && AssistedVerdict(hp, Replay(hp, 0, calls).assistance, labels[index], calls[0].Entry(hp, 0)) == Ok(Unit)
  {
    var labels := Level(hp, leaves, h);
    var calls := [AnchorCall(key, leaves, index), AnchorCall(key', labels, 0)];
    assert calls[..1] == [calls[0]];
    assert LastFor(calls[..1], key) == Some(calls[0]);
    RootOverLevel(hp, leaves, h);
    assert LastUnder(hp, calls, Root(hp, leaves)) == Some(calls[1]);
    AssistedAfterRunAtLeaves(hp, calls, key, labels[index]);
  }
}
