/** The proof store: proofs cut into shards, the labels published at the cut, and the two verifiers. */
module ProofStore {
  import opened Wrappers
  import opened Arithmetic
  import opened Bsv
  import opened MerkleTree
  import opened MerkleLaws
  import opened Merkle

  datatype ProofStoreError =
    | MerkleFailed(error: MerkleError)
    | KeyNotFound
    | StoredRootMismatch
    | TrustedOperationalNotImplemented
    | AssistanceMismatch

  datatype Direction = Input | Output

  datatype IndexKey = IndexKey(
    txid: Hash,
    direction: Direction,
    position: u32,
    blockPosition: u32,
    lockingScript: Option<Bytes>,
    unlockingScript: Option<Bytes>,
    amount: Option<u64>)

  datatype ReconstructionMode = Adversarial | TrustedOperational

  /** The siblings of the levels `fromLevel .. toLevel`. */
  datatype ProofShard = ProofShard(fromLevel: nat, toLevel: nat, siblings: seq<Hash>)

  datatype ProofAssistance = ProofAssistance(predeterminedLevel: nat, nodeLabels: seq<Hash>)

  datatype StoredProof = StoredProof(key: IndexKey, leafIndex: nat, shards: seq<ProofShard>, expectedRoot: Hash) {

    /** The proof the shards make up. */
    function Reassembled(): MerkleProof<Hash> {
      MerkleProof(leafIndex, Concatenated(shards))
    }

    method Reassemble() returns (p: MerkleProof<Hash>)
      ensures p == Reassembled()
    {
      var siblings: seq<Hash> := [];
      for i := 0 to |shards|
        invariant siblings == Concatenated(shards[..i])
      {
        assert shards[..i + 1][..i] == shards[..i];
        siblings := siblings + shards[i].siblings;
      }
      assert shards[..|shards|] == shards;
      return MerkleProof(leafIndex, siblings);
    }
  }

  function Concatenated(shards: seq<ProofShard>): seq<Hash> {
    if shards == [] then []
    else Concatenated(shards[..|shards| - 1]) + shards[|shards| - 1].siblings
  }

  /** The siblings of the first shard that starts at the leaves; none if there is no such shard. */
  function LowerSiblings(shards: seq<ProofShard>): seq<Hash> {
    if shards == [] then []
    else if shards[0].fromLevel == 0 then shards[0].siblings
    else LowerSiblings(shards[1..])
  }

  /** Cut a proof at level `k`; empty shards are left out. */
  function ShardProof(proof: MerkleProof<Hash>, predeterminedLevel: nat): seq<ProofShard> {
    var depth := |proof.siblings|;
    var k := Min(predeterminedLevel, depth);
    (if 0 < k then [ProofShard(0, k, proof.siblings[..k])] else [])
    + (if k < depth then [ProofShard(k, depth, proof.siblings[k..])] else [])
  }

  /** The level at which labels are published: `k`, or the root when the tree is shallower. */
  function PublishedLevel(leaves: seq<Hash>, k: nat): nat {
    Min(k, Depth(leaves))
  }

  /** What `compute_proof_assistance` publishes. */
  function AssistanceOf(hp: PairHash<Hash>, leaves: seq<Hash>, k: nat): ProofAssistance
    requires |leaves| > 0
  {
    ProofAssistance(PublishedLevel(leaves, k), Level(hp, leaves, PublishedLevel(leaves, k)))
  }

  method ComputeProofAssistance(hp: PairHash<Hash>, leaves: seq<Hash>, targetLevel: nat)
    returns (r: Result<ProofAssistance, ProofStoreError>)
    ensures r == if leaves == [] then Err(MerkleFailed(EmptyTree)) else Ok(AssistanceOf(hp, leaves, targetLevel))
  {
    if |leaves| == 0 {
      return Err(MerkleFailed(EmptyTree));
    }
    var level := leaves;
    var currentLevel := 0;
    ghost var m := PublishedLevel(leaves, targetLevel);
    while currentLevel < targetLevel && |level| > 1
      invariant |level| > 0 && currentLevel <= m
      invariant Depth(level) == Depth(leaves) - currentLevel
      invariant Level(hp, level, m - currentLevel) == Level(hp, leaves, m)
      decreases targetLevel - currentLevel
    {
      RootOverParents(hp, level);
      var padded := level;
      if |padded| % 2 == 1 {
        padded := padded + [padded[|padded| - 1]];
      }
      level := FoldPairs(hp, level, padded);
      currentLevel := currentLevel + 1;
    }
    return Ok(ProofAssistance(currentLevel, level));
  }

  /** The verdict of the full verifier. */
  function AdversarialVerdict(hp: PairHash<Hash>, leaf: Hash, stored: StoredProof, mode: ReconstructionMode)
    : Result<Unit, ProofStoreError>
  {
    if mode.TrustedOperational? then Err(TrustedOperationalNotImplemented)
    else if Walk(hp, leaf, stored.leafIndex, Concatenated(stored.shards)) == stored.expectedRoot then Ok(Unit)
    else Err(StoredRootMismatch)
  }

  /** The lower siblings the assisted verifier consumes: at most as many as the published level. */
  function WalkedSiblings(assistance: ProofAssistance, shards: seq<ProofShard>): seq<Hash> {
    var lower := LowerSiblings(shards);
    lower[..Min(assistance.predeterminedLevel, |lower|)]
  }

  /** The verdict of the assisted verifier. */
  function AssistedVerdict(hp: PairHash<Hash>, published: map<Hash, ProofAssistance>, leaf: Hash, stored: StoredProof)
    : Result<Unit, ProofStoreError>
  {
    if stored.expectedRoot !in published then Err(KeyNotFound)
    else
      var assistance := published[stored.expectedRoot];
      var labels, walked := assistance.nodeLabels, WalkedSiblings(assistance, stored.shards);
      var idx := Shift(stored.leafIndex, |walked|);
      if idx < |labels| && labels[idx] == Walk(hp, leaf, stored.leafIndex, walked)
         && Root(hp, labels) == stored.expectedRoot then Ok(Unit)
      else Err(AssistanceMismatch)
  }

  /** One call of `anchor`. */
  datatype AnchorCall = AnchorCall(key: IndexKey, leaves: seq<Hash>, index: nat) {

    predicate Succeeds() {
      index < |leaves|
    }

    function Root(hp: PairHash<Hash>): Hash
      requires Succeeds()
    {
      MerkleTree.Root(hp, leaves)
    }

    /** The leaf this call anchors. */
    function Leaf(): Hash
      requires Succeeds()
    {
      leaves[index]
    }

    /** The entry this call stores. */
    function Entry(hp: PairHash<Hash>, k: nat): StoredProof
      requires Succeeds()
    {
      StoredProof(key, index, ShardProof(MerkleProof(index, Siblings(hp, leaves, index)), k), Root(hp))
    }
  }

  /** The two maps of a store. */
  datatype Contents = Contents(storage: map<IndexKey, StoredProof>, assistance: map<Hash, ProofAssistance>) {

    /** A successful call writes one entry and the assistance of its root; a failed one writes nothing. */
    function AfterAnchor(hp: PairHash<Hash>, k: nat, call: AnchorCall): Contents {
      if call.Succeeds() then
        Contents(storage[call.key := call.Entry(hp, k)], assistance[call.Root(hp) := AssistanceOf(hp, call.leaves, k)])
      else this
    }

    function Query(key: IndexKey): Result<StoredProof, ProofStoreError> {
      if key in storage then Ok(storage[key]) else Err(KeyNotFound)
    }
  }

  class ProofStore {
    const hp: PairHash<Hash>
    const predeterminedLevel: nat
    var storage: map<IndexKey, StoredProof>
    var assistanceByRoot: map<Hash, ProofAssistance>

    function State(): Contents
      reads this
    {
      Contents(storage, assistanceByRoot)
    }

    constructor (hp: PairHash<Hash>, predeterminedLevel: nat)
      ensures this.hp == hp && this.predeterminedLevel == predeterminedLevel
      ensures State() == Contents(map[], map[])
    {
      this.hp := hp;
      this.predeterminedLevel := predeterminedLevel;
      storage := map[];
      assistanceByRoot := map[];
    }

    method Anchor(key: IndexKey, leaves: seq<Hash>, leafIndex: nat) returns (r: Result<Hash, ProofStoreError>)
      modifies this
      ensures r == Err(MerkleFailed(EmptyTree)) <==> leaves == []
      ensures r == Err(MerkleFailed(IndexOutOfRange(leafIndex, |leaves|))) <==> leaves != [] && leafIndex >= |leaves|
      ensures r.Ok? <==> leafIndex < |leaves|
      ensures r.Ok? ==>
                && r.value == MerkleTree.Root(hp, leaves)
                && key in storage && storage[key].key == key && storage[key].leafIndex == leafIndex
                && storage[key].expectedRoot == r.value && r.value in assistanceByRoot
      ensures r.Ok? ==> storage == old(storage)[key := storage[key]]
      ensures r.Ok? ==> assistanceByRoot == old(assistanceByRoot)[r.value := assistanceByRoot[r.value]]
      ensures r.Err? ==> storage == old(storage) && assistanceByRoot == old(assistanceByRoot)
      ensures State() == old(State()).AfterAnchor(hp, predeterminedLevel, AnchorCall(key, leaves, leafIndex))
    {
      var root := MerkleRoot(hp, leaves);
      if root.Err? {
        return Err(MerkleFailed(root.error));
      }
      var proof := GenerateProof(hp, leaves, leafIndex);
      if proof.Err? {
        return Err(MerkleFailed(proof.error));
      }
      var shards := ShardProof(proof.value, predeterminedLevel);
      storage := storage[key := StoredProof(key, leafIndex, shards, root.value)];
      var assistance := ComputeProofAssistance(hp, leaves, predeterminedLevel);
      assert assistance.Ok?;  // the early return of the source is dead here: the leaves are not empty
      assistanceByRoot := assistanceByRoot[root.value := assistance.value];
      return Ok(root.value);
    }

    method Query(key: IndexKey) returns (r: Result<StoredProof, ProofStoreError>)
      ensures r == State().Query(key)
      ensures r == if key in storage then Ok(storage[key]) else Err(KeyNotFound)
    {
      return if key in storage then Ok(storage[key]) else Err(KeyNotFound);
    }

    method ProofAssistanceFor(root: Hash) returns (r: Option<ProofAssistance>)
      ensures r == if root in State().assistance then Some(State().assistance[root]) else None
    {
      return if root in assistanceByRoot then Some(assistanceByRoot[root]) else None;
    }

    method Verify(leaf: Hash, stored: StoredProof, mode: ReconstructionMode) returns (r: Result<Unit, ProofStoreError>)
      ensures r == AdversarialVerdict(hp, leaf, stored, mode)
      ensures r == Err(TrustedOperationalNotImplemented) <==> mode == TrustedOperational
      ensures mode == Adversarial ==>
                r == if Walk(hp, leaf, stored.leafIndex, Concatenated(stored.shards)) == stored.expectedRoot
                     then Ok(Unit) else Err(StoredRootMismatch)
    {
      match mode
      case Adversarial =>
        var reassembled := stored.Reassemble();
        var reconstructed := reassembled.ReconstructRoot(hp, leaf);
        return if reconstructed == stored.expectedRoot then Ok(Unit) else Err(StoredRootMismatch);
      case TrustedOperational =>
        return Err(TrustedOperationalNotImplemented);
    }

    method VerifyWithAssistance(leaf: Hash, stored: StoredProof) returns (r: Result<Unit, ProofStoreError>)
      ensures r == AssistedVerdict(hp, State().assistance, leaf, stored)
      ensures r == Err(KeyNotFound) <==> stored.expectedRoot !in assistanceByRoot
      ensures r.Err? ==> r.error == KeyNotFound || r.error == AssistanceMismatch
      ensures stored.expectedRoot in assistanceByRoot ==>
                var assistance, lower := assistanceByRoot[stored.expectedRoot], LowerSiblings(stored.shards);
                var labels, steps := assistance.nodeLabels, Min(assistance.predeterminedLevel, |lower|);
                var idx := Shift(stored.leafIndex, steps);
                r == Ok(Unit) <==>
                  && idx < |labels|
                  && labels[idx] == Walk(hp, leaf, stored.leafIndex, lower[..steps])
                  && MerkleTree.Root(hp, labels) == stored.expectedRoot
    {
      var found := ProofAssistanceFor(stored.expectedRoot);
      if found.None? {
        return Err(KeyNotFound);
      }
      var assistance := found.value;
      var lower := LowerSiblings(stored.shards);
      var k := Min(assistance.predeterminedLevel, |lower|);
      ghost var walked := WalkedSiblings(assistance, stored.shards);
      var current := leaf;
      var idx: nat := stored.leafIndex;
      for i := 0 to k
        invariant Walk(hp, leaf, stored.leafIndex, walked) == Walk(hp, current, idx, walked[i..])
        invariant Shift(stored.leafIndex, k) == Shift(idx, k - i)
      {
        assert walked[i..][1..] == walked[i + 1..] && walked[i] == lower[i];
        current := if idx % 2 == 0 then hp(current, lower[i]) else hp(lower[i], current);
        idx := idx / 2;
      }
      if idx >= |assistance.nodeLabels| {
        return Err(AssistanceMismatch);
      }
      if assistance.nodeLabels[idx] != current {
        return Err(AssistanceMismatch);
      }
      var labelsRoot := MerkleRoot(hp, assistance.nodeLabels);
      assert labelsRoot.Ok?;  // dead early return: there is a label at `idx`
      if labelsRoot.value != stored.expectedRoot {
        return Err(AssistanceMismatch);
      }
      return Ok(Unit);
    }
  }
}
