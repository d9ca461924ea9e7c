/** One entry of the store: what sharding keeps, what each verifier's acceptance means, how they agree. */
module StoreLaws {
  import opened Wrappers
  import opened Arithmetic
  import opened Bsv
  import opened MerkleTree
  import opened MerkleLaws
  import opened Merkle
  import opened ProofStore

  // ---------------------------------------------------------------- sharding

  /** Shards are non-empty, start at the leaves, abut, end at the root and concatenate to the proof. */
  lemma ShardsCoverProof(proof: MerkleProof<Hash>, k: nat)
    ensures var shards := ShardProof(proof, k);
            && Concatenated(shards) == proof.siblings
            && (forall i :: 0 <= i < |shards| ==>
                  && shards[i].fromLevel < shards[i].toLevel
                  && |shards[i].siblings| == shards[i].toLevel - shards[i].fromLevel)
            && (forall i :: 0 < i < |shards| ==> shards[i - 1].toLevel == shards[i].fromLevel)
            && (proof.siblings == [] <==> shards == [])
            && (shards != [] ==> shards[0].fromLevel == 0 && shards[|shards| - 1].toLevel == |proof.siblings|)
  {
    var shards, s := ShardProof(proof, k), proof.siblings;
    var m := Min(k, |s|);
    assert s == s[..m] + s[m..];
    if |shards| > 0 {
      ConcatenatedOne(shards[0]);
    }
    if |shards| == 2 {
      assert shards == [shards[0]] + [shards[1]];
      assert Concatenated(shards) == Concatenated(shards[..1]) + shards[1].siblings;
      assert shards[..1] == [shards[0]];
    }
  }

  /** The cut is at `k` when that is inside the proof; otherwise there is none. */
  lemma ShardsCutAtLevel(proof: MerkleProof<Hash>, k: nat)
    ensures var shards := ShardProof(proof, k);
            && (|shards| == 2 <==> 0 < k < |proof.siblings|)
            && (|shards| == 2 ==>
                  shards[0].siblings == proof.siblings[..k] && shards[1].siblings == proof.siblings[k..])
  {
  }

  lemma ConcatenatedOne(shard: ProofShard)
    ensures Concatenated([shard]) == shard.siblings
  {
    assert [shard][..0] == [];
    assert Concatenated([]) + shard.siblings == shard.siblings;
  }

  /** Concatenation of any shards is piecewise. */
  lemma {:induction false} ConcatenatedAppend(a: seq<ProofShard>, b: seq<ProofShard>)
    ensures Concatenated(a + b) == Concatenated(a) + Concatenated(b)
    decreases |b|
  {
    if b == [] {
      assert a + b == a;
    } else {
      assert (a + b)[..|a + b| - 1] == a + b[..|b| - 1];
      ConcatenatedAppend(a, b[..|b| - 1]);
    }
  }

  /** The lower siblings are those of the first shard that starts at the leaves. */
  lemma {:induction false} LowerSiblingsAreFirst(shards: seq<ProofShard>, i: nat)
    requires i <= |shards| && forall j :: 0 <= j < i ==> shards[j].fromLevel != 0
    ensures i == |shards| ==> LowerSiblings(shards) == []
    ensures i < |shards| && shards[i].fromLevel == 0 ==> LowerSiblings(shards) == shards[i].siblings
    decreases |shards|
  {
    if i > 0 {
      LowerSiblingsAreFirst(shards[1..], i - 1);
    }
  }

  /** The stored entry of a call reassembles to the honest proof and its leaf passes the full verifier. */
  lemma EntryIsHonest(hp: PairHash<Hash>, k: nat, call: AnchorCall)
    requires call.Succeeds()
    ensures call.Entry(hp, k).Reassembled() == MerkleProof(call.index, Siblings(hp, call.leaves, call.index))
    ensures AdversarialVerdict(hp, call.Leaf(), call.Entry(hp, k), Adversarial) == Ok(Unit)
  {
    ShardsCoverProof(MerkleProof(call.index, Siblings(hp, call.leaves, call.index)), k);
    ProofComplete(hp, call.leaves, call.index);
  }

  // ---------------------------------------------------------------- the full verifier

  /** Full acceptance of any stored data whose shards are no longer than the tree under its root is deep: the
      leaf is a label of the level they start from, a leaf of the tree if they are of full length, or a
      collision is extracted. */
  lemma AdversarialSound(hp: PairHash<Hash>, leaves: seq<Hash>, leaf: Hash, stored: StoredProof)
    requires |leaves| > 0 && stored.expectedRoot == Root(hp, leaves)
    requires |Concatenated(stored.shards)| <= Depth(leaves)
    requires AdversarialVerdict(hp, leaf, stored, Adversarial) == Ok(Unit)
    ensures ProvesLabel(hp, leaves, stored.leafIndex, leaf, Concatenated(stored.shards))
  {
    ShortProofSound(hp, leaves, stored.leafIndex, leaf, Concatenated(stored.shards));
  }

  /** The pairs given away when a wrong leaf passes the full verifier against the entry of `call`. */
  function EntryCollision(hp: PairHash<Hash>, call: AnchorCall, leaf: Hash): Option<(Children<Hash>, Children<Hash>)>
    requires call.Succeeds()
  {
    ForgeryCollision(hp, call.leaves, call.index, leaf, Siblings(hp, call.leaves, call.index))
  }

  /** Against an anchored entry the full verifier accepts the anchored leaf and, short of an extracted
      collision, nothing else. */
  lemma EntryAcceptsItsLeafOnly(hp: PairHash<Hash>, k: nat, call: AnchorCall, leaf: Hash)
    requires call.Succeeds()
    ensures leaf == call.Leaf() ==> AdversarialVerdict(hp, leaf, call.Entry(hp, k), Adversarial) == Ok(Unit)
    ensures AdversarialVerdict(hp, leaf, call.Entry(hp, k), Adversarial) == Ok(Unit) ==>
              leaf == call.Leaf() || Collision(hp, EntryCollision(hp, call, leaf))
  {
    EntryIsHonest(hp, k, call);
    if AdversarialVerdict(hp, leaf, call.Entry(hp, k), Adversarial) == Ok(Unit) {
      ProofSoundInRange(hp, call.leaves, call.index, leaf, Siblings(hp, call.leaves, call.index));
    }
  }

  // ---------------------------------------------------------------- published assistance

  /** Published labels: the level reached, how many, what each one is, and that they hash to the root. */
  lemma AssistanceIsCut(hp: PairHash<Hash>, leaves: seq<Hash>, k: nat)
    requires |leaves| > 0
    ensures var a, m := AssistanceOf(hp, leaves, k), Min(k, Depth(leaves));
            && a.predeterminedLevel == m
            && |a.nodeLabels| == CeilDiv(|leaves|, Pow2(m))
            && (forall j :: 0 <= j < |a.nodeLabels| ==> LabelsBlock(hp, leaves, m, j, a.nodeLabels[j]))
            && Depth(a.nodeLabels) == Depth(leaves) - m
            && Root(hp, a.nodeLabels) == Root(hp, leaves)
  {
    var m := Min(k, Depth(leaves));
    LevelWidth(hp, leaves, m);
    RootOverLevel(hp, leaves, m);
    forall j | 0 <= j < |Level(hp, leaves, m)| ensures LabelsBlock(hp, leaves, m, j, Level(hp, leaves, m)[j]) {
      LevelLabel(hp, leaves, m, j);
    }
  }

  // ---------------------------------------------------------------- the assisted verifier

  /** The proof that an assisted acceptance amounts to: the lower siblings walked, then the labels' own path. */
  function CompletedProof(hp: PairHash<Hash>, assistance: ProofAssistance, stored: StoredProof): MerkleProof<Hash>
    requires Shift(stored.leafIndex, |WalkedSiblings(assistance, stored.shards)|) < |assistance.nodeLabels|
  {
    var walked := WalkedSiblings(assistance, stored.shards);
    MerkleProof(stored.leafIndex, walked + Siblings(hp, assistance.nodeLabels, Shift(stored.leafIndex, |walked|)))
  }

  /** Assisted acceptance of untrusted data against untrusted labels is a full proof from the leaf to the
      expected root, with the same leaf index. No assumption on the hash. */
  lemma AssistedGivesProof(hp: PairHash<Hash>, published: map<Hash, ProofAssistance>, leaf: Hash, stored: StoredProof)
    requires AssistedVerdict(hp, published, leaf, stored) == Ok(Unit)
    ensures stored.expectedRoot in published
    ensures var assistance := published[stored.expectedRoot];
            && Shift(stored.leafIndex, |WalkedSiblings(assistance, stored.shards)|) < |assistance.nodeLabels|
            && var proof := CompletedProof(hp, assistance, stored);
               && proof.leafIndex == stored.leafIndex
               && Walk(hp, leaf, proof.leafIndex, proof.siblings) == stored.expectedRoot
  {
    var assistance := published[stored.expectedRoot];
    var walked := WalkedSiblings(assistance, stored.shards);
    var idx := Shift(stored.leafIndex, |walked|);
    ProofComplete(hp, assistance.nodeLabels, idx);
    WalkAppend(hp, leaf, stored.leafIndex, walked, Siblings(hp, assistance.nodeLabels, idx));
  }

  /** Forged shards and forged labels under the root of a real tree: if together they are no longer than the
      tree is deep, an accepted leaf is a label of the level they start from, a leaf of the tree if they are
      of full length, or a collision is extracted; and the labels are those of the tree at that depth, or a
      collision is extracted. */
  lemma AssistedSound(hp: PairHash<Hash>, published: map<Hash, ProofAssistance>, leaves: seq<Hash>, leaf: Hash,
                      stored: StoredProof)
    requires |leaves| > 0 && stored.expectedRoot == Root(hp, leaves)
    requires AssistedVerdict(hp, published, leaf, stored) == Ok(Unit)
    requires var assistance := published[stored.expectedRoot];
             |WalkedSiblings(assistance, stored.shards)| + Depth(assistance.nodeLabels) <= Depth(leaves)
    ensures Shift(stored.leafIndex, |WalkedSiblings(published[stored.expectedRoot], stored.shards)|)
            < |published[stored.expectedRoot].nodeLabels|
    ensures var s := CompletedProof(hp, published[stored.expectedRoot], stored).siblings;
            |s| <= Depth(leaves) && ProvesLabel(hp, leaves, stored.leafIndex, leaf, s)
    ensures BindsLabels(hp, leaves, published[stored.expectedRoot].nodeLabels)
  {
    AssistedGivesProof(hp, published, leaf, stored);
    LabelsBind(hp, leaves, published[stored.expectedRoot].nodeLabels);
    var proof := CompletedProof(hp, published[stored.expectedRoot], stored);
    ShortProofSound(hp, leaves, stored.leafIndex, leaf, proof.siblings);
  }

  /** How high the assisted verifier climbs on an anchored entry before it compares labels. */
  function ClimbOf(k: nat, call: AnchorCall, other: seq<Hash>): nat {
    Min(k, Min(Depth(call.leaves), Depth(other)))
  }

  /** What the assisted verifier walks on an anchored entry: the siblings below the lower of the two cuts. */
  lemma EntryWalk(hp: PairHash<Hash>, k: nat, call: AnchorCall, other: seq<Hash>)
    requires call.Succeeds() && |other| > 0
    ensures WalkedSiblings(AssistanceOf(hp, other, k), call.Entry(hp, k).shards)
         == Siblings(hp, call.leaves, call.index)[..ClimbOf(k, call, other)]
  {
    var s := Siblings(hp, call.leaves, call.index);
    var shards := ShardProof(MerkleProof(call.index, s), k);
    if |s| == 0 {
      assert shards == [];
    } else {
      assert shards[0].fromLevel == 0 && LowerSiblings(shards) == shards[0].siblings;
    }
  }

  /** Any leaf accepted for an anchored entry against the assistance of a list with the same root that is no deeper:
      it is a label of the entry's tree as far above the leaves as that list is shallower. At equal depth it is
      the anchored leaf. Each up to an extracted collision. */
  lemma EntryAssistedSound(hp: PairHash<Hash>, k: nat, call: AnchorCall, other: seq<Hash>,
                           published: map<Hash, ProofAssistance>, leaf: Hash)
    requires call.Succeeds() && |other| > 0 && Depth(other) <= Depth(call.leaves)
    requires call.Root(hp) in published && published[call.Root(hp)] == AssistanceOf(hp, other, k)
    requires AssistedVerdict(hp, published, leaf, call.Entry(hp, k)) == Ok(Unit)
    ensures Shift(call.index, |WalkedSiblings(AssistanceOf(hp, other, k), call.Entry(hp, k).shards)|)
            < |AssistanceOf(hp, other, k).nodeLabels|
    ensures var s := CompletedProof(hp, AssistanceOf(hp, other, k), call.Entry(hp, k)).siblings;
            && |s| == Depth(other)
            && ProvesLabel(hp, call.leaves, call.index, leaf, s)
            && (Depth(other) == Depth(call.leaves) ==>
                  leaf == call.Leaf() || Collision(hp, ForgeryCollision(hp, call.leaves, call.index, leaf, s)))
  {
    EntryWalk(hp, k, call, other);
    AssistanceIsCut(hp, other, k);
    AssistedSound(hp, published, call.leaves, leaf, call.Entry(hp, k));
  }

  /** The condition under which assistance computed from `other` serves the entry of `call`: the label at the
      entry's shifted index exists and is the label its own tree has at the height walked. */
  predicate LabelsServe(hp: PairHash<Hash>, k: nat, call: AnchorCall, other: seq<Hash>)
    requires call.Succeeds() && |other| > 0
  {
    var walked := ClimbOf(k, call, other);
    var idx, labels := Shift(call.index, walked), AssistanceOf(hp, other, k).nodeLabels;
    idx < |labels| && labels[idx] == Node(hp, call.leaves, RoundDown(call.index, walked), walked)
  }

  /** Exactly when the assisted verifier accepts an anchored leaf against assistance published for another
      list under the same root. */
  lemma AssistedAcceptsIff(hp: PairHash<Hash>, k: nat, call: AnchorCall, other: seq<Hash>,
                           published: map<Hash, ProofAssistance>)
    requires call.Succeeds() && |other| > 0 && Root(hp, other) == call.Root(hp)
    requires call.Root(hp) in published && published[call.Root(hp)] == AssistanceOf(hp, other, k)
    ensures AssistedVerdict(hp, published, call.Leaf(), call.Entry(hp, k)) == Ok(Unit)
            <==> LabelsServe(hp, k, call, other)
  {
    var walked := ClimbOf(k, call, other);
    EntryWalk(hp, k, call, other);
    HonestWalk(hp, call.leaves, call.index, walked);
    AssistanceIsCut(hp, other, k);
  }

  /** Assistance of the entry's own list always serves. */
  lemma OwnLabelsServe(hp: PairHash<Hash>, k: nat, call: AnchorCall)
    requires call.Succeeds()
    ensures LabelsServe(hp, k, call, call.leaves)
  {
    var walked := PublishedLevel(call.leaves, k);
    PathOverLevel(hp, call.leaves, walked, call.index);
    HonestWalk(hp, call.leaves, call.index, walked);
  }

  /** At equal depth only lengths matter: assistance of a list with the same root serves the entry exactly when
      that list reaches the first leaf of the entry's block, or the pairs extracted from the two trees collide. */
  lemma LabelsServeByLength(hp: PairHash<Hash>, k: nat, call: AnchorCall, other: seq<Hash>)
    requires call.Succeeds() && |other| > 0 && Root(hp, other) == call.Root(hp) && Depth(other) == Depth(call.leaves)
    ensures LabelsServe(hp, k, call, other) ==> RoundDown(call.index, ClimbOf(k, call, other)) < |other|
    ensures RoundDown(call.index, ClimbOf(k, call, other)) < |other| ==>
              || LabelsServe(hp, k, call, other)
              || Collision(hp, NodeCollision(hp, call.leaves, 0, other, 0, Depth(other)))
  {
    var m := ClimbOf(k, call, other);
    var idx := Shift(call.index, m);
    RoundDownScales(call.index, m);
    LevelReaches(hp, other, m, idx);
    PathOverLevel(hp, call.leaves, m, call.index);
    LabelAbove(hp, call.leaves, call.index, m);
    if idx < |Level(hp, other, m)| {
      SharedLabels(hp, call.leaves, other, m, idx);
    }
  }

  // ---------------------------------------------------------------- the two verifiers agree

  /** With the entry's own assistance published, assisted acceptance implies full acceptance, and full
      acceptance implies assisted acceptance or an extracted collision. */
  lemma VerifiersAgree(hp: PairHash<Hash>, k: nat, call: AnchorCall, leaf: Hash, published: map<Hash, ProofAssistance>)
    requires call.Succeeds()
    requires call.Root(hp) in published && published[call.Root(hp)] == AssistanceOf(hp, call.leaves, k)
    ensures AssistedVerdict(hp, published, leaf, call.Entry(hp, k)) == Ok(Unit) ==>
              AdversarialVerdict(hp, leaf, call.Entry(hp, k), Adversarial) == Ok(Unit)
    ensures AdversarialVerdict(hp, leaf, call.Entry(hp, k), Adversarial) == Ok(Unit) ==>
              || AssistedVerdict(hp, published, leaf, call.Entry(hp, k)) == Ok(Unit)
              || Collision(hp, EntryCollision(hp, call, leaf))
  {
    var s, m := Siblings(hp, call.leaves, call.index), PublishedLevel(call.leaves, k);
    if AssistedVerdict(hp, published, leaf, call.Entry(hp, k)) == Ok(Unit) {
      AssistedGivesProof(hp, published, leaf, call.Entry(hp, k));
      EntryWalk(hp, k, call, call.leaves);
      PathOverLevel(hp, call.leaves, m, call.index);
      assert s == s[..m] + s[m..];
      EntryIsHonest(hp, k, call);
    }
    if AdversarialVerdict(hp, leaf, call.Entry(hp, k), Adversarial) == Ok(Unit) {
      EntryAcceptsItsLeafOnly(hp, k, call, leaf);
      OwnLabelsServe(hp, k, call);
      AssistedAcceptsIff(hp, k, call, call.leaves, published);
    }
  }

  /** The stored proof without its shards from level `k` on. */
  function WithoutUpper(stored: StoredProof, k: nat): StoredProof {
    stored.(shards := BelowLevel(stored.shards, k))
  }

  function BelowLevel(shards: seq<ProofShard>, k: nat): seq<ProofShard> {
    if shards == [] then []
    else (if shards[0].fromLevel < k then [shards[0]] else []) + BelowLevel(shards[1..], k)
  }

  lemma {:induction false} LowerSiblingsStay(shards: seq<ProofShard>, k: nat)
    requires k > 0
    ensures LowerSiblings(BelowLevel(shards, k)) == LowerSiblings(shards)
  {
    if shards != [] {
      LowerSiblingsStay(shards[1..], k);
      if shards[0].fromLevel < k {
        assert BelowLevel(shards, k)[1..] == BelowLevel(shards[1..], k);
      } else {
        assert BelowLevel(shards, k) == BelowLevel(shards[1..], k);
      }
    }
  }

  /** Upper shards are never consulted by the assisted verifier, whatever was stored and published, as long
      as the labels were published at level `k` or below. */
  lemma UpperShardsAreIdle(hp: PairHash<Hash>, published: map<Hash, ProofAssistance>, leaf: Hash, stored: StoredProof,
                           k: nat)
    requires stored.expectedRoot in published ==> published[stored.expectedRoot].predeterminedLevel <= k
    ensures AssistedVerdict(hp, published, leaf, WithoutUpper(stored, k))
         == AssistedVerdict(hp, published, leaf, stored)
  {
    if stored.expectedRoot in published {
      var assistance := published[stored.expectedRoot];
      if k > 0 {
        LowerSiblingsStay(stored.shards, k);
      } else {
        assert WalkedSiblings(assistance, stored.shards) == [];
        assert WalkedSiblings(assistance, BelowLevel(stored.shards, k)) == [];
      }
    }
  }
}
