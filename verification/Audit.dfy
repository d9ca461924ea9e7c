/** The audit call composed over the store: record digest, query, full verification. */
module Audit {
  import opened Wrappers
  import opened Bsv
  import opened MerkleTree
  import opened ProofStore
  import opened StoreLaws
  import opened StoreRuns

  datatype ApiError = ProofStoreFailed(error: ProofStoreError) | RecordLeafMismatch | NonAdversarialMode

  datatype AuditBundle = AuditBundle(indexKey: IndexKey, disclosedRecord: Bytes, leaf: Hash, mode: ReconstructionMode)

  datatype AuditEvidence = AuditEvidence(merkleRoot: Hash, leafIndex: nat, disclosedRecord: Bytes)

  /** The verdict on a bundle against given store contents. */
  function AuditVerdict(d: Digest, hp: PairHash<Hash>, contents: Contents, bundle: AuditBundle)
    : Result<AuditEvidence, ApiError>
  {
    if bundle.mode != Adversarial then Err(NonAdversarialMode)
    else if d(bundle.disclosedRecord) != bundle.leaf then Err(RecordLeafMismatch)
    else
      match contents.Query(bundle.indexKey)
      case Err(e) => Err(ProofStoreFailed(e))
      case Ok(stored) =>
        match AdversarialVerdict(hp, bundle.leaf, stored, Adversarial)
        case Err(e) => Err(ProofStoreFailed(e))
        case Ok(_) => Ok(AuditEvidence(stored.expectedRoot, stored.leafIndex, bundle.disclosedRecord))
  }

  class AuditVerifier {
    const store: ProofStore

    constructor (store: ProofStore)
      ensures this.store == store
    {
      this.store := store;
    }

    method Verify(d: Digest, bundle: AuditBundle) returns (r: Result<AuditEvidence, ApiError>)
      ensures r == AuditVerdict(d, store.hp, store.State(), bundle)
      ensures r == Err(NonAdversarialMode) <==> bundle.mode != Adversarial
      ensures r == Err(RecordLeafMismatch) <==>
                bundle.mode == Adversarial && d(bundle.disclosedRecord) != bundle.leaf
      ensures r == Err(ProofStoreFailed(KeyNotFound)) <==>
                && bundle.mode == Adversarial && d(bundle.disclosedRecord) == bundle.leaf
                && bundle.indexKey !in store.storage
      ensures r == Err(ProofStoreFailed(StoredRootMismatch)) <==>
                && bundle.mode == Adversarial && d(bundle.disclosedRecord) == bundle.leaf
                && bundle.indexKey in store.storage
                && var stored := store.storage[bundle.indexKey];
                   Walk(store.hp, bundle.leaf, stored.leafIndex, Concatenated(stored.shards)) != stored.expectedRoot
      ensures r.Ok? ==>
                && bundle.mode == Adversarial && d(bundle.disclosedRecord) == bundle.leaf
                && bundle.indexKey in store.storage
                && r.value == AuditEvidence(store.storage[bundle.indexKey].expectedRoot,
                                            store.storage[bundle.indexKey].leafIndex, bundle.disclosedRecord)
    {
      if bundle.mode != Adversarial {
        return Err(NonAdversarialMode);
      }
      if d(bundle.disclosedRecord) != bundle.leaf {
        return Err(RecordLeafMismatch);
      }
      var stored := store.Query(bundle.indexKey);
      if stored.Err? {
        return Err(ProofStoreFailed(stored.error));
      }
      var verdict := store.Verify(bundle.leaf, stored.value, Adversarial);
      if verdict.Err? {
        return Err(ProofStoreFailed(verdict.error));
      }
      return Ok(AuditEvidence(stored.value.expectedRoot, stored.value.leafIndex, bundle.disclosedRecord));
    }
  }

  /** After any run, exactly when each of the four errors is returned, and evidence exactly when none is due. */
  lemma AuditAfterRun(d: Digest, hp: PairHash<Hash>, k: nat, calls: seq<AnchorCall>, bundle: AuditBundle)
    ensures var r, last := AuditVerdict(d, hp, Replay(hp, k, calls), bundle), LastFor(calls, bundle.indexKey);
            var adversarial, matches := bundle.mode == Adversarial, d(bundle.disclosedRecord) == bundle.leaf;
            var proved := last.Some? &&
                          var c := last.value;
                          Walk(hp, bundle.leaf, c.index, Siblings(hp, c.leaves, c.index))
                          == MerkleTree.Root(hp, c.leaves);
            && (r == Err(NonAdversarialMode) <==> !adversarial)
            && (r == Err(RecordLeafMismatch) <==> adversarial && !matches)
            && (r == Err(ProofStoreFailed(KeyNotFound)) <==> adversarial && matches && last.None?)
            && (r == Err(ProofStoreFailed(StoredRootMismatch)) <==> adversarial && matches && last.Some? && !proved)
            && (r.Ok? <==> adversarial && matches && proved)
            && (r.Ok? ==> r.value == AuditEvidence(MerkleTree.Root(hp, last.value.leaves), last.value.index,
                                                   bundle.disclosedRecord))
  {
    RunInvariant(hp, k, calls, bundle.indexKey);
  }

  /** Evidence after any run names the root and index of the last successful anchor under the key, and the
      disclosed record hashes to the leaf anchored there, or two 64-byte blocks collide. */
  lemma EvidenceIsSound(d: Digest, k: nat, calls: seq<AnchorCall>, bundle: AuditBundle)
    requires AuditVerdict(d, PairHashOf(d), Replay(PairHashOf(d), k, calls), bundle).Ok?
    ensures bundle.mode == Adversarial && d(bundle.disclosedRecord) == bundle.leaf
    ensures LastFor(calls, bundle.indexKey).Some?
    ensures var hp, c := PairHashOf(d), LastFor(calls, bundle.indexKey).value;
            && AuditVerdict(d, hp, Replay(hp, k, calls), bundle).value
               == AuditEvidence(c.Root(hp), c.index, bundle.disclosedRecord)
            && (d(bundle.disclosedRecord) == c.Leaf() || BlocksCollide(d, EntryCollision(hp, c, bundle.leaf)))
  {
    var hp := PairHashOf(d);
    RunInvariant(hp, k, calls, bundle.indexKey);
    var c := LastFor(calls, bundle.indexKey).value;
    EntryAcceptsItsLeafOnly(hp, k, c, bundle.leaf);
    if d(bundle.disclosedRecord) != c.Leaf() {
      PairCollisionIsDigestCollision(d, EntryCollision(hp, c, bundle.leaf));
    }
  }

  /** So when the anchored leaf is the digest of a record, the disclosed bytes are that record, or one of two
      named pairs of byte strings is a collision of the digest. */
  lemma EvidenceIsTheRecord(d: Digest, k: nat, calls: seq<AnchorCall>, bundle: AuditBundle, record: Bytes)
    requires AuditVerdict(d, PairHashOf(d), Replay(PairHashOf(d), k, calls), bundle).Ok?
    requires LastFor(calls, bundle.indexKey).Some? ==> LastFor(calls, bundle.indexKey).value.Leaf() == d(record)
    ensures LastFor(calls, bundle.indexKey).Some?
    ensures || bundle.disclosedRecord == record
            || DigestCollision(d, bundle.disclosedRecord, record)
            || BlocksCollide(d, EntryCollision(PairHashOf(d), LastFor(calls, bundle.indexKey).value, bundle.leaf))
  {
    EvidenceIsSound(d, k, calls, bundle);
  }

  /** Conversely every record that hashes to the leaf last anchored under the key is accepted. */
  lemma EvidenceIsComplete(d: Digest, k: nat, calls: seq<AnchorCall>, key: IndexKey, record: Bytes)
    requires LastFor(calls, key).Some? && LastFor(calls, key).value.Leaf() == d(record)
    ensures var hp, c := PairHashOf(d), LastFor(calls, key).value;
            AuditVerdict(d, hp, Replay(hp, k, calls), AuditBundle(key, record, d(record), Adversarial))
            == Ok(AuditEvidence(c.Root(hp), c.index, record))
  {
    RunInvariant(PairHashOf(d), k, calls, key);
  }

  /** Anchors under other keys, and failed anchors, never change a verdict. */
  lemma {:induction false} OtherKeysDoNotMatter(d: Digest, hp: PairHash<Hash>, k: nat, calls: seq<AnchorCall>,
                                                more: seq<AnchorCall>, bundle: AuditBundle)
    requires forall c :: c in more ==> c.key != bundle.indexKey || !c.Succeeds()
    ensures AuditVerdict(d, hp, Replay(hp, k, calls + more), bundle)
         == AuditVerdict(d, hp, Replay(hp, k, calls), bundle)
    decreases |more|
  {
    if more == [] {
      assert calls + more == calls;
    } else {
      var n := |more| - 1;
      assert (calls + more)[..|calls + more| - 1] == calls + more[..n];
      assert (calls + more)[|calls + more| - 1] == more[n] && more[n] in more;
      OtherKeysDoNotMatter(d, hp, k, calls, more[..n], bundle);
    }
  }
}
