/** The six injected faults and when each one is detected. */
module Faults {
  import opened Wrappers
  import opened Sums
  import opened Bsv
  import opened MerkleTree
  import opened MerkleLaws
  import opened Merkle
  import opened ProofStore
  import opened StoreLaws
  import opened StoreRuns
  import opened AnchorAll
  import opened RollForward

  datatype FaultClass = FaultClass(name: string, injected: nat, detected: nat, missed: nat, falsePositivesClean: nat)

  function Fault(name: string, detected: bool, clean: bool): FaultClass {
    FaultClass(name, 1, if detected then 1 else 0, if detected then 0 else 1, if clean then 0 else 1)
  }

  /** `wrong[0] ^= 1` on a leaf. */
  function FlipLowBit(h: Hash): Hash {
    Hash([XorOne(h.bytes[0])] + h.bytes[1..])
  }

  function XorOne(b: byte): byte {
    if b % 2 == 0 then b + 1 else b - 1
  }

  /** The root that starts with 0xff and is zero otherwise. */
  function BadRoot(): Hash {
    Hash(seq(32, j => if j == 0 then 0xff else 0))
  }

  /** The first record with its value incremented, wrapping. */
  function WithFirstAltered(records: seq<AccountingRecord>): seq<AccountingRecord>
    requires |records| > 0
  {
    records[0 := records[0].(value := WrappingAdd(records[0].value, 1))]
  }

  /** A walk that should have failed. */
  predicate Rejects(hp: PairHash<Hash>, leaf: Hash, index: nat, siblings: seq<Hash>, root: Hash) {
    Walk(hp, leaf, index, siblings) != root
  }

  /** The report on given store contents: three faults in the population, up to three in the evidence. */
  function Report(hp: PairHash<Hash>, records: seq<AccountingRecord>, summary: PopulationSummary, leaves: seq<Hash>,
                  contents: Contents, indices: seq<nat>): Result<seq<FaultClass>, ProofStoreError>
    requires |records| > 0 && InRange(leaves, indices)
  {
    match EvidenceReport(hp, leaves, contents, indices)
    case Err(e) => Err(e)
    case Ok(faults) => Ok(PopulationFaults(records, summary) + faults)
  }

  function EvidenceReport(hp: PairHash<Hash>, leaves: seq<Hash>, contents: Contents, indices: seq<nat>)
    : Result<seq<FaultClass>, ProofStoreError>
    requires InRange(leaves, indices)
  {
    if indices == [] then Ok([])
    else
      match contents.Query(KeyFor(indices[0], leaves[indices[0]]))
      case Err(e) => Err(e)
      case Ok(stored) => Ok(EvidenceFaults(hp, leaves, stored, indices))
  }

  function PopulationFaults(records: seq<AccountingRecord>, summary: PopulationSummary): seq<FaultClass>
    requires |records| > 0
  {
    [Fault("altered_record_value", !Holds(WithFirstAltered(records), summary), Holds(records, summary)),
     Fault("omitted_record", !Holds(Without(records, 0), summary), Holds(records, summary)),
     Fault("duplicated_record", !Holds(records + [records[0]], summary), Holds(records, summary))]
  }

  function EvidenceFaults(hp: PairHash<Hash>, leaves: seq<Hash>, stored: StoredProof, indices: seq<nat>)
    : seq<FaultClass>
    requires |indices| > 0 && InRange(leaves, indices)
  {
    if |indices| == 1 then [TamperedLeaf(hp, leaves, stored, indices[0]), WrongRoot(hp, leaves, indices[0])]
    else [TamperedLeaf(hp, leaves, stored, indices[0]), WrongIndex(hp, leaves, indices[0], indices[1]),
          WrongRoot(hp, leaves, indices[0])]
  }

  function TamperedLeaf(hp: PairHash<Hash>, leaves: seq<Hash>, stored: StoredProof, i: nat): FaultClass
    requires i < |leaves|
  {
    Fault("tampered_merkle_leaf", AdversarialVerdict(hp, FlipLowBit(leaves[i]), stored, Adversarial).Err?, true)
  }

  function WrongIndex(hp: PairHash<Hash>, leaves: seq<Hash>, i: nat, j: nat): FaultClass
    requires i < |leaves|
  {
    Fault("wrong_index", Rejects(hp, leaves[i], j, Siblings(hp, leaves, i), Root(hp, leaves)), true)
  }

  function WrongRoot(hp: PairHash<Hash>, leaves: seq<Hash>, i: nat): FaultClass
    requires i < |leaves|
  {
    Fault("wrong_root", Rejects(hp, leaves[i], i, Siblings(hp, leaves, i), BadRoot()), true)
  }

  method RunFaultInjection(records: seq<AccountingRecord>, summary: PopulationSummary, leaves: seq<Hash>,
                           store: ProofStore, indices: seq<nat>)
    returns (r: Result<seq<FaultClass>, ProofStoreError>)
    requires |records| > 0 && InRange(leaves, indices)
    ensures r == Report(store.hp, records, summary, leaves, store.State(), indices)
    ensures r == Err(KeyNotFound) <==>
              indices != [] && KeyFor(indices[0], leaves[indices[0]]) !in store.storage
    ensures r.Ok? <==> indices == [] || KeyFor(indices[0], leaves[indices[0]]) in store.storage
    ensures r.Ok? ==>
              && |r.value| >= 3 && r.value[..3] == PopulationFaults(records, summary)
              && (indices == [] ==> r.value[3..] == [])
              && (indices != [] ==>
                    var stored := store.storage[KeyFor(indices[0], leaves[indices[0]])];
                    r.value[3..] == EvidenceFaults(store.hp, leaves, stored, indices))
  {
    var out := InjectIntoPopulation(records, summary);
    var evidence :- InjectIntoEvidence(leaves, store, indices);
    return Ok(out + evidence);
  }

  /** Fault classes 1 to 3. */
  method InjectIntoPopulation(records: seq<AccountingRecord>, summary: PopulationSummary) returns (out: seq<FaultClass>)
    requires |records| > 0
    ensures out == PopulationFaults(records, summary)
  {
    var clean := RollForwardHolds(records, summary);

    var copy := records;
    copy := copy[0 := copy[0].(value := WrappingAdd(copy[0].value, 1))];
    var altered := RollForwardHolds(copy, summary);

    copy := records;
    copy := copy[1..];
    assert copy == Without(records, 0);
    var omitted := RollForwardHolds(copy, summary);

    copy := records;
    copy := copy + [copy[0]];
    var duplicated := RollForwardHolds(copy, summary);

    out := [Fault("altered_record_value", !altered, clean),
            Fault("omitted_record", !omitted, clean),
            Fault("duplicated_record", !duplicated, clean)];
  }

  /** Fault classes 4 to 6. */
  method InjectIntoEvidence(leaves: seq<Hash>, store: ProofStore, indices: seq<nat>)
    returns (r: Result<seq<FaultClass>, ProofStoreError>)
    requires InRange(leaves, indices)
    ensures r == EvidenceReport(store.hp, leaves, store.State(), indices)
  {
    var out: seq<FaultClass> := [];
    ghost var expected := EvidenceReport(store.hp, leaves, store.State(), indices);
    if |indices| > 0 {
      var i := indices[0];
      var stored := store.Query(KeyFor(i, leaves[i]));
      if stored.Err? {
        return Err(stored.error);
      }
      var verdict := store.Verify(FlipLowBit(leaves[i]), stored.value, Adversarial);
      out := [Fault("tampered_merkle_leaf", verdict.Err?, true)];
      assert expected.Ok? && out == expected.value[..1];
    }
    if |indices| >= 2 {
      var i, j := indices[0], indices[1];
      var proof := GenerateProof(store.hp, leaves, i);
      var wrong := proof.value.(leafIndex := j);
      var root := MerkleRoot(store.hp, leaves);
      var verdict := wrong.Verify(store.hp, leaves[i], root.value);
      assert Fault("wrong_index", verdict.Err?, true) == WrongIndex(store.hp, leaves, i, j);
      out := out + [Fault("wrong_index", verdict.Err?, true)];
      assert out == expected.value[..2];
    }
    if |indices| > 0 {
      var i := indices[0];
      var proof := GenerateProof(store.hp, leaves, i);
      var verdict := proof.value.Verify(store.hp, leaves[i], BadRoot());
      assert Fault("wrong_root", verdict.Err?, true) == WrongRoot(store.hp, leaves, i);
      out := out + [Fault("wrong_root", verdict.Err?, true)];
      assert out == expected.value;
    }
    return Ok(out);
  }

  // ---------------------------------------------------------------- what is injected and reported

  /** The low bit of the first byte is the only thing flipped. */
  lemma FlipIsLowBit(h: Hash)
    ensures FlipLowBit(h).bytes[1..] == h.bytes[1..]
    ensures FlipLowBit(h).bytes[0] / 2 == h.bytes[0] / 2 && FlipLowBit(h).bytes[0] % 2 != h.bytes[0] % 2
  {
  }

  lemma BadRootBytes()
    ensures BadRoot().bytes[0] == 0xff && forall i :: 0 < i < 32 ==> BadRoot().bytes[i] == 0
  {
  }

  /** For any population, clean or not: each class is reported missed exactly when its mutant passes the check, and
      as a false positive exactly when the population itself fails it. */
  lemma PopulationFaultsReported(records: seq<AccountingRecord>, summary: PopulationSummary)
    requires |records| > 0
    ensures var f := PopulationFaults(records, summary);
            var raised := records[0].(value := (records[0].value + 1) % 0x1_0000_0000_0000_0000);
            && |f| == 3
            && f[0].name == "altered_record_value" && f[1].name == "omitted_record" && f[2].name == "duplicated_record"
            && (f[0].missed == 1 <==> Holds([raised] + records[1..], summary))
            && (f[1].missed == 1 <==> Holds(records[1..], summary))
            && (f[2].missed == 1 <==> Holds(records + [records[0]], summary))
            && forall c :: c in f ==>
                 && c.injected == c.detected + c.missed == 1
                 && (c.falsePositivesClean == 0 <==> Holds(records, summary))
                 && (c.falsePositivesClean == 1 <==> !Holds(records, summary))
  {
    assert WithFirstAltered(records)
        == [records[0].(value := (records[0].value + 1) % 0x1_0000_0000_0000_0000)] + records[1..];
    assert Without(records, 0) == records[1..];
  }

  /** Each evidence fault is reported missed exactly when the walk it presents ends at the root it is checked
      against. */
  lemma EvidenceFaultsReported(hp: PairHash<Hash>, leaves: seq<Hash>, stored: StoredProof, i: nat, j: nat)
    requires i < |leaves|
    ensures var tampered, index, root :=
              TamperedLeaf(hp, leaves, stored, i), WrongIndex(hp, leaves, i, j), WrongRoot(hp, leaves, i);
            && tampered.name == "tampered_merkle_leaf" && index.name == "wrong_index" && root.name == "wrong_root"
            && (tampered.missed == 1 <==>
                  Walk(hp, FlipLowBit(leaves[i]), stored.leafIndex, Concatenated(stored.shards)) == stored.expectedRoot)
            && (index.missed == 1 <==> Walk(hp, leaves[i], j, Siblings(hp, leaves, i)) == Root(hp, leaves))
            && (root.missed == 1 <==> Walk(hp, leaves[i], i, Siblings(hp, leaves, i)) == BadRoot())
            && forall c :: c in [tampered, index, root] ==>
                 c.falsePositivesClean == 0 && c.injected == c.detected + c.missed == 1
  {
  }

  // ---------------------------------------------------------------- detection

  lemma FlipChanges(h: Hash)
    ensures FlipLowBit(h) != h
  {
    assert FlipLowBit(h).bytes[0] != h.bytes[0];
  }

  /** A proof presented with any other index is missed when at every height where the two indices differ the label
      equals its sibling, and otherwise only if a collision is extracted. */
  lemma WrongIndexMissedIff(hp: PairHash<Hash>, leaves: seq<Hash>, i: nat, j: nat)
    requires i < |leaves|
    ensures SidesAgree(hp, leaves[i], i, j, Siblings(hp, leaves, i)) ==> WrongIndex(hp, leaves, i, j).missed == 1
    ensures WrongIndex(hp, leaves, i, j).missed == 1 ==>
              || SidesAgree(hp, leaves[i], i, j, Siblings(hp, leaves, i))
              || Collision(hp, TwoWalkCollision(hp, leaves[i], i, leaves[i], j, Siblings(hp, leaves, i)))
  {
    var s := Siblings(hp, leaves, i);
    ProofComplete(hp, leaves, i);
    if SidesAgree(hp, leaves[i], i, j, s) {
      SidesAgreeWalks(hp, leaves[i], i, j, s);
    }
    if Walk(hp, leaves[i], j, s) == Root(hp, leaves) {
      EqualWalksAgree(hp, leaves[i], i, leaves[i], j, s);
    }
  }

  /** With another index of the tree it is missed when it is the honest proof there too, and otherwise only if a
      collision is extracted. */
  lemma WrongIndexHonestThere(hp: PairHash<Hash>, leaves: seq<Hash>, i: nat, j: nat)
    requires i < |leaves| && j < |leaves|
    ensures leaves[i] == leaves[j] && Siblings(hp, leaves, i) == Siblings(hp, leaves, j) ==>
              WrongIndex(hp, leaves, i, j).missed == 1
    ensures WrongIndex(hp, leaves, i, j).missed == 1 ==>
              || (leaves[i] == leaves[j] && Siblings(hp, leaves, i) == Siblings(hp, leaves, j))
              || Collision(hp, ForgeryCollision(hp, leaves, j, leaves[i], Siblings(hp, leaves, i)))
  {
    ProofComplete(hp, leaves, j);
    if !Rejects(hp, leaves[i], j, Siblings(hp, leaves, i), Root(hp, leaves)) {
      ProofSoundInRange(hp, leaves, j, leaves[i], Siblings(hp, leaves, i));
    }
  }

  /** It can be missed: in a tree of two equal leaves each proof serves at both indices. */
  lemma WrongIndexCanBeMissed(hp: PairHash<Hash>, x: Hash)
    ensures WrongIndex(hp, [x, x], 0, 1).missed == 1
  {
    var leaves := [x, x];
    SiblingsOverParents(hp, leaves, 0);
    SiblingsOverParents(hp, leaves, 1);
    assert Siblings(hp, leaves, 0) == Siblings(hp, leaves, 1);
    WrongIndexHonestThere(hp, leaves, 0, 1);
  }

  /** A tampered leaf is detected by every entry anchored for the leaf, or a collision is extracted. */
  lemma TamperedLeafDetected(hp: PairHash<Hash>, k: nat, leaves: seq<Hash>, i: nat, call: AnchorCall)
    requires i < |leaves| && call.Succeeds() && call.Leaf() == leaves[i]
    ensures TamperedLeaf(hp, leaves, call.Entry(hp, k), i).missed == 0
            || Collision(hp, EntryCollision(hp, call, FlipLowBit(leaves[i])))
  {
    FlipChanges(leaves[i]);
    EntryAcceptsItsLeafOnly(hp, k, call, FlipLowBit(leaves[i]));
  }

  /** A wrong root is detected exactly when it is not the root. */
  lemma WrongRootDetectedIff(hp: PairHash<Hash>, leaves: seq<Hash>, i: nat)
    requires i < |leaves|
    ensures WrongRoot(hp, leaves, i).missed == 0 <==> Root(hp, leaves) != BadRoot()
  {
    ProofComplete(hp, leaves, i);
  }

  /** In the population: nothing clean is flagged, the altered value is always detected, omission and
      duplication exactly when the first value is not zero. */
  lemma PopulationFaultsDetected(records: seq<AccountingRecord>, summary: PopulationSummary)
    requires |records| > 0 && Holds(records, summary)
    ensures var f := PopulationFaults(records, summary);
            && (forall c :: c in f ==> c.falsePositivesClean == 0 && c.injected == c.detected + c.missed == 1)
            && f[0].missed == 0
            && (f[1].missed == 0 <==> records[0].value != 0)
            && (f[2].missed == 0 <==> records[0].value != 0)
  {
    AlteredValueDetected(records, summary, 0, WrappingAdd(records[0].value, 1));
    OmissionDetectedIff(records, summary, 0);
    DuplicationDetectedIff(records, summary, 0);
  }

  lemma EvidenceShape(hp: PairHash<Hash>, leaves: seq<Hash>, stored: StoredProof, indices: seq<nat>)
    requires |indices| > 0 && InRange(leaves, indices)
    ensures var f := EvidenceFaults(hp, leaves, stored, indices);
            && |f| == (if |indices| == 1 then 2 else 3)
            && f[0] == TamperedLeaf(hp, leaves, stored, indices[0])
            && f[|f| - 1] == WrongRoot(hp, leaves, indices[0])
            && (|indices| >= 2 ==> f[1] == WrongIndex(hp, leaves, indices[0], indices[1]))
            && forall c :: c in f ==> c.falsePositivesClean == 0 && c.injected == c.detected + c.missed == 1
  {
  }

  /** In the evidence, with a sample of any size anchored: nothing is injected into an empty one; otherwise the
      tampered leaf is detected or a collision is extracted, and the wrong root is detected exactly when it is
      not the root. With two indices or more the wrong index is missed when every side that differs is between
      equal labels, and otherwise detected or a collision is extracted. */
  lemma {:induction false} EvidenceFaultsDetected(hp: PairHash<Hash>, k: nat, leaves: seq<Hash>, indices: seq<nat>)
    requires InRange(leaves, indices)
    ensures var calls := CallsFor(leaves, indices);
            var report := EvidenceReport(hp, leaves, Replay(hp, k, calls), indices);
            && report.Ok? && |report.value| == (if |indices| == 0 then 0 else if |indices| == 1 then 2 else 3)
            && (forall c :: c in report.value ==>
                  c.falsePositivesClean == 0 && c.injected == c.detected + c.missed == 1)
            && (|indices| >= 1 ==>
                  var i, last := indices[0], LastFor(calls, calls[0].key);
                  && last.Some?
                  && (report.value[0].missed == 0
                      || Collision(hp, EntryCollision(hp, last.value, FlipLowBit(leaves[i]))))
                  && (report.value[|report.value| - 1].missed == 0 <==> Root(hp, leaves) != BadRoot()))
            && (|indices| >= 2 ==>
                  var i, j := indices[0], indices[1];
                  var s := Siblings(hp, leaves, i);
                  && (SidesAgree(hp, leaves[i], i, j, s) ==> report.value[1].missed == 1)
                  && (|| report.value[1].missed == 0
                      || SidesAgree(hp, leaves[i], i, j, s)
                      || Collision(hp, TwoWalkCollision(hp, leaves[i], i, leaves[i], j, s)))
                  && (|| report.value[1].missed == 0
                      || (leaves[i] == leaves[j] && s == Siblings(hp, leaves, j))
                      || Collision(hp, ForgeryCollision(hp, leaves, j, leaves[i], s))))
  {
    if |indices| > 0 {
      var calls := CallsFor(leaves, indices);
      AnchoredAnswers(hp, k, leaves, indices, 0);
      EvidenceShape(hp, leaves, LastFor(calls, calls[0].key).value.Entry(hp, k), indices);
      TamperedLeafDetected(hp, k, leaves, indices[0], LastFor(calls, calls[0].key).value);
      WrongRootDetectedIff(hp, leaves, indices[0]);
      if |indices| >= 2 {
        WrongIndexMissedIff(hp, leaves, indices[0], indices[1]);
        WrongIndexHonestThere(hp, leaves, indices[0], indices[1]);
      }
    }
  }
}
