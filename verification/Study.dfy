/** The population study: sampling, the two checks over the sample, and the injected faults. */
module Study {
  import opened Wrappers
  import opened Arithmetic
  import opened Bsv
  import opened MerkleTree
  import opened ProofStore
  import opened StoreLaws
  import opened StoreRuns
  import opened AnchorAll
  import opened RollForward

  // ---------------------------------------------------------------- sampling

  /** The evenly spread sample of at most `sample` indices below `total`. */
  function SampleIndices(total: nat, sample: nat): (s: seq<nat>)
    ensures |s| == Min(sample, total)
  {
    var n := Min(sample, total);
    seq(n, i requires 0 <= i < n => Min(i * total / Max(n, 1), total - 1))
  }

  /** Stretching by a factor of at least one keeps indices apart. */
  lemma StretchApart(i: nat, n: nat, total: nat)
    requires 0 < n <= total
    ensures i * total / n < (i + 1) * total / n
  {
    var a, b := i * total, (i + 1) * total;
    assert b == a + total;
    DivMod(a, n);
    DivMod(b, n);
    if b / n <= a / n {
      MulMonotone(b / n, a / n, n);
    }
  }

  lemma StretchBelow(i: nat, n: nat, total: nat)
    requires i < n <= total
    ensures i * total / n < total
  {
    DivMod(i * total, n);
    if total <= i * total / n {
      MulMonotone(total, i * total / n, n);
      MulMonotone(i + 1, n, total);
    }
  }

  /** The sample is spread evenly, in range and strictly increasing, for every population and sample size. */
  lemma SamplesIncrease(total: nat, sample: nat)
    ensures var s := SampleIndices(total, sample);
            && |s| == Min(sample, total)
            && (forall j :: 0 <= j < |s| ==> s[j] == j * total / |s| && s[j] < total)
            && (forall j :: 0 <= j < |s| - 1 ==> s[j] < s[j + 1])
  {
    var s := SampleIndices(total, sample);
    var n := |s|;
    forall j | 0 <= j < n ensures s[j] == j * total / n && s[j] < total {
      StretchBelow(j, n, total);
    }
    forall j | 0 <= j < n - 1 ensures s[j] < s[j + 1] {
      StretchApart(j, n, total);
    }
  }

  // ---------------------------------------------------------------- the two checks over the sample

  /** Query the key of index `i` and verify its leaf in full. */
  function Included(hp: PairHash<Hash>, contents: Contents, leaves: seq<Hash>, i: nat)
    : (r: Result<Unit, ProofStoreError>)
    requires i < |leaves|
    ensures r == Err(KeyNotFound) <==> KeyFor(i, leaves[i]) !in contents.storage
    ensures r == Ok(Unit) <==>
              && KeyFor(i, leaves[i]) in contents.storage
              && var stored := contents.storage[KeyFor(i, leaves[i])];
                 Walk(hp, leaves[i], stored.leafIndex, Concatenated(stored.shards)) == stored.expectedRoot
    ensures r.Err? ==> r.error == KeyNotFound || r.error == StoredRootMismatch
  {
    match contents.Query(KeyFor(i, leaves[i]))
    case Err(e) => Err(e)
    case Ok(stored) => AdversarialVerdict(hp, leaves[i], stored, Adversarial)
  }

  method RunInclusionSample(leaves: seq<Hash>, indices: seq<nat>, store: ProofStore)
    returns (r: Result<nat, ProofStoreError>)
    requires InRange(leaves, indices)
    ensures match r
            case Ok(passed) =>
              && passed == |indices|
              && forall j :: 0 <= j < |indices| ==> Included(store.hp, store.State(), leaves, indices[j]).Ok?
            case Err(e) =>
              exists j :: 0 <= j < |indices| && Included(store.hp, store.State(), leaves, indices[j]) == Err(e)
                          && forall m :: 0 <= m < j ==> Included(store.hp, store.State(), leaves, indices[m]).Ok?
  {
    var passed := 0;
    for j := 0 to |indices|
      invariant passed == j
      invariant forall m :: 0 <= m < j ==> Included(store.hp, store.State(), leaves, indices[m]).Ok?
    {
      var i := indices[j];
      var stored := store.Query(KeyFor(i, leaves[i]));
      if stored.Err? {
        assert Included(store.hp, store.State(), leaves, indices[j]) == Err(stored.error);
        return Err(stored.error);
      }
      var verdict := store.Verify(leaves[i], stored.value, Adversarial);
      if verdict.Err? {
        assert Included(store.hp, store.State(), leaves, indices[j]) == Err(verdict.error);
        return Err(verdict.error);
      }
      passed := passed + 1;
    }
    return Ok(passed);
  }

  /** The entry answered for index `i` is for that index. */
  predicate AnswersOwnIndex(contents: Contents, leaves: seq<Hash>, i: nat)
    requires i < |leaves|
  {
    var stored := contents.Query(KeyFor(i, leaves[i]));
    stored.Ok? && stored.value.leafIndex == i
  }

  /** The positions of the sample whose answer is for their own index. */
  function OwnAnswers(contents: Contents, leaves: seq<Hash>, indices: seq<nat>): set<nat>
    requires InRange(leaves, indices)
  {
    set j | 0 <= j < |indices| && AnswersOwnIndex(contents, leaves, indices[j])
  }

  lemma OneMoreAnswer(contents: Contents, leaves: seq<Hash>, indices: seq<nat>, j: nat)
    requires InRange(leaves, indices) && j < |indices|
    ensures |OwnAnswers(contents, leaves, indices[..j + 1])|
         == |OwnAnswers(contents, leaves, indices[..j])|
            + if AnswersOwnIndex(contents, leaves, indices[j]) then 1 else 0
  {
    var before, after := OwnAnswers(contents, leaves, indices[..j]), OwnAnswers(contents, leaves, indices[..j + 1]);
    assert after == before + if AnswersOwnIndex(contents, leaves, indices[j]) then {j} else {};
  }

  /** Every index is counted exactly when every answer is for its own index. */
  lemma {:induction false} AllAnswerTheirOwn(contents: Contents, leaves: seq<Hash>, indices: seq<nat>)
    requires InRange(leaves, indices)
    ensures |OwnAnswers(contents, leaves, indices)| <= |indices|
    ensures |OwnAnswers(contents, leaves, indices)| == |indices|
            <==> forall j :: 0 <= j < |indices| ==> AnswersOwnIndex(contents, leaves, indices[j])
  {
    if indices == [] {
      assert OwnAnswers(contents, leaves, indices) == {};
    } else {
      var n := |indices| - 1;
      AllAnswerTheirOwn(contents, leaves, indices[..n]);
      OneMoreAnswer(contents, leaves, indices, n);
      assert indices[..n + 1] == indices;
    }
  }

  method RunSelectiveDisclosureChecks(leaves: seq<Hash>, indices: seq<nat>, store: ProofStore)
    returns (r: Result<nat, ProofStoreError>)
    requires InRange(leaves, indices)
    ensures r.Ok? <==> forall j :: 0 <= j < |indices| ==>
                         store.State().Query(KeyFor(indices[j], leaves[indices[j]])).Ok?
    ensures r.Err? ==> r.error == KeyNotFound
    ensures r.Ok? ==> r.value == |OwnAnswers(store.State(), leaves, indices)|
    ensures r.Ok? ==>
              r.value == |set j | 0 <= j < |indices|
                               && store.storage[KeyFor(indices[j], leaves[indices[j]])].leafIndex == indices[j]|
  {
    var passed := 0;
    for j := 0 to |indices|
      invariant forall m :: 0 <= m < j ==> store.State().Query(KeyFor(indices[m], leaves[indices[m]])).Ok?
      invariant passed == |OwnAnswers(store.State(), leaves, indices[..j])|
    {
      var i := indices[j];
      var stored := store.Query(KeyFor(i, leaves[i]));
      if stored.Err? {
        assert !store.State().Query(KeyFor(indices[j], leaves[indices[j]])).Ok?;
        return Err(stored.error);
      }
      OneMoreAnswer(store.State(), leaves, indices, j);
      if stored.value.leafIndex == i {
        passed := passed + 1;
      }
    }
    assert indices[..|indices|] == indices;
    assert OwnAnswers(store.State(), leaves, indices)
        == set j | 0 <= j < |indices|
                   && store.storage[KeyFor(indices[j], leaves[indices[j]])].leafIndex == indices[j];
    return Ok(passed);
  }

  /** After the anchoring loop every sampled leaf is included, and each answer is for its own index as long
      as the indices fit `u32`. */
  lemma SamplePasses(hp: PairHash<Hash>, k: nat, leaves: seq<Hash>, indices: seq<nat>, j: nat)
    requires InRange(leaves, indices) && j < |indices|
    ensures var contents := Replay(hp, k, CallsFor(leaves, indices));
            && Included(hp, contents, leaves, indices[j]) == Ok(Unit)
            && (|leaves| <= U32_MAX + 1 ==> AnswersOwnIndex(contents, leaves, indices[j]))
  {
    var calls := CallsFor(leaves, indices);
    AnchoredAnswers(hp, k, leaves, indices, j);
    EntryIsHonest(hp, k, LastFor(calls, calls[j].key).value);
    if |leaves| <= U32_MAX + 1 {
      AnchoredAnswersExactly(hp, k, leaves, indices, j);
    }
  }

  datatype StudyError = IdentityFails | StoreFails(error: ProofStoreError)

  datatype StudyOutcome = StudyOutcome(sampled: nat, included: nat, disclosed: nat)

  /** Hash the records and anchor an even sample of them in a new store at half the depth. */
  method AnchorSample(d: Digest, canonicalBytes: AccountingRecord -> Bytes, records: seq<AccountingRecord>, sample: nat)
    returns (leaves: seq<Hash>, indices: seq<nat>, store: ProofStore)
    ensures |leaves| == |records| && forall i :: 0 <= i < |records| ==> leaves[i] == d(canonicalBytes(records[i]))
    ensures indices == SampleIndices(|records|, sample) && InRange(leaves, indices)
    ensures fresh(store) && store.hp == PairHashOf(d) && store.predeterminedLevel == CeilLog2(|records|) / 2
    ensures store.State() == Replay(store.hp, store.predeterminedLevel, CallsFor(leaves, indices))
  {
    leaves := seq(|records|, i requires 0 <= i < |records| => d(canonicalBytes(records[i])));
    store := new ProofStore(PairHashOf(d), CeilLog2(|leaves|) / 2);
    indices := SampleIndices(|records|, sample);
    SamplesIncrease(|records|, sample);
    AnchorIndices(store, leaves, indices);
  }

  /** The data path of the study over a given population: check the identity, anchor the sample, run both checks. */
  method RunStudy(d: Digest, canonicalBytes: AccountingRecord -> Bytes, records: seq<AccountingRecord>,
                  summary: PopulationSummary, sample: nat)
    returns (r: Result<StudyOutcome, StudyError>)
    ensures r == Err(IdentityFails) <==> !Holds(records, summary)
    ensures r.Ok? <==> Holds(records, summary)
    ensures r.Ok? ==> r.value.included == r.value.sampled == Min(sample, |records|)
    ensures r.Ok? && |records| <= U32_MAX + 1 ==> r.value.disclosed == r.value.sampled
  {
    var clean := RollForwardHolds(records, summary);
    if !clean {
      return Err(IdentityFails);
    }
    var leaves, indices, store := AnchorSample(d, canonicalBytes, records, sample);
    forall j | 0 <= j < |indices|
      ensures Included(store.hp, store.State(), leaves, indices[j]) == Ok(Unit)
      ensures |leaves| <= U32_MAX + 1 ==> AnswersOwnIndex(store.State(), leaves, indices[j])
    {
      SamplePasses(store.hp, store.predeterminedLevel, leaves, indices, j);
    }
    var included := RunInclusionSample(leaves, indices, store);
    assert included.Ok?;
    var disclosed := RunSelectiveDisclosureChecks(leaves, indices, store);
    assert disclosed.Ok?;
    AllAnswerTheirOwn(store.State(), leaves, indices);
    return Ok(StudyOutcome(|indices|, included.value, disclosed.value));
  }
}
