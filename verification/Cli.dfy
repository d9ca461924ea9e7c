/** The data path of `vaa prove` and `vaa verify`, from record hex to bundle and back. */
module Cli {
  import opened Wrappers
  import opened Bsv
  import opened Hex
  import opened MerkleTree
  import opened MerkleLaws
  import opened Merkle
  import opened ProofStore
  import opened StoreLaws
  import opened AnchorAll
  import opened Audit

  datatype CliError =
    | InvalidHex
    | WrongLength(length: nat)
    | RecordOutOfRange(index: nat, count: nat)
    | UnsupportedVersion(version: u32)
    | InclusionFailed
    | RecordHexInvalid
    | RecordMismatch
    | IndexTooLarge

  datatype ProofBundle = ProofBundle(
    version: u32,
    rootDisplay: string,
    leafDisplay: string,
    siblingsDisplay: seq<string>,
    leafIndex: nat,
    recordHex: string)

  // ---------------------------------------------------------------- byte order

  function Reversed(s: Bytes): (r: Bytes)
    ensures |r| == |s|
  {
    seq(|s|, i requires 0 <= i < |s| => s[|s| - 1 - i])
  }

  lemma ReversedTwice(s: Bytes)
    ensures Reversed(Reversed(s)) == s
  {
  }

  function DisplayToInternal(text: string): Result<Hash, CliError> {
    match Decode(Trim(text))
    case None => Err(InvalidHex)
    case Some(bytes) => if |bytes| != 32 then Err(WrongLength(|bytes|)) else Ok(Hash(Reversed(bytes)))
  }

  function InternalToDisplay(h: Hash): string {
    Encode(Reversed(h.bytes))
  }

  /** The display text starts with the digits of the last internal byte and ends with those of the first. */
  lemma DisplayIsReversed(h: Hash, i: nat)
    requires i < 32
    ensures |InternalToDisplay(h)| == 64
    ensures InternalToDisplay(h)[2 * i] == "0123456789abcdef"[h.bytes[31 - i] as nat / 16]
    ensures InternalToDisplay(h)[2 * i + 1] == "0123456789abcdef"[h.bytes[31 - i] as nat % 16]
  {
    EncodeAt(Reversed(h.bytes), i);
  }

  /** Exactly which text is read as which hash, and the two errors. */
  lemma InternalIsReversed(text: string, h: Hash)
    ensures DisplayToInternal(text) == Ok(h) <==>
              && Decode(Trim(text)).Some?
              && var bytes := Decode(Trim(text)).value;
                 |bytes| == 32 && forall i :: 0 <= i < 32 ==> bytes[i] == h.bytes[31 - i]
    ensures DisplayToInternal(text) == Err(InvalidHex) <==> Decode(Trim(text)).None?
    ensures forall n :: DisplayToInternal(text) == Err(WrongLength(n)) <==>
              Decode(Trim(text)).Some? && n == |Decode(Trim(text)).value| != 32
  {
    if Decode(Trim(text)).Some? {
      var bytes := Decode(Trim(text)).value;
      if |bytes| == 32 && forall i :: 0 <= i < 32 ==> bytes[i] == h.bytes[31 - i] {
        forall i | 0 <= i < 32 ensures Reversed(bytes)[i] == h.bytes[i] {
          assert bytes[31 - i] == h.bytes[31 - (31 - i)];
        }
        assert Reversed(bytes) == h.bytes;
      }
    }
  }

  lemma InternalDisplayInternal(h: Hash)
    ensures DisplayToInternal(InternalToDisplay(h)) == Ok(h)
  {
    TrimEncoded(Reversed(h.bytes));
    DecodeEncode(Reversed(h.bytes));
    ReversedTwice(h.bytes);
  }

  /** Text that is accepted is shown again as itself, trimmed and in lower case. */
  lemma DisplayInternalDisplay(text: string)
    requires DisplayToInternal(text).Ok?
    ensures InternalToDisplay(DisplayToInternal(text).value) == Lowered(Trim(text))
  {
    EncodeDecode(Trim(text));
    ReversedTwice(Decode(Trim(text)).value);
  }

  function DisplayAll(hashes: seq<Hash>): seq<string> {
    seq(|hashes|, i requires 0 <= i < |hashes| => InternalToDisplay(hashes[i]))
  }

  /** The sibling conversion, which stops at the first failure. */
  function InternalAll(texts: seq<string>): (r: Result<seq<Hash>, CliError>)
    ensures r.Ok? ==> |r.value| == |texts|
  {
    if texts == [] then Ok([])
    else
      match DisplayToInternal(texts[0])
      case Err(e) => Err(e)
      case Ok(h) =>
        match InternalAll(texts[1..])
        case Err(e) => Err(e)
        case Ok(rest) => Ok([h] + rest)
  }

  /** Each text is read in its place, or the error is that of the first text that fails. */
  lemma {:induction false} InternalAllInOrder(texts: seq<string>)
    ensures var r := InternalAll(texts);
            match r
            case Ok(hashes) => forall i :: 0 <= i < |texts| ==> DisplayToInternal(texts[i]) == Ok(hashes[i])
            case Err(e) => exists i :: 0 <= i < |texts| && DisplayToInternal(texts[i]) == Err(e)
                                       && forall j :: 0 <= j < i ==> DisplayToInternal(texts[j]).Ok?
  {
    if texts != [] && DisplayToInternal(texts[0]).Ok? {
      InternalAllInOrder(texts[1..]);
      match InternalAll(texts[1..])
      case Ok(hashes) =>
        forall i | 0 < i < |texts| ensures DisplayToInternal(texts[i]) == Ok(hashes[i - 1]) {
          assert texts[1..][i - 1] == texts[i];
        }
      case Err(e) =>
        var i :| 0 <= i < |texts[1..]| && DisplayToInternal(texts[1..][i]) == Err(e)
                 && forall j :: 0 <= j < i ==> DisplayToInternal(texts[1..][j]).Ok?;
        assert DisplayToInternal(texts[i + 1]) == Err(e);
        forall j | 0 <= j < i + 1 ensures DisplayToInternal(texts[j]).Ok? {
          if j > 0 {
            assert texts[1..][j - 1] == texts[j];
          }
        }
    }
  }

  lemma InternalDisplayAll(hashes: seq<Hash>)
    ensures InternalAll(DisplayAll(hashes)) == Ok(hashes)
  {
    forall i | 0 <= i < |hashes| ensures DisplayToInternal(DisplayAll(hashes)[i]) == Ok(hashes[i]) {
      InternalDisplayInternal(hashes[i]);
    }
    InternalAllOf(DisplayAll(hashes), hashes);
  }

  lemma {:induction false} InternalAllOf(texts: seq<string>, hashes: seq<Hash>)
    requires |texts| == |hashes| && forall i :: 0 <= i < |hashes| ==> DisplayToInternal(texts[i]) == Ok(hashes[i])
    ensures InternalAll(texts) == Ok(hashes)
  {
    if texts != [] {
      InternalAllOf(texts[1..], hashes[1..]);
      InternalAllCons(texts, hashes[0], hashes[1..]);
      assert [hashes[0]] + hashes[1..] == hashes;
    }
  }

  lemma InternalAllCons(texts: seq<string>, h: Hash, rest: seq<Hash>)
    requires |texts| > 0 && DisplayToInternal(texts[0]) == Ok(h) && InternalAll(texts[1..]) == Ok(rest)
    ensures InternalAll(texts) == Ok([h] + rest)
  {
  }

  // ---------------------------------------------------------------- prove

  /** The records a file of hex strings holds; the first bad string spoils it. */
  function RecordsOf(texts: seq<string>): Result<seq<Bytes>, CliError> {
    if texts == [] then Ok([])
    else
      match RecordsOf(texts[..|texts| - 1])
      case Err(e) => Err(e)
      case Ok(records) =>
        match Decode(Trim(texts[|texts| - 1]))
        case None => Err(InvalidHex)
        case Some(record) => Ok(records + [record])
  }

  function LeavesOf(d: Digest, records: seq<Bytes>): seq<Hash> {
    seq(|records|, i requires 0 <= i < |records| => d(records[i]))
  }

  lemma LeavesOfPush(d: Digest, records: seq<Bytes>, record: Bytes)
    ensures LeavesOf(d, records + [record]) == LeavesOf(d, records) + [d(record)]
  {
  }

  predicate AllDecode(texts: seq<string>) {
    forall i :: 0 <= i < |texts| ==> Decode(Trim(texts[i])).Some?
  }

  /** The records are what the texts decode to, in order. */
  predicate DecodeTo(texts: seq<string>, records: seq<Bytes>) {
    |records| == |texts| && forall i :: 0 <= i < |texts| ==> Decode(Trim(texts[i])) == Some(records[i])
  }

  lemma DecodeToPush(texts: seq<string>, records: seq<Bytes>, record: Bytes)
    requires texts != [] && DecodeTo(texts[..|texts| - 1], records)
    requires Decode(Trim(texts[|texts| - 1])) == Some(record)
    ensures DecodeTo(texts, records + [record])
  {
    forall i | 0 <= i < |texts| ensures Decode(Trim(texts[i])) == Some((records + [record])[i]) {
      if i < |texts| - 1 {
        assert texts[..|texts| - 1][i] == texts[i];
      }
    }
  }

  /** Record `i` is what text `i` decodes to, and there are records exactly when every text decodes. */
  lemma {:induction false} RecordsInOrder(texts: seq<string>)
    ensures RecordsOf(texts).Ok? <==> AllDecode(texts)
    ensures RecordsOf(texts).Ok? ==> DecodeTo(texts, RecordsOf(texts).value)
    ensures RecordsOf(texts).Err? ==> RecordsOf(texts).error == InvalidHex
  {
    if texts != [] {
      var n := |texts| - 1;
      RecordsInOrder(texts[..n]);
      assert AllDecode(texts) <==> AllDecode(texts[..n]) && Decode(Trim(texts[n])).Some? by {
        assert forall i :: 0 <= i < n ==> texts[..n][i] == texts[i];
      }
      if AllDecode(texts) {
        DecodeToPush(texts, RecordsOf(texts[..n]).value, Decode(Trim(texts[n])).value);
      }
    }
  }

  /** Lists of records that decode from the same texts are the same. */
  lemma DecodeToUnique(texts: seq<string>, a: seq<Bytes>, b: seq<Bytes>)
    requires DecodeTo(texts, a) && DecodeTo(texts, b)
    ensures a == b
  {
    forall i | 0 <= i < |a| ensures a[i] == b[i] {
      assert Decode(Trim(texts[i])) == Some(a[i]);
    }
  }

  method LoadRecords(d: Digest, texts: seq<string>) returns (r: Result<(seq<Bytes>, seq<Hash>), CliError>)
    ensures match RecordsOf(texts)
            case Err(e) => r == Err(e)
            case Ok(records) => r == Ok((records, LeavesOf(d, records)))
    ensures r == Err(InvalidHex) <==> exists i :: 0 <= i < |texts| && Decode(Trim(texts[i])).None?
    ensures r.Ok? ==> DecodeTo(texts, r.value.0) && |r.value.1| == |texts|
    ensures r.Ok? ==> forall i :: 0 <= i < |texts| ==> r.value.1[i] == d(r.value.0[i])
  {
    var records: seq<Bytes> := [];
    var leaves: seq<Hash> := [];
    RecordsInOrder(texts);
    for i := 0 to |texts|
      invariant DecodeTo(texts[..i], records) && leaves == LeavesOf(d, records)
    {
      var bytes := Decode(Trim(texts[i]));
      if bytes.None? {
        assert !AllDecode(texts);
        return Err(InvalidHex);
      }
      assert texts[..i + 1][..i] == texts[..i];
      DecodeToPush(texts[..i + 1], records, bytes.value);
      LeavesOfPush(d, records, bytes.value);
      leaves := leaves + [d(bytes.value)];
      records := records + [bytes.value];
    }
    assert texts[..|texts|] == texts;
    DecodeToUnique(texts, records, RecordsOf(texts).value);
    return Ok((records, leaves));
  }

  /** The bundle written for a record. */
  function BundleFor(d: Digest, records: seq<Bytes>, index: nat): ProofBundle
    requires index < |records|
  {
    var leaves, hp := LeavesOf(d, records), PairHashOf(d);
    ProofBundle(2, InternalToDisplay(Root(hp, leaves)), InternalToDisplay(leaves[index]),
                DisplayAll(Siblings(hp, leaves, index)), index, Encode(records[index]))
  }

  method Prove(d: Digest, texts: seq<string>, index: nat) returns (r: Result<ProofBundle, CliError>)
    ensures match RecordsOf(texts)
            case Err(e) => r == Err(e)
            case Ok(records) =>
              r == if index >= |records| then Err(RecordOutOfRange(index, |records|))
                   else Ok(BundleFor(d, records, index))
    ensures r == Err(InvalidHex) <==> !AllDecode(texts)
    ensures r == Err(RecordOutOfRange(index, |texts|)) <==> AllDecode(texts) && index >= |texts|
    ensures r.Ok? <==> AllDecode(texts) && index < |texts|
    ensures r.Ok? ==>
              var records, hp, bundle := RecordsOf(texts).value, PairHashOf(d), r.value;
              var leaves := LeavesOf(d, records);
              && bundle.version == 2 && bundle.leafIndex == index < |records|
              && bundle.rootDisplay == InternalToDisplay(Root(hp, leaves))
              && bundle.leafDisplay == InternalToDisplay(d(records[index]))
              && |bundle.siblingsDisplay| == Depth(leaves)
              && (forall i :: 0 <= i < Depth(leaves) ==>
                    bundle.siblingsDisplay[i] == InternalToDisplay(Siblings(hp, leaves, index)[i]))
              && bundle.recordHex == Encode(records[index])
  {
    RecordsInOrder(texts);
    var loaded := LoadRecords(d, texts);
    if loaded.Err? {
      return Err(loaded.error);
    }
    var (records, leaves) := loaded.value;
    if index >= |records| {
      return Err(RecordOutOfRange(index, |records|));
    }
    var root := MerkleRoot(PairHashOf(d), leaves);
    var proof := GenerateProof(PairHashOf(d), leaves, index);
    return Ok(ProofBundle(2, InternalToDisplay(root.value), InternalToDisplay(leaves[index]),
                          DisplayAll(proof.value.siblings), index, Encode(records[index])));
  }

  // ---------------------------------------------------------------- verify

  /** What the parts of a bundle decode to. */
  datatype Parts = Parts(leaf: Hash, root: Hash, siblings: seq<Hash>)

  function PartsOf(bundle: ProofBundle): Result<Parts, CliError> {
    match DisplayToInternal(bundle.leafDisplay)
    case Err(e) => Err(e)
    case Ok(leaf) =>
      match DisplayToInternal(bundle.rootDisplay)
      case Err(e) => Err(e)
      case Ok(root) =>
        match InternalAll(bundle.siblingsDisplay)
        case Err(e) => Err(e)
        case Ok(siblings) => Ok(Parts(leaf, root, siblings))
  }

  /** The verdict on a bundle. The audit of the re-anchored leaf does not occur in it: it never fails. */
  function BundleVerdict(d: Digest, bundle: ProofBundle): Result<Unit, CliError> {
    if bundle.version != 2 then Err(UnsupportedVersion(bundle.version))
    else
      match PartsOf(bundle)
      case Err(e) => Err(e)
      case Ok(parts) =>
        if Walk(PairHashOf(d), parts.leaf, bundle.leafIndex, parts.siblings) != parts.root then Err(InclusionFailed)
        else
          match Decode(Trim(bundle.recordHex))
          case None => Err(RecordHexInvalid)
          case Some(record) =>
            if d(record) != parts.leaf then Err(RecordMismatch)
            else if bundle.leafIndex > U32_MAX then Err(IndexTooLarge)
            else Ok(Unit)
  }

  /** Exactly when a bundle is accepted, and when each check after the decoding fails. */
  lemma BundleVerdictIff(d: Digest, bundle: ProofBundle)
    ensures var r, version := BundleVerdict(d, bundle), bundle.version == 2;
            var leaf, root := DisplayToInternal(bundle.leafDisplay), DisplayToInternal(bundle.rootDisplay);
            var siblings, record := InternalAll(bundle.siblingsDisplay), Decode(Trim(bundle.recordHex));
            var read := version && leaf.Ok? && root.Ok? && siblings.Ok?;
            var included := read && Walk(PairHashOf(d), leaf.value, bundle.leafIndex, siblings.value) == root.value;
            var disclosed := included && record.Some? && d(record.value) == leaf.value;
            && (r == Err(UnsupportedVersion(bundle.version)) <==> !version)
            && (r == Err(InclusionFailed) <==> read && !included)
            && (r == Err(RecordHexInvalid) <==> included && record.None?)
            && (r == Err(RecordMismatch) <==> included && record.Some? && !disclosed)
            && (r == Err(IndexTooLarge) <==> disclosed && bundle.leafIndex > 0xFFFF_FFFF)
            && (r == Ok(Unit) <==> disclosed && bundle.leafIndex <= 0xFFFF_FFFF)
  {
    InternalAllInOrder(bundle.siblingsDisplay);
  }

  method Verify(d: Digest, bundle: ProofBundle) returns (r: Result<Unit, CliError>)
    ensures r == BundleVerdict(d, bundle)
  {
    if bundle.version != 2 {
      return Err(UnsupportedVersion(bundle.version));
    }
    var leaf := DisplayToInternal(bundle.leafDisplay);
    if leaf.Err? {
      return Err(leaf.error);
    }
    var expectedRoot := DisplayToInternal(bundle.rootDisplay);
    if expectedRoot.Err? {
      return Err(expectedRoot.error);
    }
    var siblings := InternalAll(bundle.siblingsDisplay);
    if siblings.Err? {
      return Err(siblings.error);
    }
    var hp := PairHashOf(d);
    var inclusion := MerkleProof(bundle.leafIndex, siblings.value).Verify(hp, leaf.value, expectedRoot.value);
    if inclusion.Err? {
      return Err(InclusionFailed);
    }
    var disclosed := Decode(Trim(bundle.recordHex));
    if disclosed.None? {
      return Err(RecordHexInvalid);
    }
    if d(disclosed.value) != leaf.value {
      return Err(RecordMismatch);
    }
    var store := new ProofStore(hp, 0);
    if bundle.leafIndex > U32_MAX {
      return Err(IndexTooLarge);
    }
    var key := IndexKey(leaf.value, Output, 0, bundle.leafIndex, None, None, None);
    var _ := store.Anchor(key, [leaf.value], 0);
    ghost var call := AnchorCall(key, [leaf.value], 0);
    EntryIsHonest(hp, 0, call);
    assert store.State().Query(key) == Ok(call.Entry(hp, 0));
    var verifier := new AuditVerifier(store);
    var evidence := verifier.Verify(d, AuditBundle(key, disclosed.value, leaf.value, Adversarial));
    assert evidence.Ok?;  // the audit of a single re-anchored leaf cannot fail once the record matches it
    return Ok(Unit);
  }

  /** Round trip: a bundle written for a record is accepted exactly when its index fits `u32`. */
  lemma ProvedBundleVerifies(d: Digest, records: seq<Bytes>, index: nat)
    requires index < |records|
    ensures BundleVerdict(d, BundleFor(d, records, index)) == if index <= U32_MAX then Ok(Unit) else Err(IndexTooLarge)
  {
    var leaves, hp := LeavesOf(d, records), PairHashOf(d);
    InternalDisplayInternal(leaves[index]);
    InternalDisplayInternal(Root(hp, leaves));
    InternalDisplayAll(Siblings(hp, leaves, index));
    TrimEncoded(records[index]);
    DecodeEncode(records[index]);
    ProofComplete(hp, leaves, index);
  }

  /** The bytes behind label `j` at height `h` over the records: the record itself at the leaves, above them the
      64-byte block of the two labels below. */
  function PreimageAt(d: Digest, records: seq<Bytes>, h: nat, j: nat): (bytes: Bytes)
    requires |records| > 0 && j < |Level(PairHashOf(d), LeavesOf(d, records), h)|
    ensures d(bytes) == Level(PairHashOf(d), LeavesOf(d, records), h)[j]
  {
    if h == 0 then records[j]
    else
      LevelOverLevel(PairHashOf(d), LeavesOf(d, records), h - 1);
      var c := PairAt(Level(PairHashOf(d), LeavesOf(d, records), h - 1), j);
      Join(c.left, c.right)
  }

  /** The disclosed bytes are those behind label `j`, or the two are a collision of the digest. */
  predicate Discloses(d: Digest, records: seq<Bytes>, h: nat, j: nat, bytes: Bytes)
    requires |records| > 0
  {
    && j < |Level(PairHashOf(d), LeavesOf(d, records), h)|
    && (bytes == PreimageAt(d, records, h, j) || DigestCollision(d, bytes, PreimageAt(d, records, h, j)))
  }

  /** What a proof for given bytes shows: they are those behind the label the claimed index stands for, on the level
      the siblings start from, or two 64-byte blocks collide. */
  ghost predicate DisclosesLabel(d: Digest, records: seq<Bytes>, index: nat, leaf: Hash, siblings: seq<Hash>,
                                 bytes: Bytes)
    requires |records| > 0 && |siblings| <= Depth(LeavesOf(d, records))
  {
    var h := Depth(LeavesOf(d, records)) - |siblings|;
    var labels := Level(PairHashOf(d), LeavesOf(d, records), h);
    && Depth(labels) == |siblings|
    && (|| Discloses(d, records, h, Position(labels, index), bytes)
        || BlocksCollide(d, ForgeryCollision(PairHashOf(d), labels, index, leaf, siblings)))
  }

  lemma SameDigestDiscloses(d: Digest, records: seq<Bytes>, h: nat, j: nat, bytes: Bytes)
    requires |records| > 0 && j < |Level(PairHashOf(d), LeavesOf(d, records), h)|
    requires d(bytes) == Level(PairHashOf(d), LeavesOf(d, records), h)[j]
    ensures Discloses(d, records, h, j, bytes)
  {
    var _ := PreimageAt(d, records, h, j);
  }

  lemma DisclosureIsSound(d: Digest, records: seq<Bytes>, index: nat, leaf: Hash, siblings: seq<Hash>, bytes: Bytes)
    requires |records| > 0 && |siblings| <= Depth(LeavesOf(d, records)) && d(bytes) == leaf
    requires Walk(PairHashOf(d), leaf, index, siblings) == Root(PairHashOf(d), LeavesOf(d, records))
    ensures DisclosesLabel(d, records, index, leaf, siblings, bytes)
  {
    var hp, leaves := PairHashOf(d), LeavesOf(d, records);
    ShortProofSound(hp, leaves, index, leaf, siblings);
    ProvenLabelDisclosed(d, records, index, leaf, siblings, bytes);
  }

  lemma ProvenLabelDisclosed(d: Digest, records: seq<Bytes>, index: nat, leaf: Hash, siblings: seq<Hash>, bytes: Bytes)
    requires |records| > 0 && |siblings| <= Depth(LeavesOf(d, records)) && d(bytes) == leaf
    requires ProvesLabel(PairHashOf(d), LeavesOf(d, records), index, leaf, siblings)
    ensures DisclosesLabel(d, records, index, leaf, siblings, bytes)
  {
    var h := Depth(LeavesOf(d, records)) - |siblings|;
    var labels := Level(PairHashOf(d), LeavesOf(d, records), h);
    assert labels == StartLevel(PairHashOf(d), LeavesOf(d, records), |siblings|);
    if leaf == labels[Position(labels, index)] {
      SameDigestDiscloses(d, records, h, Position(labels, index), bytes);
    } else {
      PairCollisionIsDigestCollision(d, ForgeryCollision(PairHashOf(d), labels, index, leaf, siblings));
    }
  }

  /** What an accepted bundle proves against the root of a list of records, with at most as many siblings as the
      tree is deep. With all siblings the level they start from holds the records; with fewer the disclosed
      bytes are a block of two inner labels. */
  lemma VerifiedBundleIsSound(d: Digest, records: seq<Bytes>, bundle: ProofBundle)
    requires BundleVerdict(d, bundle) == Ok(Unit) && |records| > 0
    requires PartsOf(bundle).value.root == Root(PairHashOf(d), LeavesOf(d, records))
    requires |PartsOf(bundle).value.siblings| <= Depth(LeavesOf(d, records))
    ensures var parts, bytes := PartsOf(bundle).value, Decode(Trim(bundle.recordHex)).value;
            DisclosesLabel(d, records, bundle.leafIndex, parts.leaf, parts.siblings, bytes)
  {
    var parts := PartsOf(bundle).value;
    DisclosureIsSound(d, records, bundle.leafIndex, parts.leaf, parts.siblings, Decode(Trim(bundle.recordHex)).value);
  }

  /** For a bundle of full length in range: it discloses the record at its index, or a named pair collides. */
  lemma FullBundleDisclosesRecord(d: Digest, records: seq<Bytes>, bundle: ProofBundle)
    requires BundleVerdict(d, bundle) == Ok(Unit) && bundle.leafIndex < |records|
    requires PartsOf(bundle).value.root == Root(PairHashOf(d), LeavesOf(d, records))
    requires |PartsOf(bundle).value.siblings| == Depth(LeavesOf(d, records))
    ensures var parts, record := PartsOf(bundle).value, Decode(Trim(bundle.recordHex)).value;
            || record == records[bundle.leafIndex]
            || DigestCollision(d, record, records[bundle.leafIndex])
            || BlocksCollide(d, ForgeryCollision(PairHashOf(d), LeavesOf(d, records), bundle.leafIndex,
                                                 parts.leaf, parts.siblings))
  {
    VerifiedBundleIsSound(d, records, bundle);
  }
}
