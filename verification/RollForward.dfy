/** The population check of the study: totals per record kind, wrapping at 64 bits, against the summary. */
module RollForward {
  import opened Bsv
  import opened Sums
  import opened Accounting

  const U64_SIZE: nat := 0x1_0000_0000_0000_0000

  datatype RecordKind = Invoice | Receipt | CreditNote | WriteOff

  datatype AccountingRecord = AccountingRecord(
    id: u32,
    kind: RecordKind,
    value: u64,
    counterparty: string,
    date: string)

  datatype PopulationSummary = PopulationSummary(
    arOpen: u64,
    invoicesTotal: u64,
    receiptsTotal: u64,
    creditNotesTotal: u64,
    writeOffsTotal: u64,
    arClose: u64)
  {
    function Claimed(kind: RecordKind): u64 {
      match kind
      case Invoice => invoicesTotal
      case Receipt => receiptsTotal
      case CreditNote => creditNotesTotal
      case WriteOff => writeOffsTotal
    }

    function Equation(): ArRollForward {
      ArRollForward(arOpen, invoicesTotal, arClose, receiptsTotal, creditNotesTotal, writeOffsTotal)
    }
  }

  function WrappingAdd(a: u64, b: u64): u64 {
    (a + b) % U64_SIZE
  }

  function Slot(kind: RecordKind): (k: nat)
    ensures k < 4
  {
    match kind
    case Invoice => 0
    case Receipt => 1
    case CreditNote => 2
    case WriteOff => 3
  }

  function KindWeight(kind: RecordKind): AccountingRecord -> nat {
    (r: AccountingRecord) => if r.kind == kind then r.value else 0
  }

  /** The true total of a kind. */
  function KindTotal(records: seq<AccountingRecord>, kind: RecordKind): nat {
    Total(records, KindWeight(kind))
  }

  /** The claimed total is the true one modulo 2^64. */
  predicate Tallies(records: seq<AccountingRecord>, summary: PopulationSummary, kind: RecordKind) {
    KindTotal(records, kind) % U64_SIZE == summary.Claimed(kind)
  }

  /** What the check decides: every kind tallies and the claimed totals satisfy the roll-forward. */
  predicate Holds(records: seq<AccountingRecord>, summary: PopulationSummary) {
    && Tallies(records, summary, Invoice)
    && Tallies(records, summary, Receipt)
    && Tallies(records, summary, CreditNote)
    && Tallies(records, summary, WriteOff)
    && summary.Equation().Verify().Ok?
  }

  /** The claim about one slot of the running totals. */
  predicate Runs(total: u64, records: seq<AccountingRecord>, kind: RecordKind) {
    total == KindTotal(records, kind) % U64_SIZE
  }

  /** One more record moves the running total of its own kind only. */
  lemma RunsOn(total: u64, records: seq<AccountingRecord>, i: nat, kind: RecordKind)
    requires i < |records| && Runs(total, records[..i], kind)
    ensures Runs(if records[i].kind == kind then WrappingAdd(total, records[i].value) else total,
                 records[..i + 1], kind)
  {
    assert records[..i + 1] == records[..i] + [records[i]];
    TotalPush(records[..i], records[i], KindWeight(kind));
  }

  method RollForwardHolds(records: seq<AccountingRecord>, summary: PopulationSummary) returns (r: bool)
    ensures r == Holds(records, summary)
    ensures r <==>
              && KindTotal(records, Invoice) % U64_SIZE == summary.invoicesTotal
              && KindTotal(records, Receipt) % U64_SIZE == summary.receiptsTotal
              && KindTotal(records, CreditNote) % U64_SIZE == summary.creditNotesTotal
              && KindTotal(records, WriteOff) % U64_SIZE == summary.writeOffsTotal
              && summary.arOpen + summary.invoicesTotal
                 == summary.arClose + summary.receiptsTotal + summary.creditNotesTotal + summary.writeOffsTotal
                 <= U64_MAX
  {
    var totals := new u64[4](_ => 0);
    for i := 0 to |records|
      invariant Runs(totals[0], records[..i], Invoice)
      invariant Runs(totals[1], records[..i], Receipt)
      invariant Runs(totals[2], records[..i], CreditNote)
      invariant Runs(totals[3], records[..i], WriteOff)
    {
      RunsOn(totals[0], records, i, Invoice);
      RunsOn(totals[1], records, i, Receipt);
      RunsOn(totals[2], records, i, CreditNote);
      RunsOn(totals[3], records, i, WriteOff);
      var k := Slot(records[i].kind);
      totals[k] := WrappingAdd(totals[k], records[i].value);
    }
    assert records[..|records|] == records;
    if totals[0] != summary.invoicesTotal
       || totals[1] != summary.receiptsTotal
       || totals[2] != summary.creditNotesTotal
       || totals[3] != summary.writeOffsTotal
    {
      return false;
    }
    return summary.Equation().Verify().Ok?;
  }

  /** What a total of a kind is: the sum of the values of the records of that kind, and of no others. */
  lemma KindTotalPush(records: seq<AccountingRecord>, r: AccountingRecord, kind: RecordKind)
    ensures KindTotal([], kind) == 0
    ensures KindTotal(records + [r], kind) == KindTotal(records, kind) + if r.kind == kind then r.value else 0
  {
    TotalPush(records, r, KindWeight(kind));
  }

  /** A clean population passes: true totals that fit 64 bits and satisfy the equation. */
  lemma CleanPopulationHolds(records: seq<AccountingRecord>, summary: PopulationSummary)
    requires KindTotal(records, Invoice) == summary.invoicesTotal
    requires KindTotal(records, Receipt) == summary.receiptsTotal
    requires KindTotal(records, CreditNote) == summary.creditNotesTotal
    requires KindTotal(records, WriteOff) == summary.writeOffsTotal
    ensures Holds(records, summary) <==>
              summary.arOpen + summary.invoicesTotal
              == summary.arClose + summary.receiptsTotal + summary.creditNotesTotal + summary.writeOffsTotal
              <= U64_MAX
  {
  }

  // ---------------------------------------------------------------- single faults

  /** Adding a 64-bit value changes a wrapped total exactly when it is not zero; so does taking it away. */
  lemma WrapSeesValue(total: nat, v: u64)
    ensures (total + v) % U64_SIZE == total % U64_SIZE <==> v == 0
  {
  }

  lemma WrapSeesExchange(total: nat, total': nat, v: u64, w: u64)
    requires total + v == total' + w
    ensures total % U64_SIZE == total' % U64_SIZE <==> v == w
  {
  }

  /** Altering one value is always detected. */
  lemma AlteredValueDetected(records: seq<AccountingRecord>, summary: PopulationSummary, i: nat, v: u64)
    requires i < |records| && v != records[i].value && Holds(records, summary)
    ensures !Holds(records[i := records[i].(value := v)], summary)
  {
    var r := records[i];
    TotalUpdate(records, i, r.(value := v), KindWeight(r.kind));
    WrapSeesExchange(KindTotal(records[i := r.(value := v)], r.kind), KindTotal(records, r.kind), r.value, v);
    assert !Tallies(records[i := r.(value := v)], summary, r.kind);
  }

  /** Omitting a record is detected exactly when its value is not zero. */
  lemma OmissionDetectedIff(records: seq<AccountingRecord>, summary: PopulationSummary, i: nat)
    requires i < |records| && Holds(records, summary)
    ensures Holds(Without(records, i), summary) <==> records[i].value == 0
  {
    forall kind ensures Tallies(Without(records, i), summary, kind) <==> KindWeight(kind)(records[i]) == 0 {
      TotalWithout(records, i, KindWeight(kind));
      WrapSeesValue(KindTotal(Without(records, i), kind), KindWeight(kind)(records[i]));
      assert Tallies(records, summary, kind);
    }
    assert Tallies(Without(records, i), summary, records[i].kind) <==> records[i].value == 0;
  }

  /** Duplicating a record is detected exactly when its value is not zero. */
  lemma DuplicationDetectedIff(records: seq<AccountingRecord>, summary: PopulationSummary, i: nat)
    requires i < |records| && Holds(records, summary)
    ensures Holds(records + [records[i]], summary) <==> records[i].value == 0
  {
    forall kind ensures Tallies(records + [records[i]], summary, kind) <==> KindWeight(kind)(records[i]) == 0 {
      TotalPush(records, records[i], KindWeight(kind));
      WrapSeesValue(KindTotal(records, kind), KindWeight(kind)(records[i]));
      assert Tallies(records, summary, kind);
    }
    assert Tallies(records + [records[i]], summary, records[i].kind) <==> records[i].value == 0;
  }

  /** Booking a record under another kind is detected exactly when its value is not zero. */
  lemma RekindingDetectedIff(records: seq<AccountingRecord>, summary: PopulationSummary, i: nat, kind': RecordKind)
    requires i < |records| && kind' != records[i].kind && Holds(records, summary)
    ensures Holds(records[i := records[i].(kind := kind')], summary) <==> records[i].value == 0
  {
    var r := records[i];
    var r' := r.(kind := kind');
    var changed := records[i := r'];
    forall kind ensures Tallies(changed, summary, kind) <==> KindWeight(kind)(r) == KindWeight(kind)(r') {
      TotalUpdate(records, i, r', KindWeight(kind));
      WrapSeesExchange(KindTotal(changed, kind), KindTotal(records, kind), KindWeight(kind)(r), KindWeight(kind)(r'));
      assert Tallies(records, summary, kind);
    }
    assert Tallies(changed, summary, r.kind) <==> r.value == 0;
    assert Tallies(changed, summary, kind') <==> r.value == 0;
  }

  /** The order of the records is not checked. */
  lemma PermutationUndetected(records: seq<AccountingRecord>, permuted: seq<AccountingRecord>,
                              summary: PopulationSummary)
    requires multiset(records) == multiset(permuted)
    ensures Holds(permuted, summary) == Holds(records, summary)
  {
    forall kind ensures KindTotal(permuted, kind) == KindTotal(records, kind) {
      TotalPermutes(records, permuted, KindWeight(kind));
    }
  }

  // ---------------------------------------------------------------- the origin boundary

  /** The records with invoice `i` and receipt `j` both raised by `delta`. */
  function Raised(records: seq<AccountingRecord>, i: nat, j: nat, delta: nat): seq<AccountingRecord>
    requires i < |records| && j < |records| && i != j
    requires records[i].value + delta <= U64_MAX && records[j].value + delta <= U64_MAX
  {
    records[i := records[i].(value := records[i].value + delta)][j := records[j].(value := records[j].value + delta)]
  }

  lemma RaisedTotals(records: seq<AccountingRecord>, i: nat, j: nat, delta: nat, kind: RecordKind)
    requires i < |records| && j < |records| && records[i].kind == Invoice && records[j].kind == Receipt
    requires records[i].value + delta <= U64_MAX && records[j].value + delta <= U64_MAX
    ensures KindTotal(Raised(records, i, j, delta), kind)
         == KindTotal(records, kind) + if kind == Invoice || kind == Receipt then delta else 0
  {
    var r, s := records[i].(value := records[i].value + delta), records[j].(value := records[j].value + delta);
    TotalUpdate(records, i, r, KindWeight(kind));
    TotalUpdate(records[i := r], j, s, KindWeight(kind));
  }

  /** A falsehood entered consistently at the origin is not detected: raising an invoice and a receipt by one
      amount, with their two totals, passes exactly when both sides of the equation still fit 64 bits. */
  lemma OriginFalsehoodUndetectedIff(records: seq<AccountingRecord>, summary: PopulationSummary, i: nat, j: nat,
                                     delta: nat)
    requires i < |records| && j < |records| && records[i].kind == Invoice && records[j].kind == Receipt
    requires records[i].value + delta <= U64_MAX && records[j].value + delta <= U64_MAX
    requires summary.invoicesTotal + delta <= U64_MAX && summary.receiptsTotal + delta <= U64_MAX
    requires Holds(records, summary)
    ensures var claimed := summary.(invoicesTotal := summary.invoicesTotal + delta,
                                    receiptsTotal := summary.receiptsTotal + delta);
            Holds(Raised(records, i, j, delta), claimed)
            <==> summary.arOpen + summary.invoicesTotal + delta <= U64_MAX
  {
    var claimed := summary.(invoicesTotal := summary.invoicesTotal + delta,
                            receiptsTotal := summary.receiptsTotal + delta);
    forall kind ensures Tallies(Raised(records, i, j, delta), claimed, kind) {
      assert Tallies(records, summary, kind);
      RaisedTotals(records, i, j, delta, kind);
      WrapRaise(KindTotal(records, kind), summary.Claimed(kind), claimed.Claimed(kind) - summary.Claimed(kind));
    }
  }

  lemma WrapRaise(total: nat, claimed: nat, delta: nat)
    requires total % U64_SIZE == claimed && claimed + delta <= U64_MAX
    ensures (total + delta) % U64_SIZE == claimed + delta
  {
  }
}
