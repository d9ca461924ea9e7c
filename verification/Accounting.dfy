/** The five accounting equations, recomputed with checked 64-bit additions. */
module Accounting {
  import opened Wrappers
  import opened Bsv
  import opened Sums

  datatype AccountingError = EquationDoesNotHold | Overflow

  const U64_MAX: nat := 0xFFFF_FFFF_FFFF_FFFF

  function CheckedAdd(a: u64, b: u64): Result<u64, AccountingError> {
    if a + b <= U64_MAX then Ok(a + b) else Err(Overflow)
  }

  /** The verdict over unbounded arithmetic: overflow exactly when a true total does not fit. */
  function ExactVerdict(lhs: nat, rhs: nat): Result<Unit, AccountingError> {
    if lhs > U64_MAX || rhs > U64_MAX then Err(Overflow)
    else if lhs == rhs then Ok(Unit)
    else Err(EquationDoesNotHold)
  }

  function Amount(x: u64): nat {
    x
  }

  datatype InvoiceTotal = InvoiceTotal(net: u64, tax: u64, discount: u64, gross: u64) {

    function Verify(): (r: Result<Unit, AccountingError>)
      ensures r == ExactVerdict(net + tax, gross + discount)
      ensures r.Ok? <==> net + tax == gross + discount <= U64_MAX
      ensures r == Err(Overflow) <==> net + tax > U64_MAX || gross + discount > U64_MAX
      ensures r == Err(EquationDoesNotHold) <==>
                && net + tax != gross + discount
                && net + tax <= U64_MAX && gross + discount <= U64_MAX
    {
      var lhs :- CheckedAdd(net, tax);
      var rhs :- CheckedAdd(gross, discount);
      if lhs == rhs then Ok(Unit) else Err(EquationDoesNotHold)
    }
  }

  datatype ArRollForward = ArRollForward(
    arOpen: u64,
    invoices: u64,
    arClose: u64,
    receipts: u64,
    creditNotes: u64,
    writeOffs: u64)
  {

    function Verify(): (r: Result<Unit, AccountingError>)
      ensures r == ExactVerdict(arOpen + invoices, arClose + receipts + creditNotes + writeOffs)
      ensures r.Ok? <==> arOpen + invoices == arClose + receipts + creditNotes + writeOffs <= U64_MAX
      ensures r == Err(Overflow) <==>
                arOpen + invoices > U64_MAX || arClose + receipts + creditNotes + writeOffs > U64_MAX
      ensures r == Err(EquationDoesNotHold) <==>
                && arOpen + invoices != arClose + receipts + creditNotes + writeOffs
                && arOpen + invoices <= U64_MAX && arClose + receipts + creditNotes + writeOffs <= U64_MAX
    {
      var lhs :- CheckedAdd(arOpen, invoices);
      var withReceipts :- CheckedAdd(arClose, receipts);
      var withCreditNotes :- CheckedAdd(withReceipts, creditNotes);
      var rhs :- CheckedAdd(withCreditNotes, writeOffs);
      if lhs == rhs then Ok(Unit) else Err(EquationDoesNotHold)
    }
  }

  datatype DebitsCredits = DebitsCredits(debits: seq<u64>, credits: seq<u64>) {

    method Verify() returns (r: Result<Unit, AccountingError>)
      ensures r == ExactVerdict(Total(debits, Amount), Total(credits, Amount))
      ensures r.Ok? <==> Total(debits, Amount) == Total(credits, Amount) <= U64_MAX
      ensures r == Err(Overflow) <==> Total(debits, Amount) > U64_MAX || Total(credits, Amount) > U64_MAX
      ensures r == Err(EquationDoesNotHold) <==>
                && Total(debits, Amount) != Total(credits, Amount)
                && Total(debits, Amount) <= U64_MAX && Total(credits, Amount) <= U64_MAX
    {
      var lhs: u64 := 0;
      for i := 0 to |debits|
        invariant lhs == Total(debits[..i], Amount)
      {
        StepOfTotal(debits, i);
        var sum := CheckedAdd(lhs, debits[i]);
        if sum.Err? {
          return Err(Overflow);
        }
        lhs := sum.value;
      }
      var rhs: u64 := 0;
      assert debits[..|debits|] == debits;
      for i := 0 to |credits|
        invariant rhs == Total(credits[..i], Amount)
      {
        StepOfTotal(credits, i);
        var sum := CheckedAdd(rhs, credits[i]);
        if sum.Err? {
          return Err(Overflow);
        }
        rhs := sum.value;
      }
      assert credits[..|credits|] == credits;
      return if lhs == rhs then Ok(Unit) else Err(EquationDoesNotHold);
    }
  }

  /** One addition extends the running total, which never exceeds the whole. */
  lemma StepOfTotal(s: seq<u64>, i: nat)
    requires i < |s|
    ensures Total(s[..i + 1], Amount) == Total(s[..i], Amount) + s[i]
    ensures Total(s[..i + 1], Amount) <= Total(s, Amount)
  {
    assert s[..i + 1][..i] == s[..i];
    TotalPrefix(s, i + 1, Amount);
  }

  datatype BankReconciliation = BankReconciliation(bookCash: u64, reconcilingItems: seq<u64>, bankBalance: u64) {

    method Verify() returns (r: Result<Unit, AccountingError>)
      ensures r == ExactVerdict(bookCash + Total(reconcilingItems, Amount), bankBalance)
      ensures r.Ok? <==> bookCash + Total(reconcilingItems, Amount) == bankBalance <= U64_MAX
      ensures r == Err(Overflow) <==> bookCash + Total(reconcilingItems, Amount) > U64_MAX || bankBalance > U64_MAX
      ensures r == Err(EquationDoesNotHold) <==>
                && bookCash + Total(reconcilingItems, Amount) != bankBalance
                && bookCash + Total(reconcilingItems, Amount) <= U64_MAX && bankBalance <= U64_MAX
    {
      var lhs := bookCash;
      for i := 0 to |reconcilingItems|
        invariant lhs == bookCash + Total(reconcilingItems[..i], Amount)
      {
        StepOfTotal(reconcilingItems, i);
        var sum := CheckedAdd(lhs, reconcilingItems[i]);
        if sum.Err? {
          return Err(Overflow);
        }
        lhs := sum.value;
      }
      assert reconcilingItems[..|reconcilingItems|] == reconcilingItems;
      return if lhs == bankBalance then Ok(Unit) else Err(EquationDoesNotHold);
    }
  }

  datatype VatPayable = VatPayable(outputVat: u64, inputVat: u64, vatPayable: u64) {

    function Verify(): (r: Result<Unit, AccountingError>)
      ensures r == ExactVerdict(outputVat, vatPayable + inputVat)
      ensures r.Ok? <==> outputVat == vatPayable + inputVat <= U64_MAX
      ensures r == Err(Overflow) <==> outputVat > U64_MAX || vatPayable + inputVat > U64_MAX
      ensures r == Err(EquationDoesNotHold) <==>
                && outputVat != vatPayable + inputVat
                && outputVat <= U64_MAX && vatPayable + inputVat <= U64_MAX
    {
      var rhs :- CheckedAdd(vatPayable, inputVat);
      if outputVat == rhs then Ok(Unit) else Err(EquationDoesNotHold)
    }
  }

  /** Reordering records on either side never changes the exact verdict. */
  lemma ReorderingKeepsVerdict(debits: seq<u64>, credits: seq<u64>, debits': seq<u64>, credits': seq<u64>)
    requires multiset(debits) == multiset(debits') && multiset(credits) == multiset(credits')
    ensures ExactVerdict(Total(debits, Amount), Total(credits, Amount))
         == ExactVerdict(Total(debits', Amount), Total(credits', Amount))
  {
    TotalPermutes(debits, debits', Amount);
    TotalPermutes(credits, credits', Amount);
  }

  /** The same for the items of a reconciliation. */
  lemma ReorderingKeepsReconciliation(bookCash: u64, items: seq<u64>, items': seq<u64>, bankBalance: u64)
    requires multiset(items) == multiset(items')
    ensures ExactVerdict(bookCash + Total(items, Amount), bankBalance)
         == ExactVerdict(bookCash + Total(items', Amount), bankBalance)
  {
    TotalPermutes(items, items', Amount);
  }
}
