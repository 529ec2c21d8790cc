/** The per-row bookkeeping of `FinancialParser` in `src/parser.py`: a row is validated as a
    `RawTransaction`, its date and amount are normalised, its merchant is normalised and its
    category inferred, and a `CleanTransaction` is built; any failure is caught, counted and
    recorded. The four normalisers are not part of this model: the parser holds them as
    given functions. */
module Parser {
  import opened Results
  import opened Text
  import opened Validators

  /** A CSV row as `row.to_dict()` gives it, every cell read as text. */
  type Row = map<string, string>

  /** What the amount normaliser returns: the amount (`None` when it cannot parse the text),
      the currency code and whether the amount was negative. */
  datatype AmountParse = AmountParse(amount: Option<Decimal>, currency: string, isNegative: bool)

  /** The date, amount and merchant normalisers and the category inferencer. */
  datatype Normalizers = Normalizers(
    date: string -> Option<DateTime>,
    amount: string -> AmountParse,
    merchant: string -> string,
    category: (string, string) -> string)

  /** Why a row failed; each stands for the exception `parse_transaction` catches. */
  datatype ParseFailure =
    | InvalidRaw(errors: seq<FieldError>)     // the `RawTransaction` was rejected
    | UnparsedDate(date: string)              // "Could not parse date: ..."
    | UnparsedAmount(amount: string)          // "Could not parse amount: ..."
    | InvalidClean(errors: seq<FieldError>)   // the `CleanTransaction` was rejected

  /** What `parse_transaction` makes of one row: the clean record or the failure. */
  type Outcome = Result<CleanTransaction, ParseFailure>

  /** An entry of `stats['errors']`: the row number and what went wrong with it. */
  datatype RowError = RowError(row: int, cause: ParseFailure)

  /** `str(row.get(key, ''))` */
  function Cell(row: Row, key: string): (r: string)
    ensures key in row ==> r == row[key]
    ensures key !in row ==> r == ""
  {
    if key in row then row[key] else ""
  }

  /** `row.get('Merchant', row.get('Merchant Name', ''))` */
  function MerchantCell(row: Row): (r: string)
    ensures "Merchant" in row ==> r == row["Merchant"]
    ensures "Merchant" !in row ==> r == Cell(row, "Merchant Name")
  {
    if "Merchant" in row then row["Merchant"] else Cell(row, "Merchant Name")
  }

  /** The `RawTransaction` a row is read as. */
  function RawOf(row: Row): (r: Result<RawTransaction, seq<FieldError>>)
    ensures r.Ok? <==> Strip(Cell(row, "Date")) != [] && Strip(Cell(row, "Amount")) != []
    ensures r.Ok? ==> r.value.date == Strip(Cell(row, "Date")) && r.value.amount == Strip(Cell(row, "Amount"))
    ensures r.Ok? ==> r.value.merchantName == MerchantOrUnknown(MerchantCell(row))
    ensures r.Ok? ==> r.value.category == Trim(Cell(row, "Category"))
    ensures r.Ok? && "Merchant" !in row && "Merchant Name" !in row ==> r.value.merchantName == UnknownMerchant
  {
    ValidateRaw(Cell(row, "Date"), MerchantCell(row), Cell(row, "Amount"), Some(Cell(row, "Category")))
  }

  /** The row gets past the raw validation and the date and amount normalisers, which is when
      `normalizations` is counted. */
  predicate Normalizes(row: Row, n: Normalizers) {
    var raw := RawOf(row);
    raw.Ok? && n.date(raw.value.date).Some? && n.amount(raw.value.amount).amount.Some?
  }

  /** The arguments `parse_transaction` passes to `CleanTransaction(...)`. The raw merchant
      name is the one length-checked and sanitised; currency, category and refund flag are
      always passed, so their defaults never apply; the anomaly fields are never passed. */
  function CleanInputOf(raw: RawTransaction, date: DateTime, amount: Decimal, n: Normalizers): (r: CleanInput)
    ensures r.date == date && r.amount == amount
    ensures r.merchantName == raw.merchantName && r.normalizedMerchant == n.merchant(raw.merchantName)
    ensures r.currency == Some(n.amount(raw.amount).currency) && r.isRefund == Some(n.amount(raw.amount).isNegative)
    ensures r.category == Some(n.category(r.normalizedMerchant, raw.category))
    ensures r.isAnomaly.None? && r.anomalyReason.None?
  {
    var parsed := n.amount(raw.amount);
    var merchant := n.merchant(raw.merchantName);
    CleanInput(date, raw.merchantName, merchant, amount, Some(parsed.currency),
               Some(n.category(merchant, raw.category)), Some(parsed.isNegative), None, None)
  }

  /** The arguments `parse_transaction` passes to `CleanTransaction(...)` for a row whose
      date and amount normalise. */
  function RowCleanInput(row: Row, n: Normalizers): (r: CleanInput)
    requires Normalizes(row, n)
    ensures Some(r.date) == n.date(Strip(Cell(row, "Date")))
    ensures Some(r.amount) == n.amount(Strip(Cell(row, "Amount"))).amount
    ensures r.merchantName == MerchantOrUnknown(MerchantCell(row))
    ensures r.normalizedMerchant == n.merchant(r.merchantName)
    ensures r.category == Some(n.category(r.normalizedMerchant, Trim(Cell(row, "Category"))))
    ensures r.currency == Some(n.amount(Strip(Cell(row, "Amount"))).currency)
    ensures r.isRefund == Some(n.amount(Strip(Cell(row, "Amount"))).isNegative)
  {
    var raw := RawOf(row).value;
    CleanInputOf(raw, n.date(raw.date).value, n.amount(raw.amount).amount.value, n)
  }

  /** The outcome of `parse_transaction` on one row: the clean record, or the failure that
      `stats['errors']` records. */
  function ParseRow(row: Row, n: Normalizers): (r: Outcome)
    ensures r.Ok? <==> Normalizes(row, n) && FailingCleanFields(RowCleanInput(row, n)) == {}
    ensures r.Err? && r.error.InvalidRaw? <==> RawOf(row).Err?
    ensures r.Err? && r.error.InvalidRaw? ==> r.error.errors == RawOf(row).error
    ensures r.Err? && r.error.UnparsedDate? <==>
              RawOf(row).Ok? && n.date(RawOf(row).value.date).None?
    ensures r.Err? && r.error.UnparsedAmount? <==>
              RawOf(row).Ok? && n.date(RawOf(row).value.date).Some?
              && n.amount(RawOf(row).value.amount).amount.None?
    ensures r.Err? && r.error.InvalidClean? ==>
              Normalizes(row, n) && FieldsOf(r.error.errors) == FailingCleanFields(RowCleanInput(row, n))
    ensures r.Err? && r.error.InvalidClean? ==>
              Normalizes(row, n) && r.error.errors == CleanErrors(RowCleanInput(row, n))
    ensures r.Err? && r.error.UnparsedDate? ==> RawOf(row).Ok? && r.error.date == RawOf(row).value.date
    ensures r.Err? && r.error.UnparsedAmount? ==> RawOf(row).Ok? && r.error.amount == RawOf(row).value.amount
    ensures Strip(Cell(row, "Date")) == [] ==> r.Err? && r.error.InvalidRaw? && DateField in FieldsOf(r.error.errors)
    ensures Strip(Cell(row, "Amount")) == [] ==> r.Err? && r.error.InvalidRaw? && AmountField in FieldsOf(r.error.errors)
    ensures r.Ok? ==>
              var raw := RawOf(row).value;
              var parsed := n.amount(raw.amount);
              var merchant := n.merchant(raw.merchantName);
              Some(r.value.date) == n.date(raw.date) && Some(r.value.amount) == parsed.amount
              && r.value.isRefund == parsed.isNegative && r.value.currency == parsed.currency
              && r.value.normalizedMerchant == merchant
              && r.value.category == n.category(merchant, raw.category)
              && r.value.merchantName == SanitizedMerchantName(raw.merchantName)
              && !r.value.isAnomaly && r.value.anomalyReason.None?
  {
    var raw := RawOf(row);
    if raw.Err? then Err(InvalidRaw(raw.error))
    else
      var date := n.date(raw.value.date);
      if date.None? then Err(UnparsedDate(raw.value.date))
      else
        var amount := n.amount(raw.value.amount).amount;
        if amount.None? then Err(UnparsedAmount(raw.value.amount))
        else
          var clean := ValidateClean(CleanInputOf(raw.value, date.value, amount.value, n));
          if clean.Err? then Err(InvalidClean(clean.error)) else Ok(clean.value)
  }

  /** The outcomes after which `normalizations` has been counted: the date and amount were
      normalised, so the row either succeeded or failed only at the `CleanTransaction`. */
  predicate Reached(p: Outcome) {
    p.Ok? || p.error.InvalidClean?
  }

  /** `normalizations` is counted for a row exactly when its raw record is valid and its date
      and amount normalise. */
  lemma NormalizedIffReached(row: Row, n: Normalizers)
    ensures Reached(ParseRow(row, n)) <==> Normalizes(row, n)
  {
    var raw := RawOf(row);
    if raw.Ok? && n.date(raw.value.date).Some? && n.amount(raw.value.amount).amount.Some? {
      var date := n.date(raw.value.date).value;
      var amount := n.amount(raw.value.amount).amount.value;
      var clean := ValidateClean(CleanInputOf(raw.value, date, amount, n));
      assert ParseRow(row, n) == if clean.Err? then Err(InvalidClean(clean.error)) else Ok(clean.value);
    }
  }

  /** The outcome of each row, in row order. */
  function Outcomes(rows: seq<Row>, parse: Row -> Outcome): (r: seq<Outcome>)
    ensures |r| == |rows|
    ensures forall k :: 0 <= k < |rows| ==> r[k] == parse(rows[k])
  {
    seq(|rows|, k requires 0 <= k < |rows| => parse(rows[k]))
  }

  /** The records of the successful outcomes, in order. */
  function Kept(outs: seq<Outcome>): seq<CleanTransaction> {
    if outs == [] then []
    else Kept(outs[..|outs| - 1]) + (if outs[|outs| - 1].Ok? then [outs[|outs| - 1].value] else [])
  }

  /** The failed outcomes, in order, under their row numbers, the first row numbered `first`. */
  function Failed(outs: seq<Outcome>, first: int): seq<RowError> {
    if outs == [] then []
    else
      Failed(outs[..|outs| - 1], first)
        + (if outs[|outs| - 1].Err? then [RowError(first + |outs| - 1, outs[|outs| - 1].error)] else [])
  }

  /** How many outcomes got past the date and amount normalisers (the `normalizations` they
      add). */
  function ReachedCount(outs: seq<Outcome>): nat {
    if outs == [] then 0
    else ReachedCount(outs[..|outs| - 1]) + (if Reached(outs[|outs| - 1]) then 1 else 0)
  }

  /** Every successful row was normalised, and no row is normalised more than once. */
  lemma {:induction false} ReachedBounds(outs: seq<Outcome>)
    ensures |Kept(outs)| <= ReachedCount(outs) <= |outs|
  {
    if outs != [] {
      ReachedBounds(outs[..|outs| - 1]);
    }
  }

  /** Every outcome is either kept or failed. */
  lemma {:induction false} KeptAndFailedPartition(outs: seq<Outcome>, first: int)
    ensures |Kept(outs)| + |Failed(outs, first)| == |outs|
  {
    if outs != [] {
      KeptAndFailedPartition(outs[..|outs| - 1], first);
    }
  }

  /** One more outcome: its record is kept, or its failure is listed under the next row
      number. */
  lemma OutcomeStep(outs: seq<Outcome>, p: Outcome, first: int)
    ensures Kept(outs + [p]) == Kept(outs) + (if p.Ok? then [p.value] else [])
    ensures Failed(outs + [p], first)
              == Failed(outs, first) + (if p.Err? then [RowError(first + |outs|, p.error)] else [])
    ensures ReachedCount(outs + [p]) == ReachedCount(outs) + (if Reached(p) then 1 else 0)
  {
    assert (outs + [p])[..|outs|] == outs;
  }

  /** The error list after one more outcome. */
  lemma ErrorsStep(before: seq<RowError>, outs: seq<Outcome>, p: Outcome, first: int)
    ensures (before + Failed(outs, first)) + (if p.Err? then [RowError(first + |outs|, p.error)] else [])
            == before + Failed(outs + [p], first)
  {
    OutcomeStep(outs, p, first);
  }

  /** Two runs of outcomes one after the other keep the records of each, in order. */
  lemma {:induction false} KeptAppend(a: seq<Outcome>, b: seq<Outcome>)
    ensures Kept(a + b) == Kept(a) + Kept(b)
    decreases |b|
  {
    if b == [] {
      assert a + b == a;
    } else {
      var b' := b[..|b| - 1];
      assert (a + b)[..|a + b| - 1] == a + b';
      KeptAppend(a, b');
    }
  }

  /** The failures of two runs are those of each, the second numbered on from the first. */
  lemma {:induction false} FailedAppend(a: seq<Outcome>, b: seq<Outcome>, first: int)
    ensures Failed(a + b, first) == Failed(a, first) + Failed(b, first + |a|)
    decreases |b|
  {
    if b == [] {
      assert a + b == a;
    } else {
      var b' := b[..|b| - 1];
      assert (a + b)[..|a + b| - 1] == a + b';
      FailedAppend(a, b', first);
    }
  }

  /** When every outcome is a success, the records are exactly the outcomes' records. */
  lemma {:induction false} KeptAllOk(outs: seq<Outcome>)
    requires forall k :: 0 <= k < |outs| ==> outs[k].Ok?
    ensures |Kept(outs)| == |outs|
    ensures forall k :: 0 <= k < |outs| ==> Kept(outs)[k] == outs[k].value
  {
    if outs != [] {
      KeptAllOk(outs[..|outs| - 1]);
    }
  }

  /** Each failure names an outcome of the run by its row number, and the row numbers strictly
      increase. */
  lemma {:induction false} FailedRowNumbers(outs: seq<Outcome>, first: int)
    ensures forall e :: e in Failed(outs, first) ==>
              first <= e.row < first + |outs| && outs[e.row - first] == Err(e.cause)
    ensures forall j, k :: 0 <= j < k < |Failed(outs, first)| ==> Failed(outs, first)[j].row < Failed(outs, first)[k].row
  {
    if outs != [] {
      var init := outs[..|outs| - 1];
      FailedRowNumbers(init, first);
      var f0 := Failed(init, first);
      var f := Failed(outs, first);
      assert forall e :: e in f0 ==> outs[e.row - first] == init[e.row - first];
    }
  }

  /** Parsing the rows of two files one after the other keeps the clean records of each, in
      order, and numbers the failures of the second on from the first. */
  lemma ParseRowsAppend(a: seq<Row>, b: seq<Row>, first: int, parse: Row -> Outcome)
    ensures Kept(Outcomes(a + b, parse)) == Kept(Outcomes(a, parse)) + Kept(Outcomes(b, parse))
    ensures Failed(Outcomes(a + b, parse), first)
            == Failed(Outcomes(a, parse), first) + Failed(Outcomes(b, parse), first + |a|)
  {
    assert Outcomes(a + b, parse) == Outcomes(a, parse) + Outcomes(b, parse);
    KeptAppend(Outcomes(a, parse), Outcomes(b, parse));
    FailedAppend(Outcomes(a, parse), Outcomes(b, parse), first);
  }

  /** `parse` gives every row the outcome `ParseRow` gives it with the normalisers `n`. */
  ghost predicate ParsesWith(parse: Row -> Outcome, n: Normalizers) {
    forall row :: parse(row) == ParseRow(row, n)
  }

  /** The parser and its `stats` counters. `parse` is the row parse its normalisers
      determine. */
  class FinancialParser {
    const normalizers: Normalizers
    const parse: Row -> Outcome
    var totalRows: nat
    var successfulParses: nat
    var failedParses: nat
    var normalizations: nat
    var errors: seq<RowError>

    /** The counters agree and `parse` is the row parse of the normalisers. */
    ghost predicate Valid()
      reads this
    {
      CountersAgree() && ParsesWith(parse, normalizers)
    }

    /** `errors` holds one entry per failed row, and `normalizations` counts every successful
        row and at most the failed ones. */
    predicate CountersAgree()
      reads this
    {
      |errors| == failedParses
      && successfulParses <= normalizations <= successfulParses + failedParses
    }

    /** A fresh parser: every counter at zero and no errors. */
    constructor (n: Normalizers)
      ensures Valid()
      ensures normalizers == n && forall row :: parse(row) == ParseRow(row, n)
      ensures totalRows == 0 && successfulParses == 0 && failedParses == 0 && normalizations == 0
      ensures errors == []
    {
      normalizers := n;
      parse := row => ParseRow(row, n);
      totalRows := 0;
      successfulParses := 0;
      failedParses := 0;
      normalizations := 0;
      errors := [];
    }

    /** The `except` branch: count the failure and record it. */
    method RecordFailure(rowNum: int, cause: ParseFailure)
      modifies this
      ensures failedParses == old(failedParses) + 1
      ensures errors == old(errors) + [RowError(rowNum, cause)]
      ensures totalRows == old(totalRows) && successfulParses == old(successfulParses)
      ensures normalizations == old(normalizations)
    {
      failedParses := failedParses + 1;
      errors := errors + [RowError(rowNum, cause)];
    }

    /** `parse_transaction(row, row_num)`: exactly one of the success and failure counters goes
        up, a failure is recorded under its row number, and `normalizations` goes up once the
        date and amount have been normalised. */
    method ParseTransaction(row: Row, rowNum: int) returns (r: Option<CleanTransaction>)
      requires CountersAgree()
      modifies this
      ensures CountersAgree()
      ensures parse(row).Ok? ==> r == Some(parse(row).value)
      ensures parse(row).Err? ==> r == None
      ensures successfulParses == old(successfulParses) + (if r.Some? then 1 else 0)
      ensures failedParses == old(failedParses) + (if r.None? then 1 else 0)
      ensures normalizations == old(normalizations) + (if Reached(parse(row)) then 1 else 0)
      ensures errors == old(errors) + (if parse(row).Err? then [RowError(rowNum, parse(row).error)] else [])
      ensures totalRows == old(totalRows)
    {
      var outcome := parse(row);
      if Reached(outcome) {
        normalizations := normalizations + 1;
      }
      if outcome.Ok? {
        successfulParses := successfulParses + 1;
        r := Some(outcome.value);
      } else {
        RecordFailure(rowNum, outcome.error);
        r := None;
      }
    }

    /** The row loop of `parse_file`: `total_rows` becomes the number of rows, and the clean
        records of the rows come back in row order, row `idx` numbered `idx + 2` (the header is
        line 1). The counters keep what earlier files added. */
    method ParseFile(rows: seq<Row>) returns (clean: seq<CleanTransaction>)
      requires CountersAgree()
      modifies this
      ensures CountersAgree()
      ensures clean == Kept(Outcomes(rows, parse))
      ensures totalRows == |rows|
      ensures successfulParses == old(successfulParses) + |clean|
      ensures failedParses == old(failedParses) + (|rows| - |clean|)
      ensures errors == old(errors) + Failed(Outcomes(rows, parse), 2)
      ensures normalizations == old(normalizations) + ReachedCount(Outcomes(rows, parse))
    {
      totalRows := |rows|;
      clean := [];
      ghost var outs: seq<Outcome> := [];
      var idx := 0;
      while idx < |rows|
        invariant 0 <= idx <= |rows|
        invariant CountersAgree()
        invariant totalRows == |rows|
        invariant |outs| == idx && forall k :: 0 <= k < idx ==> outs[k] == parse(rows[k])
        invariant clean == Kept(outs)
        invariant successfulParses == old(successfulParses) + |clean|
        invariant errors == old(errors) + Failed(outs, 2)
        invariant normalizations == old(normalizations) + ReachedCount(outs)
      {
        ghost var p := parse(rows[idx]);
        var txn := ParseTransaction(rows[idx], idx + 2);
        ErrorsStep(old(errors), outs, p, 2);
        OutcomeStep(outs, p, 2);
        if txn.Some? {
          clean := clean + [txn.value];
        }
        outs := outs + [p];
        idx := idx + 1;
      }
      assert outs == Outcomes(rows, parse);
      KeptAndFailedPartition(outs, 2);
    }
  }
}
