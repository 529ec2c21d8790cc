/** The pydantic schemas of `src/validators.py`: the raw record read from a CSV row, the
    clean record the pipeline produces and the summary report. Each schema is a function
    from the values given to its constructor to either the constructed record or the list
    of field errors pydantic's `ValidationError` would carry, in field declaration order. */
module Validators {
  import opened Numbers
  import opened Results
  import opened Text

  /** A timestamp, as the date normaliser produces it. */
  datatype DateTime = DateTime(year: int, month: int, day: int, hour: int, minute: int, second: int)

  /** An exact decimal number (Python's `Decimal`): `coef` times ten to the power `-exp`. */
  datatype Decimal = Decimal(coef: int, exp: nat)

  /** The schema fields that can fail validation. */
  datatype Field =
    | DateField | AmountField
    | MerchantNameField | NormalizedMerchantField | CleanAmountField | CurrencyField
    | TotalTransactionsField | AnomaliesDetectedField | MerchantsNormalizedField

  /** Why a field was rejected. */
  datatype Violation =
    | EmptyValue               // the `ValueError` of a "cannot be empty" validator
    | TooShort(min: nat)       // `min_length`
    | TooLong(max: nat)        // `max_length`
    | TooManyDecimalPlaces(max: nat)  // `decimal_places`
    | ExceedsMaximum           // the `ValueError` of `validate_amount_range`
    | PatternMismatch          // `pattern`
    | LessThan(bound: int)     // `ge`

  datatype FieldError = FieldError(field: Field, violation: Violation)

  /** The fields named by a list of errors. */
  function FieldsOf(errors: seq<FieldError>): set<Field> {
    set e | e in errors :: e.field
  }

  lemma FieldsOfAppend(a: seq<FieldError>, b: seq<FieldError>)
    ensures FieldsOf(a + b) == FieldsOf(a) + FieldsOf(b)
  {
    assert forall e :: e in a + b <==> e in a || e in b;
  }

  /** The error list of one field: empty when it passed. */
  function ErrorFor(f: Field, v: Option<Violation>): (r: seq<FieldError>)
    ensures FieldsOf(r) == if v.Some? then {f} else {}
  {
    if v.Some? then
      assert FieldError(f, v.value) in [FieldError(f, v.value)];
      [FieldError(f, v.value)]
    else []
  }

  function Abs(x: int): nat {
    if x < 0 then -x else x
  }

  // ---------------------------------------------------------------------------
  // RawTransaction

  /** The raw record; every field has been through pydantic's whitespace trim. */
  datatype RawTransaction = RawTransaction(date: string, merchantName: string, amount: string, category: string)

  /** The merchant a raw record gets when its merchant field is blank. */
  const UnknownMerchant: string := "UNKNOWN_MERCHANT"

  /** `validate_date_not_empty` and `validate_amount_not_empty`, run on the value pydantic
      has already trimmed: blank is rejected, anything else is stripped. */
  function RequireNonBlank(v: string): (r: Result<string, Violation>)
    ensures r.Ok? <==> Strip(v) != []
    ensures r.Ok? ==> r.value == Strip(v)
    ensures r.Err? ==> r.error == EmptyValue
  {
    var t := Trim(v);
    StripAfterTrim(v);
    if t == [] || Strip(t) == [] then Err(EmptyValue) else Ok(Strip(t))
  }

  /** `validate_merchant_not_empty`: a blank merchant becomes `UNKNOWN_MERCHANT`, any other
      is stripped. */
  function MerchantOrUnknown(v: string): (r: string)
    ensures r != []
    ensures Strip(v) == [] ==> r == UnknownMerchant
    ensures Strip(v) != [] ==> r == Strip(v)
  {
    var t := Trim(v);
    StripAfterTrim(v);
    if t == [] || Strip(t) == [] then UnknownMerchant else Strip(t)
  }

  /** `RawTransaction(date=..., merchant_name=..., amount=..., category=...)`; a category
      that is not passed defaults to the empty string. */
  function ValidateRaw(date: string, merchantName: string, amount: string, category: Option<string>)
    : (r: Result<RawTransaction, seq<FieldError>>)
    ensures r.Ok? <==> Strip(date) != [] && Strip(amount) != []
    ensures r.Ok? ==> r.value.date == Strip(date) && r.value.amount == Strip(amount)
    ensures r.Ok? ==> r.value.merchantName == (if Strip(merchantName) == [] then UnknownMerchant else Strip(merchantName))
    ensures r.Ok? ==> r.value.category == Trim(category.GetOr(""))
    ensures r.Err? ==> FieldsOf(r.error) == (if Strip(date) == [] then {DateField} else {}) + (if Strip(amount) == [] then {AmountField} else {})
  {
    var d := RequireNonBlank(date);
    var m := MerchantOrUnknown(merchantName);
    var a := RequireNonBlank(amount);
    if d.Ok? && a.Ok? then
      Ok(RawTransaction(d.value, m, a.value, Trim(category.GetOr(""))))
    else
      var de := ErrorFor(DateField, if d.Err? then Some(d.error) else None);
      var ae := ErrorFor(AmountField, if a.Err? then Some(a.error) else None);
      FieldsOfAppend(de, ae);
      Err(de + ae)
  }

  /** A core value that starts and ends with a non-space character. */
  predicate Unpadded(core: string) {
    core != [] && !IsSpace(core[0]) && !IsSpace(core[|core| - 1])
  }

  /** Whitespace around the raw fields is dropped (the record of `test_whitespace_stripping`
      in `tests/test_validators.py`, `"  Amazon  "` and the like). */
  lemma RawStripsPadding(date: string, merchant: string, amount: string, category: string)
    requires Unpadded(date) && Unpadded(merchant) && Unpadded(amount) && Unpadded(category)
    ensures ValidateRaw("  " + date + "  ", "  " + merchant + "  ", "  " + amount + "  ", Some("  " + category + "  "))
            == Ok(RawTransaction(date, merchant, amount, category))
  {
    PaddedStrip(date);
    PaddedStrip(merchant);
    PaddedStrip(amount);
    PaddedTrim(category);
  }

  /** Two spaces on either side of a core that starts and ends with a non-space. */
  lemma PaddedStrip(core: string)
    requires Unpadded(core)
    ensures Strip("  " + core + "  ") == core
  {
    var s := "  " + core + "  ";
    StripByCut(s, 2, 2 + |core|, IsSpace);
    assert s[2..2 + |core|] == core;
  }

  lemma PaddedTrim(core: string)
    requires Unpadded(core)
    ensures Trim("  " + core + "  ") == core
  {
    var s := "  " + core + "  ";
    StripByCut(s, 2, 2 + |core|, IsWhiteSpace);
    assert s[2..2 + |core|] == core;
  }

  // ---------------------------------------------------------------------------
  // CleanTransaction

  /** The clean record. */
  datatype CleanTransaction = CleanTransaction(
    date: DateTime,
    merchantName: string,
    normalizedMerchant: string,
    amount: Decimal,
    currency: string,
    category: string,
    isRefund: bool,
    isAnomaly: bool,
    anomalyReason: Option<string>)

  /** The arguments of a `CleanTransaction(...)` call; `None` stands for an argument that is
      not passed and takes its default. */
  datatype CleanInput = CleanInput(
    date: DateTime,
    merchantName: string,
    normalizedMerchant: string,
    amount: Decimal,
    currency: Option<string>,
    category: Option<string>,
    isRefund: Option<bool>,
    isAnomaly: Option<bool>,
    anomalyReason: Option<string>)

  /** The characters `sanitize_merchant_name` deletes, in the order it deletes them. */
  const DangerousChars: seq<char> := ['<', '>', '"', '\'', '\\', ';']

  /** The characters of a list, as a set. */
  function CharSet(cs: seq<char>): set<char> {
    set c | c in cs
  }

  lemma CharSetStep(cs: seq<char>, i: int)
    requires 0 <= i < |cs|
    ensures CharSet(cs[..i + 1]) == CharSet(cs[..i]) + {cs[i]}
  {
    assert cs[..i + 1] == cs[..i] + [cs[i]];
  }

  function DangerousSet(): set<char> {
    CharSet(DangerousChars)
  }

  /** What `sanitize_merchant_name` returns: the merchant with every dangerous character
      deleted, then stripped. */
  function SanitizedMerchantName(v: string): (r: string)
    ensures forall i :: 0 <= i < |r| ==> r[i] !in DangerousSet()
    ensures r == [] || (!IsSpace(r[0]) && !IsSpace(r[|r| - 1]))
    ensures |r| <= |v|
    ensures (forall i :: 0 <= i < |v| ==> v[i] !in DangerousSet()) && Strip(v) == v ==> r == v
  {
    CleanNameKept(v, DangerousSet());
    Strip(DeleteChars(v, DangerousSet()))
  }

  /** A name with none of the deleted characters and no surrounding whitespace is kept. */
  lemma CleanNameKept(v: string, cs: set<char>)
    ensures (forall i :: 0 <= i < |v| ==> v[i] !in cs) && Strip(v) == v ==> Strip(DeleteChars(v, cs)) == v
  {
    DeleteCharsAbsent(v, cs);
  }

  /** `sanitize_merchant_name`: one `replace(char, '')` per dangerous character, in list
      order, then `strip()`. */
  method SanitizeMerchantName(v: string) returns (r: string)
    ensures r == SanitizedMerchantName(v)
  {
    var w := v;
    DeleteCharsAbsent(v, {});
    assert CharSet(DangerousChars[..0]) == {};
    for i := 0 to |DangerousChars|
      invariant w == DeleteChars(v, CharSet(DangerousChars[..i]))
    {
      var deleted := CharSet(DangerousChars[..i]);
      ReplaceCharIsDelete(w, DangerousChars[i]);
      DeleteCharsTwice(v, deleted, {DangerousChars[i]});
      CharSetStep(DangerousChars, i);
      w := ReplaceAll(w, [DangerousChars[i]]);
    }
    assert DangerousChars[..|DangerousChars|] == DangerousChars;
    r := Strip(w);
  }

  /** Sanitising a sanitised merchant name changes nothing. */
  lemma SanitizeMerchantIdempotent(v: string)
    ensures SanitizedMerchantName(SanitizedMerchantName(v)) == SanitizedMerchantName(v)
  {
    var s := SanitizedMerchantName(v);
    DeleteCharsAbsent(s, DangerousSet());
    StripByCut(s, 0, |s|, IsSpace);
  }

  /** The `min_length` / `max_length` constraints of a `Field`. */
  function CheckLength(v: string, min: nat, max: nat): (r: Result<string, Violation>)
    ensures r.Ok? <==> min <= |v| <= max
    ensures r.Ok? ==> r.value == v
    ensures r.Err? ==> r.error == (if |v| < min then TooShort(min) else TooLong(max))
  {
    if |v| < min then Err(TooShort(min)) else if |v| > max then Err(TooLong(max)) else Ok(v)
  }

  /** The number of fractional digits pydantic's `decimal_places` counts: those of the
      normalised value, so trailing zeros do not count. */
  function DecimalPlaces(d: Decimal): (n: nat)
    ensures n <= d.exp
    decreases d.exp
  {
    if d.exp == 0 || d.coef % 10 != 0 then d.exp else DecimalPlaces(Decimal(d.coef / 10, d.exp - 1))
  }

  /** Dropping the `d.exp - n` trailing zeros leaves the same value written with the `n`
      places counted, and its last digit, if it has places at all, is not a zero. */
  lemma {:induction false} DecimalPlacesNormal(d: Decimal)
    ensures var n := DecimalPlaces(d);
            d.coef % Pow10(d.exp - n) == 0 && (n > 0 ==> (d.coef / Pow10(d.exp - n)) % 10 != 0)
    decreases d.exp
  {
    if d.exp > 0 && d.coef % 10 == 0 {
      var shorter := Decimal(d.coef / 10, d.exp - 1);
      DecimalPlacesNormal(shorter);
      DropZero(d.coef, Pow10(d.exp - 1 - DecimalPlaces(shorter)));
    }
  }

  /** A coefficient ending in a zero, with that zero dropped, divides by a power of ten
      exactly when the coefficient divides by the next power, with the same quotient. */
  lemma DropZero(c: int, p: nat)
    requires p >= 1 && c % 10 == 0
    ensures c % (10 * p) == 10 * ((c / 10) % p)
    ensures c / (10 * p) == (c / 10) / p
  {
    DivMod(c, 10);
    var q, r := (c / 10) / p, (c / 10) % p;
    DivMod(c / 10, p);
    assert c == q * (10 * p) + 10 * r;
    DivModUnique(c, 10 * p, q, 10 * r);
  }

  lemma ScaledRemainder(a: int, b: nat)
    requires b >= 1
    ensures (10 * a) % (10 * b) == 10 * (a % b)
  {
    var q, r := a / b, a % b;
    assert 10 * a == q * (10 * b) + 10 * r;
    DivModUnique(10 * a, 10 * b, q, 10 * r);
  }

  lemma ThousandDividesTen(c: int, p: nat)
    requires p >= 1
    requires (c * 100) % (1000 * p) == 0
    ensures c % 10 == 0
  {
    var q := (c * 100) / (1000 * p);
    assert c * 100 == q * (1000 * p);
    assert c == 10 * (q * p);
  }

  /** At most two fractional digits means exactly: a hundred times the value is a whole number. */
  lemma {:induction false} AtMostTwoPlaces(d: Decimal)
    ensures DecimalPlaces(d) <= 2 <==> (d.coef * 100) % Pow10(d.exp) == 0
    decreases d.exp
  {
    if d.exp == 0 {
    } else if d.coef % 10 != 0 {
      if d.exp == 1 {
      } else if d.exp == 2 {
        assert Pow10(2) == 100;
      } else {
        calc {
          Pow10(d.exp);
          10 * Pow10(d.exp - 1);
          100 * Pow10(d.exp - 2);
          1000 * Pow10(d.exp - 3);
        }
        if (d.coef * 100) % Pow10(d.exp) == 0 {
          ThousandDividesTen(d.coef, Pow10(d.exp - 3));
        }
      }
    } else {
      var c := d.coef / 10;
      AtMostTwoPlaces(Decimal(c, d.exp - 1));
      ScaledRemainder(c * 100, Pow10(d.exp - 1));
      assert d.coef * 100 == 10 * (c * 100);
    }
  }

  /** `validate_amount_range` compares against the float literal `999999.99`, whose exact
      value is `MaxFloatNumerator` / 10^32 = 999999.98999999999068677425384521484375. */
  const MaxFloatNumerator: nat := 99999998999999999068677425384521484375
  const MaxFloatDenominator: nat := 100000000000000000000000000000000

  /** `abs(v) > 999999.99` does not hold, compared exactly as Python compares a `Decimal`
      with a `float`. `abs` itself rounds to the 28 digits of the default context; that
      rounding is not modelled, and it cannot change the outcome: `ValidateAmount` checks the
      places rule first, and an amount that passes it has at most 28 significant digits. */
  predicate WithinMaximum(d: Decimal)
    ensures Abs(d.coef) * 100 <= 99999998 * Pow10(d.exp) ==> WithinMaximum(d)
    ensures WithinMaximum(d) ==> Abs(d.coef) * 100 <= 99999999 * Pow10(d.exp)
  {
    Abs(d.coef) * MaxFloatDenominator <= MaxFloatNumerator * Pow10(d.exp)
  }

  /** A magnitude above 999999.99 is rejected. */
  lemma AboveMaximumRejected(d: Decimal)
    requires Abs(d.coef) * 100 > 99999999 * Pow10(d.exp)
    ensures !WithinMaximum(d)
  {
  }

  /** On whole cents the bound falls just below 999999.99: that value itself is rejected. */
  lemma MaximumInCents(cents: int)
    ensures WithinMaximum(Decimal(cents, 2)) <==> Abs(cents) <= 99999998
  {
    assert Pow10(2) == 100;
  }

  /** The number of significant digits of Python's default decimal context. */
  const Precision: nat := 28

  /** The fractional digits pydantic's `decimal_places` counts: those of `d.normalize()`. In
      the default context `normalize` first rounds the coefficient, half to even, to
      `Precision` significant digits; the trailing zeros it then drops do not count. */
  function NormalizedPlaces(d: Decimal): (n: nat)
    ensures n <= d.exp
    ensures DigitCount(Abs(d.coef)) <= Precision ==> n == DecimalPlaces(d)
  {
    var k := DigitCount(Abs(d.coef));
    if k <= Precision then DecimalPlaces(d)
    else
      var q := k - Precision;
      if q >= d.exp then 0
      else DecimalPlaces(Decimal(RoundHalfEven(Abs(d.coef), Pow10(q)), d.exp - q))
  }

  /** The `amount` field: the `decimal_places=2` constraint first, then `validate_amount_range`.
      Up to 28 significant digits the places rule asks exactly that a hundred times the amount
      be a whole number. */
  function ValidateAmount(d: Decimal): (r: Result<Decimal, Violation>)
    ensures r.Ok? <==> NormalizedPlaces(d) <= 2 && WithinMaximum(d)
    ensures DigitCount(Abs(d.coef)) <= Precision ==>
              (r.Ok? <==> (d.coef * 100) % Pow10(d.exp) == 0 && WithinMaximum(d))
    ensures r.Ok? ==> r.value == d
    ensures r.Err? && NormalizedPlaces(d) > 2 ==> r.error == TooManyDecimalPlaces(2)
    ensures r.Err? && NormalizedPlaces(d) <= 2 ==> r.error == ExceedsMaximum
  {
    AtMostTwoPlaces(d);
    if NormalizedPlaces(d) > 2 then Err(TooManyDecimalPlaces(2))
    else if !WithinMaximum(d) then Err(ExceedsMaximum)
    else Ok(d)
  }

  /** The amounts of `tests/test_validators.py`: 45.99 passes, 45.999 has too many places, 9999999.99 is too large. */
  lemma AmountExamples()
    ensures ValidateAmount(Decimal(4599, 2)) == Ok(Decimal(4599, 2))
    ensures ValidateAmount(Decimal(45990, 3)) == Ok(Decimal(45990, 3))
    ensures ValidateAmount(Decimal(45999, 3)) == Err(TooManyDecimalPlaces(2))
    ensures ValidateAmount(Decimal(999999999, 2)) == Err(ExceedsMaximum)
  {
    assert Pow10(2) == 100;
    assert Pow10(3) == 1000;
  }

  /** A power of ten written with as many places as zeros is a whole number. */
  lemma {:induction false} PowerHasNoPlaces(k: nat)
    ensures DecimalPlaces(Decimal(Pow10(k), k)) == 0
  {
    if k > 0 {
      PowerHasNoPlaces(k - 1);
      assert Pow10(k) % 10 == 0 && Pow10(k) / 10 == Pow10(k - 1);
    }
  }

  /** With more than 28 digits, `10^k + 1` over `10^k` normalises to a whole number. */
  lemma LongAmountPlaces(k: nat)
    requires k >= Precision
    ensures NormalizedPlaces(Decimal(Pow10(k) + 1, k)) == 0
  {
    var q := k + 1 - Precision;
    PowerPlusOneDigits(k);
    RoundedPlaces(Pow10(k) + 1, k, q);
    RoundedPowerPlaces(k, q);
  }

  /** Rounding away the final 1 of `10^k + 1` leaves a whole number. */
  lemma RoundedPowerPlaces(k: nat, q: nat)
    requires 1 <= q < k
    ensures DecimalPlaces(Decimal(RoundHalfEven(Pow10(k) + 1, Pow10(q)), k - q)) == 0
  {
    TrailingOneRoundsAway(k, q);
    PowerHasNoPlaces(k - q);
  }

  /** Past 28 digits, the places are those of the coefficient rounded at the excess digits. */
  lemma RoundedPlaces(c: nat, e: nat, q: nat)
    requires DigitCount(c) == Precision + q && 1 <= q < e
    ensures NormalizedPlaces(Decimal(c, e)) == DecimalPlaces(Decimal(RoundHalfEven(c, Pow10(q)), e - q))
  {
  }


  /** `1 + 10^-k` lies well within the maximum. */
  lemma LongAmountWithin(k: nat)
    requires k >= 3
    ensures WithinMaximum(Decimal(Pow10(k) + 1, k))
  {
    Pow10Monotone(3, k);
    assert Pow10(3) == 1000;
  }

  /** `1.0000000000000000000000000001` has 28 places, but `normalize` rounds it to `1`, so the
      places rule accepts it; so it does with any longer run of zeros before the final 1. */
  lemma NormalizeRoundsLongAmounts(k: nat)
    requires k >= Precision
    ensures var d := Decimal(Pow10(k) + 1, k);
            DecimalPlaces(d) == k && ValidateAmount(d) == Ok(d)
  {
    PowerPlusOneDigits(k);
    LongAmountPlaces(k);
    LongAmountWithin(k);
  }

  /** The `^[A-Z]{3}$` pattern of the `currency` field. The match is anchored and
      case-sensitive: a code holds no whitespace and changes when lower-cased. */
  predicate IsCurrencyCode(s: string)
    ensures IsCurrencyCode(s) ==> Lower(s) != s
    ensures IsCurrencyCode(s) ==> forall i :: 0 <= i < |s| ==> !IsSpace(s[i]) && !IsWhiteSpace(s[i])
  {
    var matches := |s| == 3 && forall i :: 0 <= i < 3 ==> 'A' <= s[i] <= 'Z';
    assert matches ==> Lower(s)[0] != s[0];
    matches
  }

  /** The four codes `format_currency` knows match; a lower-case, short, long or padded code
      does not. */
  lemma CurrencyCodeExamples()
    ensures IsCurrencyCode("USD") && IsCurrencyCode("EUR") && IsCurrencyCode("GBP") && IsCurrencyCode("JPY")
    ensures !IsCurrencyCode("usd") && !IsCurrencyCode("US") && !IsCurrencyCode("USDX") && !IsCurrencyCode(" USD")
  {
    assert "USD"[0] == 'U' && "USD"[1] == 'S' && "USD"[2] == 'D';
    assert "EUR"[0] == 'E' && "EUR"[1] == 'U' && "EUR"[2] == 'R';
    assert "GBP"[0] == 'G' && "GBP"[1] == 'B' && "GBP"[2] == 'P';
    assert "JPY"[0] == 'J' && "JPY"[1] == 'P' && "JPY"[2] == 'Y';
    assert "usd"[0] == 'u';
  }

  /** The fields of a `CleanTransaction(...)` call that fail their constraints. */
  function FailingCleanFields(inp: CleanInput): (r: set<Field>)
    ensures r <= {MerchantNameField, NormalizedMerchantField, CleanAmountField, CurrencyField}
    ensures MerchantNameField in r <==> CheckLength(inp.merchantName, 1, 200).Err?
    ensures NormalizedMerchantField in r <==> CheckLength(inp.normalizedMerchant, 1, 100).Err?
    ensures CleanAmountField in r <==> ValidateAmount(inp.amount).Err?
    ensures CurrencyField in r <==> inp.currency.Some? && !IsCurrencyCode(inp.currency.value)
  {
    (if 1 <= |inp.merchantName| <= 200 then {} else {MerchantNameField})
    + (if 1 <= |inp.normalizedMerchant| <= 100 then {} else {NormalizedMerchantField})
    + (if NormalizedPlaces(inp.amount) <= 2 && WithinMaximum(inp.amount) then {} else {CleanAmountField})
    + (if inp.currency.None? || IsCurrencyCode(inp.currency.value) then {} else {CurrencyField})
  }

  /** `CleanTransaction(...)`. The length check on `merchant_name` sees the value as given;
      sanitising runs only once it has passed. A currency that is not passed is `USD` and is
      not checked. */
  function ValidateClean(inp: CleanInput): (r: Result<CleanTransaction, seq<FieldError>>)
    ensures r.Ok? <==> FailingCleanFields(inp) == {}
    ensures r.Err? ==> FieldsOf(r.error) == FailingCleanFields(inp)
    ensures r.Err? ==> r.error == CleanErrors(inp)
    ensures r.Ok? ==> r.value.merchantName == Strip(DeleteChars(inp.merchantName, DangerousSet()))
    ensures r.Ok? ==> forall i :: 0 <= i < |r.value.merchantName| ==> r.value.merchantName[i] !in DangerousSet()
    ensures r.Ok? ==> 1 <= |r.value.normalizedMerchant| <= 100 && IsCurrencyCode(r.value.currency)
    ensures r.Ok? ==> NormalizedPlaces(r.value.amount) <= 2 && WithinMaximum(r.value.amount)
    ensures r.Ok? ==> r.value.date == inp.date && r.value.normalizedMerchant == inp.normalizedMerchant && r.value.amount == inp.amount
    ensures r.Ok? ==> r.value.currency == inp.currency.GetOr("USD") && r.value.category == inp.category.GetOr("Uncategorized")
    ensures r.Ok? ==> r.value.isRefund == inp.isRefund.GetOr(false) && r.value.isAnomaly == inp.isAnomaly.GetOr(false)
    ensures r.Ok? ==> r.value.anomalyReason == inp.anomalyReason
  {
    var merchant := CheckLength(inp.merchantName, 1, 200);
    var normalized := CheckLength(inp.normalizedMerchant, 1, 100);
    var amount := ValidateAmount(inp.amount);
    var errors := CleanErrors(inp);
    assert IsCurrencyCode("USD") by { assert "USD"[0] == 'U' && "USD"[1] == 'S' && "USD"[2] == 'D'; }
    if errors == [] then
      Ok(CleanTransaction(
        inp.date, SanitizedMerchantName(merchant.value), normalized.value, amount.value,
        inp.currency.GetOr("USD"), inp.category.GetOr("Uncategorized"),
        inp.isRefund.GetOr(false), inp.isAnomaly.GetOr(false), inp.anomalyReason))
    else
      Err(errors)
  }

  /** The field errors of a `CleanTransaction(...)` call, in field order. */
  function CleanErrors(inp: CleanInput): (errors: seq<FieldError>)
    ensures FieldsOf(errors) == FailingCleanFields(inp)
  {
    var merchant := CheckLength(inp.merchantName, 1, 200);
    var normalized := CheckLength(inp.normalizedMerchant, 1, 100);
    var amount := ValidateAmount(inp.amount);
    var currencyOk := inp.currency.None? || IsCurrencyCode(inp.currency.value);
    var e1 := ErrorFor(MerchantNameField, if merchant.Err? then Some(merchant.error) else None);
    var e2 := ErrorFor(NormalizedMerchantField, if normalized.Err? then Some(normalized.error) else None);
    var e3 := ErrorFor(CleanAmountField, if amount.Err? then Some(amount.error) else None);
    var e4 := ErrorFor(CurrencyField, if currencyOk then None else Some(PatternMismatch));
    FieldsOfAppend(e1, e2);
    FieldsOfAppend(e1 + e2, e3);
    FieldsOfAppend(e1 + e2 + e3, e4);
    e1 + e2 + e3 + e4
  }

  /** A clean record built from the required arguments alone takes the declared defaults. */
  lemma CleanDefaults(date: DateTime, merchantName: string, normalizedMerchant: string, amount: Decimal)
    requires 1 <= |merchantName| <= 200 && 1 <= |normalizedMerchant| <= 100
    requires NormalizedPlaces(amount) <= 2 && WithinMaximum(amount)
    ensures var r := ValidateClean(CleanInput(date, merchantName, normalizedMerchant, amount, None, None, None, None, None));
            r.Ok? && r.value.currency == "USD" && r.value.category == "Uncategorized"
            && !r.value.isRefund && !r.value.isAnomaly && r.value.anomalyReason.None?
  {
  }

  /** A merchant name made only of dangerous characters passes the length check and is
      sanitised to the empty string. */
  lemma SanitisedMerchantMayBeEmpty(date: DateTime, amount: Decimal)
    requires NormalizedPlaces(amount) <= 2 && WithinMaximum(amount)
    ensures var r := ValidateClean(CleanInput(date, "<>", "Test", amount, None, None, None, None, None));
            r.Ok? && r.value.merchantName == ""
  {
    var r := ValidateClean(CleanInput(date, "<>", "Test", amount, None, None, None, None, None));
    assert DeleteChars("<>", DangerousSet()) == [];
  }

  /** A merchant name of 250 characters is rejected, and so is the currency code "us". */
  lemma CleanRejections(date: DateTime)
    ensures ValidateClean(CleanInput(date, seq(250, i => 'A'), "Test", Decimal(4599, 2), None, None, None, None, None)).Err?
    ensures ValidateClean(CleanInput(date, "Test", "Test", Decimal(4599, 2), Some("us"), None, None, None, None)).Err?
    ensures ValidateClean(CleanInput(date, "Test", "Test", Decimal(4599, 2), Some("EUR"), None, None, None, None)).Ok?
  {
    assert Pow10(2) == 100;
    assert !IsCurrencyCode("us");
  }

  // ---------------------------------------------------------------------------
  // TransactionSummary

  /** The summary report. */
  datatype TransactionSummary = TransactionSummary(
    totalTransactions: int,
    dateRange: (DateTime, DateTime),
    totalSpending: Decimal,
    totalRefunds: Decimal,
    netSpending: Decimal,
    topCategory: string,
    topCategorySpending: Decimal,
    anomaliesDetected: int,
    merchantsNormalized: int)

  /** The counters of a summary that are negative. */
  function NegativeCounts(s: TransactionSummary): (r: set<Field>)
    ensures r <= {TotalTransactionsField, AnomaliesDetectedField, MerchantsNormalizedField}
    ensures r == {} <==> s.totalTransactions >= 0 && s.anomaliesDetected >= 0 && s.merchantsNormalized >= 0
  {
    (if s.totalTransactions < 0 then {TotalTransactionsField} else {})
    + (if s.anomaliesDetected < 0 then {AnomaliesDetectedField} else {})
    + (if s.merchantsNormalized < 0 then {MerchantsNormalizedField} else {})
  }

  /** `TransactionSummary(...)`: the three counts carry `ge=0`. */
  function ValidateSummary(s: TransactionSummary): (r: Result<TransactionSummary, seq<FieldError>>)
    ensures r.Ok? <==> s.totalTransactions >= 0 && s.anomaliesDetected >= 0 && s.merchantsNormalized >= 0
    ensures r.Ok? ==> r.value == s
    ensures r.Err? ==> FieldsOf(r.error) == NegativeCounts(s)
    ensures r.Err? ==> forall e :: e in r.error ==> e.violation == LessThan(0)
  {
    var e1 := ErrorFor(TotalTransactionsField, if s.totalTransactions < 0 then Some(LessThan(0)) else None);
    var e2 := ErrorFor(AnomaliesDetectedField, if s.anomaliesDetected < 0 then Some(LessThan(0)) else None);
    var e3 := ErrorFor(MerchantsNormalizedField, if s.merchantsNormalized < 0 then Some(LessThan(0)) else None);
    FieldsOfAppend(e1, e2);
    FieldsOfAppend(e1 + e2, e3);
    var errors := e1 + e2 + e3;
    if errors == [] then Ok(s) else Err(errors)
  }
}
