# Financial parser: validation, sanitising and row bookkeeping

This project models the validating and bookkeeping core of a financial transaction
parser written in Python:

- **Validators** (`src/validators.py`):
  - the `RawTransaction` schema, which strips its fields, rejects a blank date or amount and replaces a blank merchant with `UNKNOWN_MERCHANT`;
  - the `CleanTransaction` schema, with its length limits, the two-decimal-places rule, the `validate_amount_range` bound, the `^[A-Z]{3}$` currency pattern, its defaults and the `sanitize_merchant_name` after-validator;
  - the non-negative counts of `TransactionSummary`.
- **Utilities** (`src/utils.py`):
  - `DataIntegrityChecker.sanitize_input`, which truncates a value, deletes dangerous patterns it detects case-insensitively, and strips it;
  - the line-level checks of `DataIntegrityChecker.check_csv_integrity`;
  - `format_currency`, which writes an amount as a currency symbol, comma-grouped units and two decimals.
- **Parser** (`src/parser.py`):
  - the statistics of a fresh `FinancialParser`;
  - `parse_transaction`, which turns one row into a clean record or a counted and recorded failure;
  - the row loop of `parse_file`.

The model is split into modules:

- **Results** holds `Option` and `Result`.
- **Text** models Python's string operations: `strip`, pydantic's trim, `lower`, `in` and `replace`.
- **Validators**, **Utils** and **Parser** follow the three source files.

A few representation choices:

- Amounts are exact decimals: an integer coefficient and a count of decimal places.
- Strings are sequences of characters.
- A schema that pydantic rejects gives a list of field errors in field order. Each error names the field and the violated constraint.

`FinancialParser` is a class:

- Its counters and its error list are fields that its methods update.
- The four normalisers (date, amount, merchant and category) are function values fixed when it is built.
- `ParseRow` is a function giving the outcome of one row. The parser's `parse` field holds that function with its normalisers filled in, and `Valid()` states this: `parse(row) == ParseRow(row, normalizers)` for every row, and the counters agree. The constructor establishes `Valid()`.
- The methods' contracts speak of `parse`. The methods need only the counter part of `Valid()`, and they keep it. The tie to `ParseRow` is about constant fields, so it survives every call. For a valid parser, the contracts therefore say what `ParseRow` gives.
- The loop of `ParseFile` is proved against three functions of a sequence of outcomes: `Kept` collects the clean records, `Failed` the recorded failures, and `ReachedCount` the rows that reached normalisation.

## Model

| member | source | states |
|---|---|---|
| Validators.RequireNonBlank | src/validators.py:22-28 | a field is accepted exactly when it is not blank after stripping; the accepted value is the stripped text and a blank one is an empty-value error |
| Validators.MerchantOrUnknown | src/validators.py:30-36 | the merchant name is never empty: the stripped name, or `UNKNOWN_MERCHANT` when it is blank |
| Validators.ValidateRaw | src/validators.py:12-44 | a raw transaction is valid iff date and amount are non-blank; valid fields are stripped, category defaults to empty; a rejection names exactly the blank fields |
| Validators.RawStripsPadding | src/validators.py:15-44 | blanks around every field are removed and the inner text is kept unchanged |
| Text.Strip | src/validators.py:26-44 | `strip()` gives the part of the value after its leading whitespace, no longer than the value, that neither starts nor ends with whitespace |
| Text.Trim | src/validators.py:15 | the model's `str_strip_whitespace` trim gives the part of the value after its leading white space, no longer than the value, that neither starts nor ends with white space |
| Text.StripAfterTrim | src/validators.py:15-28 | the field validators' `strip()` applied after pydantic's own whitespace trim gives what `strip()` alone gives |
| Validators.SanitizedMerchantName | src/validators.py:70-78 | the sanitised name holds none of `< > " ' \ ;`, has no surrounding whitespace and is never longer than the input; a name already free of those characters and of surrounding whitespace is returned unchanged |
| Validators.SanitizeMerchantName | src/validators.py:70-78 | the deletion loop over the dangerous characters computes the sanitised name |
| Validators.SanitizeMerchantIdempotent | src/validators.py:70-78 | sanitising a sanitised name changes nothing |
| Text.DeleteCharsTwice | src/validators.py:76-78 | deleting one set of characters and then another equals deleting their union, so the order of the replacements does not matter |
| Text.ReplaceCharIsDelete | src/validators.py:76-77 | replacing a one-character pattern by nothing deletes that character everywhere |
| Validators.CheckLength | src/validators.py:53-54 | a length-constrained string is accepted iff its length is within the bounds; otherwise the error names the bound it broke |
| Validators.DecimalPlaces | src/validators.py:55 | the places counted on the normalised value are never more than the places written |
| Validators.DecimalPlacesNormal | src/validators.py:55 | the count is that of the normalised value: the written trailing zeros beyond it divide out exactly, and the last remaining place is not a zero |
| Validators.AtMostTwoPlaces | src/validators.py:55 | an amount has at most two decimal places (trailing zeros ignored) iff a hundred times it is a whole number |
| Validators.WithinMaximum | src/validators.py:66 | every magnitude up to 999999.98 passes the range check and every magnitude that passes is at most 999999.99 |
| Validators.MaximumInCents | src/validators.py:66-67 | on whole cents the range check accepts exactly the magnitudes up to 999999.98 |
| Validators.AboveMaximumRejected | src/validators.py:66-67 | every amount whose magnitude exceeds 999999.99 is rejected |
| Validators.NormalizedPlaces | src/validators.py:55 | the places counted are those of the amount rounded, half to even, to 28 significant digits; an amount of at most 28 digits keeps its own count |
| Validators.ValidateAmount | src/validators.py:55-68 | an amount is accepted iff its normalised value has at most two decimal places and it lies within the bound; up to 28 significant digits, that is iff a hundred times it is whole and it lies within the bound; a rejection says which rule failed, the places rule first |
| Validators.NormalizeRoundsLongAmounts | src/validators.py:55 | `1.0000000000000000000000000001` and every longer `1 + 10^-k` is accepted, because the rounding leaves `1` |
| Validators.AmountExamples | src/validators.py:55-68 | 45.99 and 45.990 pass; 45.999 fails the places rule and 9999999.99 fails the bound |
| Validators.IsCurrencyCode | src/validators.py:56 | a currency matching the anchored, case-sensitive `^[A-Z]{3}$` holds no whitespace and changes when lower-cased |
| Validators.CurrencyCodeExamples | src/validators.py:56 | `USD`, `EUR`, `GBP` and `JPY` match the currency pattern; `usd`, `US`, `USDX` and ` USD` do not |
| Validators.FailingCleanFields | src/validators.py:53-68 | a `CleanTransaction` field fails exactly when its own constraint rejects it: a length outside 1..200 or 1..100, an amount that `ValidateAmount` rejects, a passed currency not matching the pattern; no other field can fail |
| Validators.CleanErrors | src/validators.py:47-68 | the field errors of a clean record name exactly the fields that fail their constraints |
| Validators.ValidateClean | src/validators.py:47-78 | a clean record is built iff no field fails; it then has a sanitised merchant name free of dangerous characters, a valid currency code, an amount passing both amount rules and the declared defaults; a rejection is the list of `CleanErrors`, naming exactly the failing fields |
| Validators.CleanDefaults | src/validators.py:56-60 | a record built from the required fields alone is in USD, Uncategorized, not a refund, not an anomaly and has no anomaly reason |
| Validators.SanitisedMerchantMayBeEmpty | src/validators.py:53-78 | the length check runs before sanitising, so a merchant name of only dangerous characters is accepted and becomes empty |
| Validators.CleanRejections | src/validators.py:53-56 | a 250-character merchant name and the currency `us` are rejected; `EUR` is accepted |
| Validators.NegativeCounts | src/validators.py:84-92 | only the three `ge=0` counts can fail, and none fails exactly when all three are non-negative |
| Validators.ValidateSummary | src/validators.py:81-92 | a summary is accepted iff its three counts are non-negative, and a rejection names exactly the negative counts |
| Utils.Truncate | src/utils.py:168 | Python's `value[:max_length]`: a prefix of the value, of length `max_length` clamped to the value, or counted from the end when negative |
| Utils.RemoveDetected | src/utils.py:171-177 | the pattern loop never lengthens the value and deletes nothing when no pattern is detected |
| Utils.RemoveDetectedUnchanged | src/utils.py:171-177 | the pattern loop leaves the value unchanged iff no detected pattern occurs in it in its exact case; otherwise the value gets strictly shorter |
| Text.ReplaceAllShrinks | src/utils.py:176-177 | replacing a pattern by nothing either changes nothing or shortens the value |
| Text.ReplaceAll | src/utils.py:177 | `replace(p, "")` never lengthens the value and removes whole copies of `p`: the length lost is a multiple of the pattern's length |
| Text.Lower | src/utils.py:172 | `lower()` keeps the length and lower-cases each ASCII letter in place |
| Text.Contains | src/utils.py:175 | `p in s` holds exactly when `p` occurs in `s` at some position |
| Utils.SanitizedInput | src/utils.py:152-179 | the result is no longer than `max_length` and the input, and has no surrounding whitespace; it is the stripped truncation when every detected pattern is absent in its exact case, and it is shorter than the truncation when a detected pattern does occur in its exact case |
| Utils.SanitizeInput | src/utils.py:152-179 | the truncate, pattern and strip steps compute the sanitised input |
| Utils.SanitizeInputKeepsPlain | src/utils.py:166-179 | a value with no `<`, `j` or `o` in either case and no whitespace is only truncated |
| Utils.SanitizeInputStripsPadding | src/utils.py:179 | blanks around a value with no `<`, `j` or `o` in either case are stripped and nothing else changes |
| Utils.ScriptTagExample | src/utils.py:166-179 | `<script>alert('xss')</script>` with the default length comes back as `>alert('xss')</script>`: the opening tag goes, the content and the closing tag stay |
| Text.ReplaceAllUnchanged | src/utils.py:176-177 | replacing a pattern by nothing leaves the value unchanged exactly when the pattern does not occur in it |
| Utils.UpperCaseScriptSurvives | src/utils.py:172-177 | an upper-case `<SCRIPT` is detected but not deleted, so it survives sanitising |
| Utils.SplicedScriptReassembles | src/utils.py:174-177 | deleting the inner `<script` of `<scr<scriptipt` joins its halves into a new `<script` |
| Utils.Purge | src/utils.py:171-177 | deleting detected patterns until none is left yields a value holding no pattern in any case |
| Utils.SanitizeInputIntended | src/utils.py:152-179 | the corrected sanitiser keeps the length bound and the stripped ends, and leaves no pattern in any case |
| Utils.IntendedAgreesWhenClean | src/utils.py:171-179 | where no pattern is detected the corrected sanitiser returns what the original returns |
| Utils.CheckCsvIntegrity | src/utils.py:110-150 | a missing file and a read error give their one issue; otherwise the file is readable, counts its lines minus one as rows (-1 for an empty file), has a header iff its first line names a required column, and reports missing columns only for a non-empty file |
| Utils.HasRequiredColumn | src/utils.py:138-142 | the header test on the stripped first line holds iff the lower-cased line, unstripped, mentions a required column |
| Utils.MentionsAny | src/utils.py:142 | `any(col in header_lower ...)` holds exactly when some required column occurs in the lower-cased header |
| Utils.StripKeepsColumn | src/utils.py:138-142 | a column name without surrounding whitespace occurs in the stripped, lower-cased line iff it occurs in the lower-cased line |
| Utils.HeaderIgnoresWhitespace | src/utils.py:138-142 | the header test holds iff the lower-cased first line mentions `date`, `merchant` or `amount` |
| Utils.CurrencySymbol | src/utils.py:193-200 | the symbol is one character and one of the four known symbols: that of a known code, and `$` for any other code |
| Utils.AmountText | src/utils.py:201 | a formatted magnitude is at least four characters long: digits and commas, then a point and two digits |
| Utils.FormatCurrency | src/utils.py:182-201 | a formatted amount starts with its currency symbol and ends in a point and two digits |
| Utils.Group | src/utils.py:201 | the `,` format option adds one comma per full group of three digits and writes only digits and commas |
| Utils.GroupCommas | src/utils.py:201 | the commas of a grouped number stand exactly at every fourth place from the right |
| Utils.GroupDigits | src/utils.py:201 | deleting the commas of a grouped number gives its digits back |
| Utils.AmountTextRoundTrip | src/utils.py:201 | the digits of a formatted magnitude, with commas and point removed, read back as the number of cents |
| Utils.AmountTextShape | src/utils.py:201 | a formatted magnitude ends in a point and two digits, with digits and commas in every fourth place before the point |
| Utils.FormatCurrencyLayout | src/utils.py:182-201 | a formatted amount is its currency symbol, then comma-grouped units, a point and two decimals |
| Utils.FormatCurrencyReadsBack | src/utils.py:182-201 | the digits after the symbol read back as the magnitude in cents, so an amount and its negation format alike |
| Utils.CurrencySymbolExamples | src/utils.py:193-200 | USD, EUR, GBP and JPY map to their symbols; an unknown code gets `$` |
| Utils.AmountExample4599 | src/utils.py:201 | 45.99 formats as `45.99` |
| Utils.AmountExample4550 | src/utils.py:201 | 45.50 keeps its trailing zero: `45.50` |
| Utils.AmountExample6780 | src/utils.py:201 | 67.80 formats as `67.80` |
| Utils.AmountExampleThousand | src/utils.py:201 | 1000.00 formats as `1,000.00` |
| Utils.AmountExampleTwoThousand | src/utils.py:201 | 2500.00 formats as `2,500.00` |
| Utils.FormatCurrencyExample | src/utils.py:182-201 | -2500.00 in USD formats as `$2,500.00` |
| Parser.Cell | src/parser.py:87-90 | a cell is the row's text under that column, and empty when the row has no such column |
| Parser.MerchantCell | src/parser.py:88 | the `Merchant` column wins over `Merchant Name`; the latter is read only when the former is absent |
| Parser.RawOf | src/parser.py:86-91 | a row's raw record is valid iff its `Date` and `Amount` cells are non-blank; it then holds them stripped, the merchant of the `Merchant` column (else `Merchant Name`) stripped or `UNKNOWN_MERCHANT` when blank, and the trimmed `Category` cell |
| Parser.CleanInputOf | src/parser.py:114-122 | the `CleanTransaction` arguments: the raw merchant name (the one length-checked and sanitised), the normalised merchant, date and amount, and always a currency, a category and a refund flag, so their defaults never apply to a parsed row; the anomaly fields are not passed |
| Parser.RowCleanInput | src/parser.py:86-122 | for a row whose date and amount normalise, the arguments come from the row's stripped `Date` and `Amount` cells, its merchant cell (or `UNKNOWN_MERCHANT`) and its trimmed `Category` cell, through the normalisers |
| Parser.ParseRow | src/parser.py:77-135 | a row succeeds iff its raw record is valid, its date and amount normalise and the resulting `CleanTransaction` arguments break no constraint; each failure is classified by the first step that fails; a date or amount failure carries the stripped cell, and a `CleanTransaction` failure carries exactly the errors `CleanErrors` lists for the row's arguments, naming exactly the failing fields; a blank date or amount is a raw-validation failure naming that field; a success carries the normalisers' date, amount, currency, refund flag, merchant and category, the sanitised merchant name, and is not an anomaly |
| Parser.NormalizedIffReached | src/parser.py:94-106 | `normalizations` is counted for a row iff its raw record is valid and its date and amount normalise |
| Parser.ReachedBounds | src/parser.py:94-106 | over any run of rows, `normalizations` counts at least the successes and at most the rows |
| Parser.KeptAndFailedPartition | src/parser.py:176-180 | every row either adds a clean record or a recorded failure, never both |
| Parser.KeptAppend | src/parser.py:176-180 | the clean records of two consecutive runs of rows are those of the first followed by those of the second |
| Parser.FailedAppend | src/parser.py:176-180 | the failures of two consecutive runs are those of the first followed by those of the second, numbered on from where the first stopped |
| Parser.ParseRowsAppend | src/parser.py:176-180 | parsing rows in two halves gives the records and failures of parsing them at once |
| Parser.KeptAllOk | src/parser.py:176-180 | when every row succeeds, the result holds every row's record in row order |
| Parser.FailedRowNumbers | src/parser.py:176-180 | every recorded failure carries the number of a failed row within the run, and the numbers increase strictly |
| Parser.FinancialParser.constructor | src/parser.py:23-38 | a fresh parser has every counter at zero and no errors, and parses rows with the normalisers it was given |
| Parser.FinancialParser.RecordFailure | src/parser.py:137-149 | a failure adds one to the failure count and appends the row number and its cause to the errors; nothing else changes |
| Parser.FinancialParser.ParseTransaction | src/parser.py:77-149 | a row's clean record (the `ParseRow` outcome, for a valid parser) is returned on success and nothing on failure; exactly one of the success and failure counts goes up, `normalizations` goes up iff the date and amount normalised, and a failure is appended to the errors |
| Parser.FinancialParser.ParseFile | src/parser.py:172-180 | the result is the clean records of the rows in order; `total_rows` is the row count; the counts grow by the successes and failures; the errors grow by the failures numbered from 2; `normalizations` grows by the number of rows that reached normalisation |

## Left out

- The normalisers (`src/normalizers.py`) and the anomaly detector (`src/analyzer.py`) are not part of this model. The parser holds the four normalisers as given functions of the row's text.
- Logging and the audit trail (`AuditLogger`, `setup_logging`) are left out. An audit call is assumed never to raise.
- File access is not modelled. `CheckCsvIntegrity` takes whether the file exists and the lines read (or the read error's message) as inputs.
- Reading the CSV with pandas (`load_csv`) is not modelled. `ParseFile` takes the rows as a sequence of column-to-text maps; setting `total_rows` at load time is modelled as part of `ParseFile`.
- Timing and the performance report of `parse_file` are left out.
- `save_clean_data` (writing the CSV output), `get_stats` and `print_performance_summary` are left out: they are file output and reporting.
- The `str(...)` coercion of cells is left out. Every cell is already text, so the pandas `NaN` of an empty cell is not modelled.
- A normaliser that raises is not modelled. The normalisers are total functions and report failure through `None`.
- Parser.FinancialParser.ParseTransaction: records the failure's cause as a `ParseFailure` value instead of the message text `"Row n: ..."`. Likewise, pydantic's error messages are modelled as field and violation pairs.
- Parser.FinancialParser.ParseFile: a successful row's logging and the audit log are not modelled.
- The defaulted parameters `max_length=500` of `sanitize_input` (src/utils.py:153) and `currency="USD"` of `format_currency` (src/utils.py:182) are explicit arguments of `SanitizeInput` and `FormatCurrency`; a call relying on the default passes 500 or `"USD"`.
- Utils.FormatCurrency: takes the amount as a whole number of cents, so the rounding of a float with more than two decimals is not modelled.
- Text.Lower: lower-cases ASCII letters only. The only non-ASCII characters whose lower case contains an ASCII letter (U+0130, U+212A) cannot complete any of the patterns or column names searched for, but other characters keep their case here.
- Text.IsSpace and Text.IsWhiteSpace: cover Python's `str.isspace` and Rust's `char::is_whitespace` (the trim pydantic uses). The two differ on U+001C..U+001F; the strip lemmas hold for both.
- Validators.NormalizedPlaces: follows the default decimal context's 28-digit precision and half-even rounding, but not its exponent limits: a value smaller than 10^-999999, which that context would clamp, and a changed thread context are not modelled.
- Validators.ValidateAmount: uses the exact value of the float `999999.99` that `validate_amount_range` compares with. That value is just below 999999.99, so 999999.99 itself is rejected.
- `main.py` and the data-generation and comparison scripts are left out: they are command-line drivers around the parser.

## Findings

| source | as written | input that shows it | evidently intended | confidence | as-written member | corrected member |
|---|---|---|---|---|---|---|
| src/utils.py:172-177 | a pattern is detected in the lower-cased value but deleted with a case-sensitive `replace` | `"<SCRIPT>alert(1)"` comes back unchanged | no dangerous pattern, in any case, is left in the result | high (not executed) | Utils.UpperCaseScriptSurvives | Utils.SanitizeInputIntended |
| src/utils.py:174-177 | each pattern is deleted in a single pass, so deleting one occurrence can join two halves into another | `"<scr<scriptipt>"` comes back as `"<script>"` | no dangerous pattern is left in the result | high (not executed) | Utils.SplicedScriptReassembles | Utils.SanitizeInputIntended |
