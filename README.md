# CAD currency conversion: rate loading, request validation, lookup and conversion

A Dafny model of the two pieces of logic behind the service's single endpoint, which
converts an amount of Canadian dollars into another currency using a table of daily
exchange rates read from a CSV file:

- **The rate loader** (`src/utils/exchangeRateLoader.js`). csv-parser's `mapHeaders` option
  normalises each header: it trims the header, then drops one leading and one trailing quote
  character. Each row is then validated into a `{date, country, currency, value}` record or
  dropped. The records of the accepted rows are collected, in file order, into the rate table.
  An `error` event on the parsed CSV stream rejects the whole load.
- **The conversion service** (`src/services/conversionService.js`).
  - `validateRequest` runs every check on `date`, `currency` and `amount_in_cad`. It returns
    the flat list of error strings, or the parsed amount.
  - `findExchangeRate` returns the first table record with exactly that date and currency.
  - `convertCurrency` answers 404 when there is no such record and 500 when its value is not
    a number. Otherwise it echoes the request with the rate and `amount / rate`.

Modules, one file each:

- `wrappers.dfy` (`Wrappers`): `Option`.
- `js_runtime.dfy` (`JsRuntime`): the parts of the JavaScript runtime the code relies on.
  - A request or record field as a value: `undefined`, a string or a number.
  - Truthiness.
  - `String.prototype.trim`, over the exact ECMAScript WhiteSpace and LineTerminator set.
  - The two foreign parsers.
  - Division by a rate, including division by zero.
- `exchange_rate_loader.dfy` (`ExchangeRateLoader`): the loader.
- `conversion_service.dfy` (`ConversionService`): the service.

Modelling choices:

- **Foreign parsers.** date-fns `isValid(parseISO(s))` and JavaScript `parseFloat(s)` are not
  re-implemented. They are the two fields of a `Parsers` value that every operation needing
  them takes as a parameter. `parseFloat` returning `NaN` is `None`.
- **The rate table.** The module-level `exchangeRates` variable and the `initPromise` that
  fills it become an explicit `table` parameter. `TableAfterLoad` gives the table the service
  holds once loading has settled. A failed load leaves the initial empty table.
- **The CSV input.** It is a `CsvStream`: the header line, the split records, and whether the
  parsed CSV stream ended or emitted `error`. `BindRow` builds the row object csv-parser hands to the `data`
  handler. It assigns cells left to right, so a later column with the same key wins.
- **The converted amount.** `amount_in_currency` is the quotient `amountInCAD / exchangeRate`
  of src/services/conversionService.js:80, with no rounding step.
- **Where the code and its tests disagree, the model follows the code.**
  - Errors are flat strings, not `{field, message}` objects.
  - The currency is checked for presence only, never against the table.
  - The loader drops a row without a `GEO` column. Its own test
    (`src/tests/utils/exchangeRateLoader.test.js:13-49`) expects such a row to be kept.
    `RowWithoutGeoRejected` proves that this row is dropped.
- **Rates of zero.** The loader accepts any numeric `VALUE`, including `0` and negative
  numbers. A zero rate therefore reaches the division. `Divide` models what JavaScript
  returns then: an infinity signed like the amount, or `NaN` for `0 / 0`.

## Model

| member | source | states |
|---|---|---|
| `JsRuntime.TrimStart` | src/utils/exchangeRateLoader.js:46-49 | the result is a suffix of the input that does not start with whitespace, and everything cut off is whitespace |
| `JsRuntime.TrimEnd` | src/utils/exchangeRateLoader.js:46-49 | the result is a prefix of the input that does not end with whitespace, and everything cut off is whitespace |
| `JsRuntime.Trim` | src/utils/exchangeRateLoader.js:46-49 | the result has no whitespace at either end, is no longer than the input, and equals the input when the input has none |
| `JsRuntime.TrimCutsOnlyWhitespace` | src/utils/exchangeRateLoader.js:24 | the trimmed string is a slice of the input between a whitespace-only prefix and a whitespace-only suffix |
| `JsRuntime.TrimIdempotent` | src/utils/exchangeRateLoader.js:24 | trimming twice equals trimming once |
| `JsRuntime.Divide` | src/services/conversionService.js:80 | the quotient is finite exactly when the rate is non-zero, and then quotient × rate = amount; `NaN` exactly for 0 / 0; otherwise an infinity signed like the amount |
| `ExchangeRateLoader.CutEdgeQuotes` | src/utils/exchangeRateLoader.js:24 | the result is at most two characters shorter, and equals the input exactly when the input has no quote at either edge |
| `ExchangeRateLoader.CutEdgeQuotesIsQuoteCut` | src/utils/exchangeRateLoader.js:24 | the result is the input with one character cut from the front exactly when the input starts with a quote, and one cut from the back exactly when what remains ends with a quote; nothing else is cut |
| `ExchangeRateLoader.NormalizeHeader` | src/utils/exchangeRateLoader.js:24 | the result is the trimmed header shortened by at most two characters, and equals the trimmed header exactly when that has no quote at either edge |
| `ExchangeRateLoader.NormalizeCutsEdgeQuotes` | src/utils/exchangeRateLoader.js:24 | the normalised header is the trimmed header with a leading quote and a trailing quote cut off, each independently of the other, and nothing else cut |
| `ExchangeRateLoader.NormalizeStripsOneQuotePair` | src/utils/exchangeRateLoader.js:24 | any name between two quote characters (`'` or `"`, matching or not) normalises to the name itself, whitespace inside the quotes included: `" GEO"` becomes ` GEO` |
| `ExchangeRateLoader.NormalizeStripsLeadingQuote` | src/utils/exchangeRateLoader.js:24 | a quote at the start only is removed on its own: `"GEO` becomes `GEO` |
| `ExchangeRateLoader.NormalizeStripsTrailingQuote` | src/utils/exchangeRateLoader.js:24 | a quote at the end only is removed on its own: `GEO"` becomes `GEO` |
| `ExchangeRateLoader.NormalizeNotIdempotent` | src/utils/exchangeRateLoader.js:24 | for any name, `""name""` normalises to `"name"`, and normalising again gives `name`: normalisation is not idempotent |
| `ExchangeRateLoader.BindRow` | src/utils/exchangeRateLoader.js:22-27 | every key of the row object is the key of a column that has a cell, so a column past a short record's end is absent; the last column carrying a key supplies that key's cell |
| `ExchangeRateLoader.ValidateRow` | src/utils/exchangeRateLoader.js:45-69 | a row is dropped exactly when its trimmed date is missing, empty or not a valid ISO date, its trimmed country, currency or value is missing or empty, or the value does not parse as a number; an accepted row yields a well-formed record carrying the trimmed date, country and currency and the parsed value |
| `ExchangeRateLoader.RowWithoutGeoRejected` | src/utils/exchangeRateLoader.js:52-62 | every row without a `GEO` column is dropped, whatever its other cells hold |
| `ExchangeRateLoader.EmptyValueRejected` | src/utils/exchangeRateLoader.js:49-58 | a row whose `VALUE` is missing or empty after trimming is dropped |
| `ExchangeRateLoader.AcceptedRates` | src/utils/exchangeRateLoader.js:20-32 | the table has no more records than the file has rows, and every record in it is well-formed |
| `ExchangeRateLoader.AcceptedRatesAppend` | src/utils/exchangeRateLoader.js:27-29 | the table of a file read in two parts is the concatenation of the parts' tables, so file order is kept |
| `ExchangeRateLoader.AcceptedRatesSingle` | src/utils/exchangeRateLoader.js:27-29 | a one-record file yields exactly that record's contribution |
| `ExchangeRateLoader.AcceptedRatesExtend` | src/utils/exchangeRateLoader.js:27-29 | reading one more record appends that record's contribution to the table |
| `ExchangeRateLoader.LoadExchangeRates` | src/utils/exchangeRateLoader.js:18-38 | the load is rejected exactly when the parsed CSV stream emits `error`, with that error and no table; otherwise it resolves with the accepted rows' records, in file order |
| `ConversionService.Failures` | src/services/conversionService.js:26-39 | no more errors than checks |
| `ConversionService.FailuresAppend` | src/services/conversionService.js:28-39 | the checks run in sequence: running two lists of checks one after the other collects the first list's errors followed by the second's |
| `ConversionService.FailuresMembership` | src/services/conversionService.js:28-39 | a check's message is among the errors exactly when that check was run and failed |
| `ConversionService.ValidationErrorsInOrder` | src/services/conversionService.js:28-39 | the errors are the failing checks' messages in push order: date, currency and amount "required", then the date format, then "Invalid amount" |
| `ConversionService.Validate` | src/services/conversionService.js:41-44 | the request is valid exactly when no error was collected; then the amount was truthy and is its parsed value; otherwise all collected errors are returned |
| `ConversionService.ValidateRequest` | src/services/conversionService.js:25-45 | the errors pushed one by one give exactly the outcome `Validate` specifies |
| `ConversionService.MissingFieldsReported` | src/services/conversionService.js:28-30 | with every field falsy (the empty body), the result is exactly the three "required" errors, in field order |
| `ConversionService.ErrorsPerField` | src/services/conversionService.js:28-39 | "required" is reported exactly for a falsy field, the date-format error exactly for a present date date-fns rejects, "Invalid amount" exactly for a truthy amount that does not parse; so there is at most one error per field and at most three in all |
| `ConversionService.FalsyAmountIsMissing` | src/services/conversionService.js:30-39 | an amount of `0` or `""` is reported as required and never as invalid |
| `ConversionService.CurrencyCheckedForPresenceOnly` | src/services/conversionService.js:29 | any two non-empty currencies give the same validation outcome, so an unknown currency passes validation |
| `ConversionService.FindExchangeRate` | src/services/conversionService.js:53-57 | there is no result exactly when no record has both the date and the currency; a result is a table record with both |
| `ConversionService.FindReturnsFirstMatch` | src/services/conversionService.js:53-57 | the result is the first matching record in table order |
| `ConversionService.ConvertCurrency` | src/services/conversionService.js:59-82 | 404 "Exchange rate not found…" exactly when no record matches; 500 "Invalid exchange rate" exactly when the matched value does not parse; no other failure; on success the date, currency and amount are echoed, the rate is the matched record's parsed value, and the converted amount is finite exactly when the rate is non-zero, and then converted × rate = amount; when the rate is zero the result is `NaN` for a zero amount and otherwise an infinity signed like the amount, as `Divide` fixes it |
| `ConversionService.TableAfterLoad` | src/services/conversionService.js:5-16 | a resolved load installs exactly the loaded rates; a rejected load leaves the service with the empty table |
| `ConversionService.FailedLoadAlwaysNotFound` | src/services/conversionService.js:5-16 | after a failed load every conversion is answered 404 |
| `ConversionService.NumericTableHasNoInvalidRate` | src/services/conversionService.js:70-73 | over a table whose values are all numbers, the 500 answer never occurs |
| `ConversionService.LoadedTableHasNoInvalidRate` | src/services/conversionService.js:70-73 | over a table built by the loader, the 500 answer never occurs |
| `ConversionService.AustralianDollarExample` | src/services/conversionService.js:75-81 | with a rate of 1.23 for "Australian dollar, daily average" on 2023-05-31, converting 100.1234 CAD echoes the request with rate 1.23 and amount 100.1234 / 1.23 |

## Left out

- Reading the file is not modelled: `fs.createReadStream`, the `dotenv` configuration and the resolution of the file path. The input is a `CsvStream` value.
- `LoadExchangeRates`: errors of the file stream itself are not modelled. The three handlers (src/utils/exchangeRateLoader.js:27-36) are attached to the stream that `.pipe(csv(...))` returns, and `pipe` does not forward the file stream's `error` event. So a missing or unreadable file never reaches the `error` handler: the load promise stays pending, and the unhandled `error` event ends the process. The `.catch` at src/services/conversionService.js:14-16 never runs for it. `Failed` stands only for an `error` event of the parsed CSV stream.
- csv-parser's own line splitting and quoting are not modelled, nor its strict mode. Cells beyond the header go under `_<index>` keys, which the loader never reads, so `BindRow` omits them.
- A stream that never ends or fails is not modelled: the promise would stay pending. Events arriving after `end` are not modelled either.
- The asynchronous start-up is not modelled: `initPromise` and `await initPromise`. The table is a parameter, and `TableAfterLoad` gives its value once loading has settled.
- Logger calls are side effects only. The Express application, the routes and the controller are not part of this model. The controller passes the service's status codes through and adds a catch-all 500.
- date-fns `parseISO`/`isValid` and `parseFloat` are parameters, not definitions. The model proves nothing about which dates or numerals they accept.
- `ParseFloat` has no infinities, because parsers return `Option<real>`. JavaScript's `parseFloat("Infinity")` gives `Infinity`, which the loader would accept as a rate.
- A non-string `date` or `currency` in the request body is not modelled. Both fields are absent or strings. date-fns' handling of non-string arguments differs between its versions.
- An `amount_in_cad` that is `null`, a boolean, an array or an object is not modelled; the amount is absent, a string or a number. In the code `true` and `{}` give "Invalid amount", and `[5]` validates as 5, because `parseFloat` first turns its argument into a string.
- Numbers are reals, not IEEE doubles. Negative zero is not distinguished from zero.
- `ConvertCurrency`: the converted amount is the exact real quotient. JavaScript's division rounds it to the nearest double, and the model does not capture that rounding.
- The tests under `tests/services/` expect structured `{field, message}` errors and a supported-currency check. The code under `src/services/` does neither, so the model does not either.
