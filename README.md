# Binance klines to BigQuery: a verified model

This project models `main.py`, an HTTP cloud function. The function:

1. fetches the most recent one-minute candles ("klines") for BTCUSDT from
   the Binance REST endpoint `/api/v3/klines`;
2. turns each kline entry into a table row `{ts, symbol, open, high, low,
   close, volume}`;
3. streams the rows into the BigQuery table `PROJECT.crypto.btc_ohlc_1m`;
4. answers with a `(message, status)` pair.

The model is split into five modules:

- `Wrappers` holds `Option` and `Result`. Raised exceptions become `Err`
  values that carry the text `str(e)` would give.
- `Decimal` covers decimal digit strings: Python's `str(n)` and the
  zero-padded fields of `isoformat()`, with their values read back.
- `Calendar` is the proleptic Gregorian calendar of Python's `datetime`.
  It provides days-from-civil and civil-from-days, proved inverse to each
  other.
- `Timestamp` covers `datetime.utcfromtimestamp(ms / 1000.0)` on integer
  milliseconds, the `isoformat()` text of the resulting `+00:00` instant,
  and a reader for that text. The reader is used to state what a row's
  `ts` denotes.
- `Ingest` covers the three functions of `main.py`:
  - `FetchBinanceKlines` is a method whose loop builds the rows one entry
    at a time. It is proved equal to the specification function `Klines`.
  - `InsertRowsBigQuery` is the writer.
  - `IngestBinanceToBq` is the entry point.

The exchange, BigQuery and Python's `float()` are parameters of the model:

- `Network` is the HTTP exchange, a function from the request (URL, query
  parameters, timeout) to a reply.
- `Warehouse` says whether constructing the client raises, and how
  `insert_rows_json` answers each call.
- `FloatParse` is `float()` on a JSON scalar.

Every insert call the writer makes is returned as a trace, so "no insert
happens" is a provable statement.

## Model

| member | source | states |
|---|---|---|
| Ingest.FetchBinanceKlines | main.py:16-49 | The loop returns exactly what `Klines` specifies: one GET with the configured symbol, interval, limit and a 10 s timeout; the transport error or the HTTP error for a 4xx/5xx status; the decoding error; otherwise the rows of all entries in order, or the error of the first entry that raises |
| Ingest.KlinesOutcome | main.py:23-49 | The fetch succeeds iff the reply is a response with a status `raise_for_status` accepts, the body is a list of entries and every entry converts; it then returns one row per entry, in entry order, whatever the limit (no truncation, no sorting) |
| Ingest.KlinesFetchFailure | main.py:26-27 | A transport failure or a 4xx/5xx status fails the fetch at the fetch stage, before any entry is looked at |
| Ingest.NormalizeCountAndOrder | main.py:30-49 | Normalisation succeeds iff every entry converts; row `i` is then the conversion of entry `i`, and there are exactly as many rows as entries |
| Ingest.NormalizeFirstFailure | main.py:31-47 | A failed normalisation carries the error of the first entry that fails (all earlier entries convert), and no partial row list is returned |
| Ingest.ConvertAllCountAndOrder | main.py:30-49 | The append-in-a-loop pattern for any per-element conversion: success iff every element converts, then one result per element in order |
| Ingest.ConvertAllFirstFailure | main.py:30-49 | The append-in-a-loop pattern for any per-element conversion: a failure is the error of the first failing element |
| Ingest.ConvertAllErrPersists | main.py:30-49 | Once an element has failed, later elements do not change the outcome (the exception escapes the loop) |
| Ingest.RowsCarrySymbol | main.py:31-47 | Every row of a successful normalisation carries the configured symbol |
| Ingest.KlineRowFields | main.py:32-47 | An entry converts iff it has at least six fields, field 0 is a whole number of milliseconds that a `datetime` can hold, and `float()` accepts fields 1-5. The row then takes open, high, low, close and volume from fields 1-5 in that order and the symbol from the configuration, and its `ts` text reads back as exactly the instant of field 0 |
| Ingest.NumbersFromFields | main.py:41-45 | Reading fields `j .. j+n-1` succeeds iff each exists and `float()` accepts it; value `i` is `float()` of field `j+i` |
| Ingest.TimeTextDenotes | main.py:32-39 | Field 0 gives a `ts` text iff it is an integer whose instant lies in years 1-9999; the text then parses back to that instant, which is that many milliseconds after the epoch |
| Ingest.KlineRowIgnoresExtraFields | main.py:32-45 | Fields after the sixth are never read: appending fields to a six-field entry leaves its row, or its error, unchanged |
| Ingest.KlineExample | main.py:32-45 | When `float()` accepts its five number fields, the entry `[1700000000000, "105.0", "110.0", "100.0", "108.0", "50.0", ...]` becomes the row stamped `2023-11-14T22:13:20+00:00` with the five numbers in order |
| Ingest.InsertRowsBigQuery | main.py:52-70 | One insert call, to `project.dataset.table` with all rows, iff the client was built and there are rows, else none. No rows gives ("No rows", 200). The status is 200 iff the client was built and the rows are empty or the insert returned no errors, otherwise 500 or an exception. A client that cannot be built, or an insert that raises, yields that exception with its own text at the write stage |
| Ingest.InsertErrorsReported | main.py:63-67 | When the insert returns errors, the reply has status 500, begins with `BigQuery insert errors: ` and contains every error's text |
| Ingest.InsertedReported | main.py:69-70 | When the insert is accepted, the reply has status 200 and reads `Inserted N rows into project.dataset.table`, where `N` is the digit string, without leading zeros, whose value is the number of rows |
| Ingest.JoinContains | main.py:67 | Each list element's text occurs in the joined list text |
| Ingest.DefaultTable | main.py:8-10 | Without GCP_PROJECT the destination is `bitcoin-480204.crypto.btc_ohlc_1m` |
| Ingest.IngestBinanceToBq | main.py:74-85 | The status is always 200 or 500; a failed fetch answers `(str(e), 500)` and makes no insert call |
| Ingest.IngestPassesWriterOutcome | main.py:79-85 | After a successful fetch, the writer's pair is returned unchanged, a writer exception becomes `(str(e), 500)`, and the insert calls are the writer's |
| Ingest.IngestSucceeds | main.py:79-85 | The entry point answers 200 iff the fetch succeeds, the client is built, and there were no rows or the insert returned no errors |
| Timestamp.MillisRoundTrip | main.py:32-35 | The instant `utcfromtimestamp` gives for `ms` is a valid datetime with whole milliseconds, lying exactly `ms` milliseconds after the epoch |
| Timestamp.MillisOfDateTime | main.py:32-35 | Every datetime with whole milliseconds is the instant of exactly one millisecond count: conversion is onto as well as one-to-one |
| Timestamp.UtcFromMillisRange | main.py:33-35 | The conversion succeeds iff `ms` lies between 0001-01-01T00:00 and the end of year 9999 |
| Timestamp.ExampleInstant | main.py:32-35 | 1700000000000 ms is 2023-11-14 22:13:20.000000 UTC |
| Timestamp.ExampleText | main.py:39 | That instant's `isoformat()` is `2023-11-14T22:13:20+00:00` |
| Timestamp.FormatIsoLength | main.py:39 | The text is 25 characters, or 32 when the microseconds are non-zero |
| Timestamp.ParseFormatIso | main.py:39 | The `isoformat()` text of every valid instant reads back as that instant |
| Timestamp.FormatParsedIso | main.py:39 | Every text the reader accepts is exactly the `isoformat()` text of what it reads: the text has one spelling |
| Timestamp.EpochIs1970 | main.py:33-34 | Day count 719162 is 1970-01-01, the Unix epoch |
| Calendar.CivilFromDayNumberSound | main.py:33-35 | Civil-from-days yields a valid date whose day count is the count it started from |
| Calendar.CivilOfDayNumber | main.py:33-35 | Days-from-civil followed by civil-from-days returns the date |
| Calendar.DayNumberInjective | main.py:33-35 | Distinct valid dates have distinct day counts |
| Calendar.DaysBeforeYearIsSpan | main.py:33-35 | The leap-year closed form equals the sum of the lengths of the preceding years |
| Calendar.YearBelow | main.py:33-35 | A day count falls before year `y` iff it is below the days before January 1 of `y` |
| Decimal.PadValue | main.py:39 | A zero-padded `isoformat` field reads back as its number |
| Decimal.PadOfValue | main.py:39 | A digit string is the padded spelling of its own value |
| Decimal.DecimalStringValue | main.py:69-70 | `str(n)` reads back as `n` |

## Left out

- HTTP transport, JSON decoding and the BigQuery service are function parameters (`Network`, `Warehouse`). Their exception texts are carried verbatim, not modelled.
- The decoded body is given either as `Entries`, the sequence of entries that `for k in raw` visits, or as `Undecodable`, which carries the text of the exception raised while decoding or iterating the body. A 2xx body that yields nothing to iterate, such as `{}`, `[]` or `""`, is given as `Entries([])`. The source then answers `("No rows", 200)`, and so does the model. A non-empty object or string is iterated key by key or character by character in the source. That has to be given by hand as entries of one-character `Str` fields. The model does not derive it from the body. Python's IndexError text for an empty string key ("string index out of range") is not distinguished from the list one.
- An entry is modelled as a list of fields; a string entry can be given as one-character `Str` fields. An entry that is a number, boolean, null or object is not modelled. In the source, `k[0]` raises on such an entry: a TypeError ("... object is not subscriptable") or, for an object, a KeyError whose text is `0`. That exception aborts the whole normalisation and the entry point answers `(that text, 500)`. The model can only say this indirectly: a body whose decoding or iteration is given as `Undecodable` with that text yields the same reply.
- Every field of an entry is modelled as an integer, a string or null. A JSON float, boolean, list or object is not modelled in any field. This covers field 0 and the price and volume fields 1-5 alike. Binance sends an integer in field 0 and decimal strings in fields 1-5.
- `float()` is the `FloatParse` parameter, and prices and volumes are `real`. IEEE-754 double rounding is not modelled. Neither are the non-finite values `float()` can return, such as `nan` from `"nan"` or infinity from `"inf"` or `"1e400"`. No `real` denotes them, so a `FloatParse` cannot return them.
- Timestamp.UtcFromMillis: computes `utcfromtimestamp(ms / 1000.0)` exactly on integer milliseconds. It does not model the rounding of the double `ms / 1000.0`. That rounding can move the microseconds only for instants at least about 2^33 seconds from the epoch, in either direction. That is after about the year 2242 or before about the year 1698. For example, `ms = -8589934592001` gives microsecond `999001` in Python and `999000` in the model.
- The text of the exception `utcfromtimestamp` raises outside years 1-9999 is approximated as `year is out of range`. Python also names the year, or raises an OverflowError, depending on the platform.
- The `print` logging lines are left out.
- The unused `request` argument of the entry point is left out.
- `raise_for_status` is modelled as requests implements it: it raises for statuses 400-599 only, so a 1xx or 3xx reply is decoded like a 2xx one.
- The BigQuery client is constructed before the empty-rows check. A failing client construction therefore answers 500 even when there are no rows.
- The code does not sort rows, trim them to the limit, retry, delete before inserting, or deduplicate. The model does none of these, and `KlinesOutcome` states that the rows are exactly the entries in order.
