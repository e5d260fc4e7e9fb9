# lambda-runtimes, modelled in Dafny

`LambdaRuntimes` builds a catalog of AWS Lambda runtimes from the Lambda
documentation page. It fetches the page and walks its HTML tables in
document order. A table titled exactly `Supported Runtimes` is mapped row
by row with the current-runtime layout. A table titled exactly
`Deprecated runtimes` is mapped with the expired-runtime layout. Tables with
any other title are ignored. The records are appended to the catalog's
list, and the catalog answers three queries by key: the record, whether the
runtime is expiring, and whether it has expired.

The model has five modules:

- `Wrappers` (`wrappers.dfy`): `Option` and `Result`.
- `RowMapping` (`row_mapping.dfy`): the `Runtime` record and the mapping of
  one row to a record for each layout (`CurrentRecord`, `ExpiredRecord`).
  It also has the table-level specification `Records`, defined through
  `MapRows`, which maps the rows of a table with any row mapping. The two
  table processors `ProcessCurrentRuntimes` and `ProcessExpiredRuntimes`
  are loops proved equal to `Records`. Lemmas cover skipping empty rows,
  row order, the first failing row and the record invariant: `expired`
  implies `isExpiring`, `isExpiring` holds exactly when there is a
  deprecation date, and `expired` exactly when there is an expiry date.
- `Dispatch` (`dispatch.dfy`): exact title matching and what one table
  contributes (`TableOutcome`). It also defines the walk over the tables
  (`Walk`, `Dispatched`), with lemmas for concatenation, one step, the flag
  invariant and tables of unknown title.
- `Lookups` (`lookups.dfy`): the first-match search by key (`FirstMatch`,
  `Lookup`). A lemma shows that appending records never changes an answer
  already given.
- `Catalog` (`lambda_runtimes.dfy`): the class `LambdaRuntimes`. Its
  `runtimes` field is a `seq<Runtime>` that `Populate` only ever appends
  to, through the title-dispatch loop `AppendTables`. `GetRuntime`,
  `RuntimeIsExpiring` and `RuntimeIsExpired` are linear
  scans with early return, proved against `Lookup`.

Three things outside the core are parameters of the model:

- The date parser is a total function `string -> Option<DateTime>`. `None`
  means the parser raised.
- The page fetch is a total function `(url, validateSsl) -> Option<seq<Table>>`.
  `None` means a failed request.
- A table arrives already extracted: the text of its title element, if it
  has one, and the stripped cell texts of each of its rows.

## Behaviour taken from the code

- Only the empty cell means "no date". Text such as `Not scheduled` or `N/A`
  in a date column is given to the date parser like any other text
  (`RowMapping.ShortCurrentRowAndPlaceholderText`).
- The columns are fixed: 0, 1 and 5 for the supported table, and 0, 1, 3
  and 4 for the deprecated table. A non-empty row that is too short aborts
  processing. So does a date the parser rejects. A five-cell supported row
  fails.
- The expired layout reads its cells in the order the record's entries are
  written. A non-empty column 3 is parsed before column 4 is read, so the
  error reported for such a row depends on that order (`ExpiredRecord`).
- The list is never cleared. Populating again appends again. With a key
  present twice, lookups answer from the earliest record.
- A table whose processing fails appends nothing. The tables before it
  stay appended, and the error then stops the walk (`Populate`,
  `WalkStep`).
- A missing table is not an error: it just contributes nothing.
- A table without a title element aborts the walk (`MissingTitle`). In the
  code, reading the title of `None` raises.

## Model

| member | source | states |
|---|---|---|
| `RowMapping.Cell` | lambdaruntimes/__init__.py:43-50 | Reading column c succeeds exactly when the row has more than c cells, giving that cell; otherwise it is the index error for column c. |
| `RowMapping.ParseDate` | lambdaruntimes/__init__.py:46-74 | Parsing succeeds exactly when the parser accepts the text, giving its date; otherwise it is the parse error for that text. |
| `RowMapping.CurrentRecord` | lambdaruntimes/__init__.py:43-50 | A supported row maps exactly when it has at least 6 cells and column 5 is empty or parses. The name and key are columns 0 and 1, expiry is None and expired is false. Expiring holds iff column 5 is non-empty, and deprecation is None iff column 5 is empty, else the parsed date. A short row fails at the first missing column (1 or 5), otherwise the unparsable text is reported. |
| `RowMapping.ExpiredRecord` | lambdaruntimes/__init__.py:70-77 | A deprecated row maps exactly when it has at least 5 cells, column 4 parses, and column 3 is empty or parses. Expiring and expired are both true. Expiry is parse(column 4). Deprecation is parse(column 3), or parse(column 4) when column 3 is empty. Each failure (missing column 1/3/4, unparsable column 3 or 4) is reported in the order the code reads the cells. |
| `RowMapping.RowRecord` | lambdaruntimes/__init__.py:43-77 | Every record either layout produces keeps the record invariant: expired implies expiring, expiring iff a deprecation date is stored, expired iff an expiry date is stored. |
| `RowMapping.NonEmptyRows` | lambdaruntimes/__init__.py:40-42 | The rows kept are exactly the rows that have at least one cell, each as often as it occurs, and there are no more of them than rows. |
| `RowMapping.NonEmptyRowsConcat` | lambdaruntimes/__init__.py:40-42 | Skipping empty rows keeps row order: filtering a + b is filtering a, then filtering b. |
| `RowMapping.MapRows` | lambdaruntimes/__init__.py:40-50 | Mapping the rows of a table yields at most one record per row, and a failure is the error of some non-empty row. |
| `RowMapping.Records` | lambdaruntimes/__init__.py:40-77 | A processed table has at most one record per row, and a failing table reports the error of some non-empty row under that table's layout. |
| `RowMapping.MapRowsKeepsConsistent` | lambdaruntimes/__init__.py:40-50 | When every record a row mapping yields keeps the record invariant, so does every record of the mapped table. |
| `RowMapping.MapRowsSucceedIffRowsMap` | lambdaruntimes/__init__.py:40-50 | Mapping a table's rows succeeds iff every row with cells maps, for any row mapping. |
| `RowMapping.MapRowsFollowNonEmptyRows` | lambdaruntimes/__init__.py:40-50 | A mapped table has one record per row with cells, and the i-th record is the mapping of the i-th such row, for any row mapping. |
| `RowMapping.MapRowsFailAtFirstBadRow` | lambdaruntimes/__init__.py:40-77 | A failing table reports the error of its first failing row with cells, and every row before it maps, for any row mapping. |
| `RowMapping.RecordsSucceedIffRowsMap` | lambdaruntimes/__init__.py:40-77 | Processing a table succeeds iff every row with cells maps to a record. |
| `RowMapping.RecordsFollowNonEmptyRows` | lambdaruntimes/__init__.py:40-77 | A processed table has exactly one record per row with cells, and the i-th record is the mapping of the i-th such row (empty rows skipped, order kept). |
| `RowMapping.RecordsFailAtFirstBadRow` | lambdaruntimes/__init__.py:40-77 | A failing table reports the error of its first failing row with cells; every row before it maps. |
| `RowMapping.RecordsConsistent` | lambdaruntimes/__init__.py:40-77 | Every record of a processed table keeps the record invariant. |
| `RowMapping.ShortCurrentRowAndPlaceholderText` | lambdaruntimes/__init__.py:46-48 | A five-cell supported row fails on column 5. "Not scheduled" in column 5 is parsed as a date, and when it parses the runtime is expiring. |
| `RowMapping.ExpiredRowDates` | lambdaruntimes/__init__.py:73-74 | With both dates present, deprecation and expiry are the two parsed dates. With column 3 empty, both are the column 4 date. |
| `RowMapping.ProcessCurrentRuntimes` | lambdaruntimes/__init__.py:29-54 | The loop over the rows returns exactly `Records(Current, rows)`: the records of the rows with cells, in order, or the first row's error. |
| `RowMapping.ProcessExpiredRuntimes` | lambdaruntimes/__init__.py:56-81 | The loop over the rows returns exactly `Records(Expired, rows)`. |
| `Dispatch.KindOfTitle` | lambdaruntimes/__init__.py:99-101 | The supported layout is chosen exactly for the title "Supported Runtimes" and the deprecated layout exactly for "Deprecated runtimes", compared exactly. |
| `Dispatch.TableOutcome` | lambdaruntimes/__init__.py:97-104 | Any title other than the two known ones contributes nothing and no error. A table without a title is an error. A failing table contributes no record. |
| `Dispatch.TableOutcomeByTitle` | lambdaruntimes/__init__.py:98-102 | A table titled exactly "Supported Runtimes" contributes its current-layout records or its error, and one titled exactly "Deprecated runtimes" its expired-layout records or its error. |
| `Dispatch.KnownTables` | lambdaruntimes/__init__.py:97-104 | The kept tables are exactly those whose title is missing or one of the two known titles, each as often as it occurs. |
| `Dispatch.KnownTablesConcat` | lambdaruntimes/__init__.py:97-104 | Dropping tables of unknown title keeps document order: filtering a + b is filtering a, then filtering b. |
| `Dispatch.WalkConcat` | lambdaruntimes/__init__.py:97-104 | Walking a + b yields the walk of a, then (unless a failed) the walk of b appended after it. |
| `Dispatch.WalkError` | lambdaruntimes/__init__.py:97-104 | The walk over the tables ends without error exactly when no table reports one, and an error it ends with is one table's error. |
| `Dispatch.DispatchedError` | lambdaruntimes/__init__.py:97-104 | Populating from a page ends without error exactly when every table is processed without error, and a reported error comes from one of the tables. |
| `Dispatch.WalkStep` | lambdaruntimes/__init__.py:97-102 | After an error-free prefix, the next table either stops the whole walk with its error and nothing more appended, or appends its records after the prefix's. |
| `Dispatch.WalkConsistent` | lambdaruntimes/__init__.py:97-102 | If every table's contribution keeps the record invariant, so does everything the walk appends. |
| `Dispatch.WalkIgnoresUnknownTables` | lambdaruntimes/__init__.py:103-104 | Tables that contribute nothing can be removed without changing the walk. |
| `Dispatch.TableOutcomeConsistent` | lambdaruntimes/__init__.py:99-102 | Every record one table contributes keeps the record invariant. |
| `Dispatch.DispatchedConsistent` | lambdaruntimes/__init__.py:97-102 | Every record populating appends keeps the record invariant. |
| `Dispatch.DispatchedIgnoresUnknownTables` | lambdaruntimes/__init__.py:97-104 | Removing the tables of unknown title from a page does not change what populating yields. |
| `Dispatch.DispatchedConcat` | lambdaruntimes/__init__.py:97-104 | Populating from the tables of a then b yields a's records, then (unless a failed) b's, in document order. |
| `Lookups.FirstMatch` | lambdaruntimes/__init__.py:112-116 | The index found holds the key and no earlier record does. No index is found iff no record holds the key. |
| `Lookups.Lookup` | lambdaruntimes/__init__.py:106-116 | The answer is None iff no record has the key. Otherwise it is the first record in list order with that key. |
| `Lookups.ExpiringFlag` | lambdaruntimes/__init__.py:118-128 | The answer is None iff no record has the key; otherwise it is the expiring flag of the first record with the key. |
| `Lookups.ExpiredFlag` | lambdaruntimes/__init__.py:130-140 | The answer is None iff no record has the key; otherwise it is the expired flag of the first record with the key. |
| `Lookups.LookupAfterAppend` | lambdaruntimes/__init__.py:112-116 | After appending records, a key that was present gives the same answer as before, and a key that was absent is looked up in the new records. |
| `Lookups.ExpiredAnswerImpliesExpiring` | lambdaruntimes/__init__.py:124-140 | In a list whose records keep the record invariant, an "expired" answer for a key comes with an "expiring" answer. |
| `Lookups.FlagAnswersFollowDates` | lambdaruntimes/__init__.py:118-140 | In a list whose records keep the record invariant, the expiring answer says whether the record found has a deprecation date, and the expired answer whether it has an expiry date. |
| `Catalog.LookupsSurvive` | lambdaruntimes/__init__.py:97-116 | For every key already present, appending records leaves the answer unchanged. |
| `Catalog.ProcessTable` | lambdaruntimes/__init__.py:97-104 | Dispatching one table on its exact title returns exactly what `TableOutcome` says the table contributes, and its records keep the record invariant. |
| `Catalog.LambdaRuntimes.constructor` | lambdaruntimes/__init__.py:23-25 | The TLS flag, true by default, is stored. An absent URL, the default, means the default documentation URL. The list starts empty. |
| `Catalog.LambdaRuntimes.Populate` | lambdaruntimes/__init__.py:83-104 | A failed fetch appends nothing. Otherwise the list becomes the old list followed by the walk's records, and the walk's error is returned. The record invariant is kept, and the answer for every key already present is unchanged. |
| `Catalog.LambdaRuntimes.AppendTables` | lambdaruntimes/__init__.py:95-104 | The loop over the tables leaves the list as the old list followed by the walk's records and returns the walk's error, keeping the record invariant for the whole list. |
| `Catalog.LambdaRuntimes.GetRuntime` | lambdaruntimes/__init__.py:106-116 | Returns the first record in list order whose key matches, or None exactly when no record has the key. |
| `Catalog.LambdaRuntimes.RuntimeIsExpiring` | lambdaruntimes/__init__.py:118-128 | Returns the expiring flag of that same first match, or None exactly when the key is absent. The answer is true exactly when that record has a deprecation date. |
| `Catalog.LambdaRuntimes.RuntimeIsExpired` | lambdaruntimes/__init__.py:130-140 | Returns the expired flag of that same first match, or None exactly when the key is absent. The answer is true exactly when that record has an expiry date, and an "expired" answer comes with an "expiring" answer for the same key. |

## Left out

- The HTTP request, its TLS verification and `raise_for_status`
  (lambdaruntimes/__init__.py:84-89) are network I/O. The model takes the
  fetch as a function of the URL and the TLS flag, and a failed fetch
  appends nothing.
- HTML parsing (`find_all('tr')`, `find_all('td')`, `.text.strip()` and the
  `.title` selection) is a foreign library. The model receives already
  extracted titles and stripped cell texts.
- `dateutil.parser.parse` is a foreign library. The model treats it as a
  deterministic, possibly failing parameter and never looks inside the
  dates it returns.
- Logging is left out.
- The record list is a class attribute in the code, shared by every
  instance. The model gives each catalog object its own list and keeps the
  append-only, never-cleared behaviour.
- `Catalog.LambdaRuntimes.constructor`: in the code, construction also
  populates the list and raises on error. A Dafny constructor cannot report
  that error, so the model splits construction into the constructor and a
  `Populate` call that returns the error.
- The lookups return the stored dictionary, which a caller could then
  modify. The model returns the record as a value, so that aliasing is not
  captured.
- Several exception types are merged. Any failure of the HTTP request,
  whether a transport error or an error status, is `FetchFailed`. Any
  exception the date parser raises is `UnparsableDate(text)`. An index
  error is `MissingCell(column)`, and a missing title element is
  `MissingTitle`.
