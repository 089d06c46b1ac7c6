# Depreciation and UFV re-expression of fixed assets (Bolivia)

A Dafny model of the calculation engine inside the Streamlit script
`Trabajo_Final_Depreciacion.py`. The script applies straight-line
depreciation under Article 22 of Supreme Decree 24051. It first re-expresses
the purchase value with the UFV (Unidad de Fomento de Vivienda) index, as
Norma Contable Nº 3 requires. The model covers:

- `UfvIndex`: the UFV series and the nearest-date lookup `get_ufv_by_date`.
- `Catalog`: the useful-life lookup in the asset catalog of Decree 24051.
- `Depreciation`: the per-asset formulas. These are elapsed whole years
  (365-day divisor, capped by the useful life), the re-expression factor, the
  adjusted value, and the annual and accumulated depreciation. Last comes
  the book value, floored at 0.
- `Schedule`: the year-by-year book value and accumulated depreciation that
  the script plots. It also gives the straight line those points lie on,
  which the script's linear-regression prediction reproduces.
- `Batch`: the loop over the five form slots. It keeps the entries with a
  positive purchase value, in input order, and appends their results to
  `resultados`. The loop is proved once for any loop body
  (`Batch.CollectWith`), then used with the script's own body.

Money and index values are exact `real`s. Dates are day numbers (`int`). The
evaluation date ("today") is a parameter. The catalog and the UFV series are
in-memory sequences. The Python exceptions the loop body can raise stop the
whole script. Here they are the failures of `Batch.CalcError`, and the first
one met is the outcome of the batch:

- an asset name missing from the catalog (`IndexError`);
- an empty UFV series (the float conversion of an empty selection fails);
- a zero initial index value or zero useful life (`ZeroDivisionError`).

The pure formula function `Depreciation.Compute` instead requires both
divisors to be non-zero.

Three behaviours of the code are easy to overlook; the model states what the
code does:

- Elapsed years are capped only from above (line 50). A cleaned-up engine
  would clamp them at 0; the script does not. An acquisition date after the
  evaluation date gives negative elapsed years, a negative accumulated
  depreciation and a book value above the adjusted value.
  `Depreciation.FutureAcquisitionOverstatesBook` states this.
- The nearest-date lookup takes the first position of `argsort`, whose
  default sort is not stable (line 31). So among equally near rows, which
  one is read is not fixed. The contract promises "some nearest row", not
  "the earliest".
- The year divisor is the constant 365 (line 49), and re-expression is
  always applied (lines 53-56). The script has no other day count and no
  switch that turns re-expression off.

## Model

| member | source | states |
|---|---|---|
| UfvIndex.Distance | Trabajo_Final_Depreciacion.py:31 | the absolute day difference `(fecha - target).abs()`: one of the two signed differences, never negative |
| UfvIndex.NearestRow | Trabajo_Final_Depreciacion.py:31 | on a non-empty series, returns a row whose date distance to the target is at most that of every row |
| UfvIndex.UfvByDate | Trabajo_Final_Depreciacion.py:30-32 | no value exactly when the series is empty; otherwise the value of some row nearest to the target |
| UfvIndex.UfvIsPublished | Trabajo_Final_Depreciacion.py:32 | the value looked up is always the value of one of the series' rows |
| UfvIndex.ExactDateIsRead | Trabajo_Final_Depreciacion.py:31 | when a row carries the target date itself, the value read is that of a row with that date |
| UfvIndex.TieBreakIrrelevant | Trabajo_Final_Depreciacion.py:31 | if all nearest rows agree on the value, the unstable tie-break does not matter: the lookup returns that value |
| Catalog.FirstMatch | Trabajo_Final_Depreciacion.py:44 | the position of the first catalog row with the given name, or none exactly when no row has it |
| Catalog.UsefulLife | Trabajo_Final_Depreciacion.py:44 | `vida_util` of the first row whose name matches (`.values[0]`); none exactly when no row matches |
| Catalog.UniqueNameReadsItsRow | Trabajo_Final_Depreciacion.py:39-44 | a name that occurs once in the catalog (the form offers unique names) reads that row's useful life |
| Depreciation.ElapsedYears | Trabajo_Final_Depreciacion.py:49-50 | at most the useful life; equal to it exactly when the days elapsed reach 365 times the useful life; otherwise the floor of days/365. There is no lower bound |
| Depreciation.Compute | Trabajo_Final_Depreciacion.py:53-61 | factor times initial index equals current index; adjusted value times initial index equals purchase times current index; annual times useful life equals adjusted; accumulated equals annual times elapsed years; book value is `max(0, adjusted - accumulated)` |
| Depreciation.BookPlusAccumulated | Trabajo_Final_Depreciacion.py:59-61 | for a non-negative adjusted value and non-negative elapsed years, book value plus accumulated depreciation equals the adjusted value, and the book value lies between 0 and the adjusted value |
| Depreciation.FullyDepreciated | Trabajo_Final_Depreciacion.py:49-61 | once 365 times the useful life in days has passed, elapsed years equal the useful life, everything is depreciated and the book value is 0 |
| Depreciation.FutureAcquisitionOverstatesBook | Trabajo_Final_Depreciacion.py:49-61 | an acquisition date after the evaluation date gives negative elapsed years, negative accumulated depreciation and a book value above the adjusted value |
| Depreciation.SameIndexKeepsValue | Trabajo_Final_Depreciacion.py:55-56 | when both dates read the same index value, the factor is 1 and the adjusted value is the purchase value |
| Depreciation.AdjustedNotNegative | Trabajo_Final_Depreciacion.py:53-56 | positive index values and a non-negative purchase value give a positive factor and a non-negative adjusted value |
| Depreciation.ScheduleAtElapsed | Trabajo_Final_Depreciacion.py:96-98 | the plotted series at offset elapsed-years holds exactly the asset's current book value and accumulated depreciation |
| Depreciation.ExampleWithoutReexpression | Trabajo_Final_Depreciacion.py:49-61 | purchase 10000, life 5, equal index values, 730 days: 2 years, annual 2000, accumulated 4000, book 6000 |
| Depreciation.ExampleWithReexpression | Trabajo_Final_Depreciacion.py:53-61 | purchase 10000, index 2.0 to 2.5, life 5, 365 days: factor 1.25, adjusted 12500, annual 2500, book 10000 |
| Schedule.BookAt | Trabajo_Final_Depreciacion.py:97 | the book value once `annual*o` has been charged is `max(adjusted - annual*o, 0)`: never negative, and either 0 or the undepreciated remainder |
| Schedule.AccumulatedAt | Trabajo_Final_Depreciacion.py:98 | the accumulated amount once `annual*o` has been charged is `min(annual*o, adjusted)`: bounded by both, and equal to one of them |
| Schedule.Rows | Trabajo_Final_Depreciacion.py:96-98 | one row per offset 0..useful life (none for a negative life), each with its own offset and a non-negative book value; in every row book plus accumulated equals the adjusted value |
| Schedule.RowsEndpoints | Trabajo_Final_Depreciacion.py:96-98 | offset 0 is (adjusted, 0) and offset useful-life is (0, adjusted) |
| Schedule.RowsMonotone | Trabajo_Final_Depreciacion.py:96-98 | with a non-negative annual charge, book values are non-increasing and accumulated values non-decreasing |
| Schedule.RowsStrictlyMonotone | Trabajo_Final_Depreciacion.py:96-98 | with a positive annual charge over the useful life, book values strictly fall and accumulated values strictly rise up to the end of the useful life |
| Schedule.RowsOnTrend | Trabajo_Final_Depreciacion.py:115-124 | every book value of the series lies exactly on one straight line. A least-squares fit therefore reproduces it, so the predicted value at any year of the useful life is that year's book value |
| Batch.Assess | Trabajo_Final_Depreciacion.py:43-61 | an unknown name fails with UnknownAsset; a known name over an empty series fails with EmptySeries; a known name over a non-empty series fails with DivisionByZero exactly when its useful life is 0 or the index value read for the acquisition date is 0, and that value is then a nearest row's; a success carries the entry's data, the first catalog row's useful life and nearest index values for both dates, combined by `Compute` |
| Batch.AssessDivisionByZero | Trabajo_Final_Depreciacion.py:44-59 | for a known asset over a non-empty series, whichever nearest row is read: a useful life of 0 fails with DivisionByZero; nearest rows that all hold 0 fail with DivisionByZero; a non-zero useful life with no nearest row holding 0 succeeds |
| Batch.AssessSucceeds | Trabajo_Final_Depreciacion.py:43-59 | a known asset of non-zero useful life and a non-empty series of non-zero values always give a result |
| Batch.SameDayKeepsValue | Trabajo_Final_Depreciacion.py:53-56 | an asset acquired on the evaluation date keeps its purchase value (factor 1) |
| Batch.Kept | Trabajo_Final_Depreciacion.py:43 | no more entries than were entered, each with a positive purchase value |
| Batch.KeptMembers | Trabajo_Final_Depreciacion.py:43 | the kept entries are entries of the input, and every entry with a positive purchase value is kept |
| Batch.KeptAppend | Trabajo_Final_Depreciacion.py:37-43 | filtering commutes with concatenation, so the kept entries keep their input order |
| Batch.CollectFailurePersists | Trabajo_Final_Depreciacion.py:37-76 | a failure on an earlier slot is the outcome of the whole loop |
| Batch.Collect | Trabajo_Final_Depreciacion.py:37-76 | the loop's outcome for a given loop body: on success, one result per kept entry, in input order, each being that entry's assessment |
| Batch.CollectSucceedsIff | Trabajo_Final_Depreciacion.py:37-76 | the loop succeeds exactly when every entry with a positive purchase value can be assessed |
| Batch.CollectFirstError | Trabajo_Final_Depreciacion.py:37-76 | a failed run reports the failure of an entry with positive purchase value, and all kept entries before it were assessed |
| Batch.CollectedFromCatalog | Trabajo_Final_Depreciacion.py:43-76 | with the script's loop body, every result of a successful run has a positive purchase value and the useful life of the first catalog row of its name |
| Batch.CollectWith | Trabajo_Final_Depreciacion.py:37-76 | the while loop over the slots, for any loop body, returns exactly `Collect`: the first failure of a kept entry, or every kept entry's result in input order |
| Batch.CollectResults | Trabajo_Final_Depreciacion.py:35-76 | the loop with the script's body: its outcome is `Collect`'s; on success there are at most 5 results, each with a positive purchase value and the useful life of the first catalog row of its name |

## Left out

- Streamlit widgets, titles, markdown, table styling and number formatting (lines 24-27, 38-41, 79-91, 111-112, 123-125): presentation only.
- CSV loading, pandas date parsing and `st.cache_data` (lines 10-21): file I/O. The catalog and the UFV series are in-memory sequences, and dates are day numbers.
- Reading the clock with `datetime.now()` (line 45): the evaluation date is a parameter, one for the whole batch. The script reads the clock once per kept entry, so a run that crosses midnight could date its entries differently; the model does not capture that. `fecha_31dic` (line 46) is computed and never used.
- The `int(...)` conversion of the catalog's `vida_util` (line 44): the catalog holds integer useful lives, so no truncation of fractional values is modelled.
- Charts drawn with matplotlib and seaborn (lines 100-108): rendering only.
- The scikit-learn least-squares fit and its prediction (lines 118-124): a foreign library computing in floating point. The model proves that the fitted points lie exactly on `Schedule.Trend`, and it does not model the fit itself.
- Choosing which result to predict with `next(...)` (line 113): a UI-driven selection.
- IEEE floating-point rounding: all arithmetic is exact.
- UfvIndex.NearestRow: the definition picks the earliest nearest row, but its contract promises only some nearest row, because the script's unstable `argsort` fixes no tie-break.
