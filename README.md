# UCRF vehicle reliability service: a Dafny model of its data pipeline and handlers

UCRF ingests vehicle tables, normalises and enriches them, and stores vehicles with service-history
summaries. It answers HTTP requests for vehicle listings, service history and reliability/cost
forecasts. This project models the backend code that does that work and proves properties about the
model:

- `clean_and_merge`, `engineer_features`, `save_to_db` and `fetch_nhtsa_dummy` from
  `backend/app/data_pipeline.py`;
- `create_vehicle`, `list_vehicles`, `get_service_history` and `predict` from `backend/app/main.py`.

The files and their modules:

- `wrappers.dfy` (`Wrappers`): `Option`, `Result` and `Outcome`.
- `values.dfy` (`Values`): a table cell is `Str | Int | Missing`, where `Missing` is pandas' NaN and
  a NULL column.
  - The Python exceptions the code can raise.
  - The built-ins the pipeline applies to cells: `str.strip` with Python's whitespace set,
    `str.lower` for ASCII letters, `int()`, `float()`, `str()` and truthiness.
- `frames.dfy` (`Frames`): a pandas DataFrame as its column labels plus its rows. Each row is a map
  from label to cell.
  - `pd.concat(..., ignore_index=True, sort=False)`: the union of the labels, with absent cells
    padded with NaN.
  - `drop_duplicates(subset=...)` with its default `keep="first"`. It is modelled as the pandas
    algorithm: a `duplicated` mask built by a scan with a set of seen keys, then the unmarked rows.
    It is proved equal to a reference "first occurrence" filter.
- `store.dfy` (`Store`): the `vehicles` and `service_history` tables with the columns of
  `backend/app/models.py`.
  - The `Database` class holds the session. Its `AddVehicle` and `AddService` methods append a row
    under the next primary key (1, 2, 3, ...).
- `pipeline.dfy` (`Pipeline`): `clean_and_merge` is a method with the source's loop over the input
  tables. `engineer_features` is a function. The store is not involved in either.
- `persist.dfy` (`Persist`): `save_to_db` is a method looping over the rows against a `Database`.
  - It is proved equal to a functional specification `SaveRows`.
  - The properties of `save_to_db` are lemmas about `SaveRows`.
- `api.dfy` (`Api`): the four handlers.
  - `create_vehicle` is a method on the `Database`.
  - `list_vehicles` and `get_service_history` are functions of the store's contents.
  - `predict` is a function of the model artifacts.

The clock is a parameter in two places:

- `engineer_features` takes `currentYear`;
- `save_to_db` takes `today`.

The file system and the loaded models are the fields of an `Artifacts` value:

- whether each file exists;
- what `joblib.load` returns for it, a failure or a `predict` function, which is left uninterpreted.

Two behaviours of the code are easy to misread:

- `drop_duplicates` keeps the **first** row of each identity triple, because pandas' default is
  `keep="first"` (`backend/app/data_pipeline.py:44`).
- An absent `complaints`, `recalls` or `avg_service_cost` column makes `engineer_features` raise.
  `out.get(c, 0)` is then the plain integer 0, and an integer has no `fillna`. The function's own
  docstring (`backend/app/data_pipeline.py:49`) calls `complaint_rate` "(if available)" and the other
  two "placeholder", which suggests an absent column should read as 0. "## Findings" has this case,
  with a corrected variant.

Five decisions about how the source's behaviour is modelled:

- `drop_duplicates` raises `KeyError` when no input table has one of `make`, `model`, `year`. This is
  an error result of the merge, not a precondition. `drop_duplicates` returns an empty frame (no rows
  or no columns) unchanged before it looks at `subset`, and so does the model: such a merge never
  raises.
- A table whose labels repeat after normalisation is excluded by a precondition (`Normalizable`).
  One example is a table with both `Make` and `manufacturer`.
- `save_to_db` commits every insertion at once. A row that raises therefore stops the loop and
  leaves the earlier rows written. `SaveRows` returns the store together with the outcome.
- In Python NaN is truthy. A NaN `avg_service_cost` therefore still writes a summary row, with a
  NULL cost.
- A duplicate triple is one whose three cells are equal, and two NaN cells count as equal. That is
  how `drop_duplicates` treats them, and the stored-vehicle lookup uses the same equality.

## Model

| member | source | states |
|---|---|---|
| Values.StripStart | backend/app/data_pipeline.py:36 | the result is no longer than the input and does not start with whitespace |
| Values.StripEnd | backend/app/data_pipeline.py:36 | the result is a prefix of the input that does not end with whitespace |
| Values.Strip | backend/app/data_pipeline.py:36 | the result has no whitespace at either end and is no longer than the input |
| Values.StripStartOf | backend/app/data_pipeline.py:36 | `lstrip` of whitespace followed by text that starts with a non-space is that text |
| Values.StripEndOf | backend/app/data_pipeline.py:36 | `rstrip` of text that ends with a non-space followed by whitespace is that text |
| Values.StripSurrounded | backend/app/data_pipeline.py:36 | `strip` removes exactly the whitespace around a stripped text and nothing else |
| Values.StripIdempotent | backend/app/data_pipeline.py:36 | stripping a stripped label changes nothing |
| Values.Lower | backend/app/data_pipeline.py:36 | same length; each character is lower-cased, and only `A`-`Z` change |
| Values.LowerIdempotent | backend/app/data_pipeline.py:36 | lower-casing twice is lower-casing once |
| Values.ParseShowInt | backend/app/data_pipeline.py:52 | `int(str(n)) == n` for every integer, the round trip of the numeral parser |
| Values.ParseInt | backend/app/data_pipeline.py:52 | `int(s)` of text: after stripping, a run of digits is its decimal value, a `-` or `+` before digits negates or keeps it, anything else is rejected |
| Values.ShowInt | backend/app/main.py:69-71 | `str(n)`: decimal digits, preceded by `-` exactly for a negative number |
| Values.IntOf | backend/app/data_pipeline.py:52 | `int()` of a cell: an integer is itself, NaN fails, text converts exactly when it is a numeral; every failure is a `ValueError` |
| Values.FloatOf | backend/app/data_pipeline.py:73 | `float()` of a cell: an integer stays itself, NaN stays NaN, text converts exactly when it is a numeral |
| Values.Truthy | backend/app/data_pipeline.py:72 | `None` is falsy, `0` is falsy, and NaN is truthy |
| Values.ShowValue | backend/app/main.py:69-71 | `str()` of a cell: text as itself, NaN as `nan`, an integer as a numeral that `int()` reads back |
| Frames.Concat | backend/app/data_pipeline.py:43 | the concatenation is well formed; its columns are exactly the labels of all inputs, each once; its row count is the sum of theirs |
| Frames.ConcatEmpty | backend/app/data_pipeline.py:43 | the concatenation has no columns exactly when no input has one, and is empty exactly when no input has a row or none has a column |
| Frames.ConcatRowAt | backend/app/data_pipeline.py:43 | row `i` of input `k` sits at its offset in the concatenation, padded with NaN in the columns it lacks |
| Frames.DropDuplicates | backend/app/data_pipeline.py:44 | an empty frame (no rows or no columns) comes back unchanged; otherwise `KeyError` exactly when a subset column is absent, else a well-formed frame with the same columns and no more rows |
| Frames.Duplicated | backend/app/data_pipeline.py:44 | `duplicated(subset, keep="first")`: one mark per row, true exactly where the key appeared at an earlier row |
| Frames.DropDuplicatesKeepsFirst | backend/app/data_pipeline.py:44 | the kept rows are exactly the first row of each key, in their original order |
| Frames.DropDuplicatesUniqueKeys | backend/app/data_pipeline.py:44 | no two kept rows share a key |
| Frames.DropDuplicatesKeepsEveryKey | backend/app/data_pipeline.py:44 | every key of an input row is the key of some kept row |
| Pipeline.CanonicalName | backend/app/data_pipeline.py:36-39 | only a label that normalises to `manufacturer` is rewritten, and it becomes `make`; every other label keeps its stripped, lower-cased form |
| Pipeline.NormalizeName | backend/app/data_pipeline.py:36 | `c.strip().lower()` is stripped, has no upper case, and is no longer than the label |
| Pipeline.RenameManufacturer | backend/app/data_pipeline.py:38-39 | `rename(columns={"manufacturer": "make"})`: same number of labels; `manufacturer` becomes `make`, every other label stays |
| Pipeline.CanonicalNameIsNormal | backend/app/data_pipeline.py:36-39 | a label comes out stripped and without upper case |
| Pipeline.CanonicalNameIdempotent | backend/app/data_pipeline.py:36-39 | normalising a canonical label leaves it unchanged |
| Pipeline.NormalizeFrame | backend/app/data_pipeline.py:35-39 | the copy is well formed, its labels are the canonical names of the originals, and it has the same number of rows |
| Pipeline.NormalizeFrameColumns | backend/app/data_pipeline.py:36-39 | each label of a normalised table is stripped and lower-cased; `manufacturer` became `make` and nothing else was renamed |
| Pipeline.NormalizeFrameCells | backend/app/data_pipeline.py:35-39 | renaming moves no cell: each cell is now under the new name of its column |
| Pipeline.CleanAndMerge | backend/app/data_pipeline.py:31-45 | the loop builds exactly the normalised tables and the result is `MergeNormalized` of them: their concatenation, returned as is when it is empty, otherwise with later duplicate triples dropped |
| Pipeline.MergeNormalized | backend/app/data_pipeline.py:40-44 | no tables give an empty table; an empty concatenation comes back unchanged; otherwise `KeyError` for an identity label exactly when no table has it; a success is well formed, with at most as many rows as the inputs |
| Pipeline.MergeOfNothing | backend/app/data_pipeline.py:41-42 | no input tables give an empty table and no error |
| Pipeline.MergeOfEmptyTables | backend/app/data_pipeline.py:43-44 | tables without a row or without a column merge to their concatenation, with no error, even without make, model and year |
| Pipeline.MergeOfEmptyFrame | backend/app/data_pipeline.py:41-44 | `clean_and_merge([pd.DataFrame()])` gives an empty table, so the function accepts its own empty result |
| Pipeline.MergeFailsOnlyWithoutIdentity | backend/app/data_pipeline.py:43-44 | the merge succeeds exactly when no input has a row, no input has a column, or each of make, model and year is a column of some input |
| Pipeline.MergedTriplesUnique | backend/app/data_pipeline.py:43-44 | for tables with a column between them, after merging no two rows share a make/model/year triple |
| Pipeline.MergedKeepsFirstOfEachTriple | backend/app/data_pipeline.py:43-44 | for tables with a column between them, the merged rows are the first row of each triple in concatenation order |
| Pipeline.MergedKeepsEveryTriple | backend/app/data_pipeline.py:43-44 | for tables with a column between them, the triple of every row of every input table is present in the merge |
| Pipeline.FetchNhtsaDummy | backend/app/data_pipeline.py:25-28 | a well-formed table with no rows whose columns include make, model and year |
| Pipeline.ColumnNumbers | backend/app/data_pipeline.py:52-55 | `astype(int)` succeeds exactly when every cell converts, and then holds each cell's number |
| Pipeline.FillNa | backend/app/data_pipeline.py:53-55 | `fillna(0)` of a cell is never NaN and leaves a present value as it is |
| Pipeline.YearNumbers | backend/app/data_pipeline.py:52 | `out["year"].astype(int)`: `KeyError` without a `year` column, otherwise one converted year per row |
| Pipeline.FilledColumn | backend/app/data_pipeline.py:53-55 | a present column is converted with NaN read as 0; an absent one fails, and reads as zeros only in the corrected variant |
| Pipeline.EngineerWith | backend/app/data_pipeline.py:50-56 | the enrichment succeeds exactly when the year and the three filled columns convert, and is then the derived frame |
| Pipeline.EngineerFeatures | backend/app/data_pipeline.py:48-56 | one row out per row in, well formed; no `year` column gives `KeyError` |
| Pipeline.EngineerFeaturesSucceedsIff | backend/app/data_pipeline.py:52-55 | success exactly when every year converts and complaints, recalls and avg_service_cost are columns whose cells convert |
| Pipeline.EngineerFeaturesKeepsRows | backend/app/data_pipeline.py:50-56 | the input's columns come first, in order; each row gains the four derived cells and keeps every other cell |
| Pipeline.EngineerFeaturesAge | backend/app/data_pipeline.py:51-52 | `vehicle_age` is the reference year minus the converted year, and the converted year is `int()` of the row's `year` cell; negative for a future year |
| Pipeline.EngineerFeaturesFilled | backend/app/data_pipeline.py:53-55 | complaint_rate, recall_count and avg_service_cost are the converted source cells with `fillna(0)` applied; a NaN source cell gives 0 |
| Pipeline.BadYearFails | backend/app/data_pipeline.py:52 | one year that does not convert fails the whole call |
| Pipeline.DummyFeedCannotBeEnriched | backend/app/data_pipeline.py:25-28 | the module's own placeholder feed fails enrichment with the missing-`fillna` error |
| Pipeline.YearOnlyFails | backend/app/data_pipeline.py:53 | a table with only a `year` column fails enrichment in the same way |
| Pipeline.EngineerFeaturesDefaulted | backend/app/data_pipeline.py:49 | the corrected enrichment: well formed, one row per row, the input's columns followed by the derived ones |
| Pipeline.DefaultedSucceedsIff | backend/app/data_pipeline.py:49-55 | the corrected version fails only on a bad year or a cell that does not convert |
| Pipeline.DefaultedAgrees | backend/app/data_pipeline.py:53-55 | where all three source columns exist, the corrected version equals the original |
| Pipeline.DefaultedAbsentIsZero | backend/app/data_pipeline.py:49 | the corrected version reads an absent source column as 0 |
| Pipeline.DummyFeedEnrichedWhenDefaulted | backend/app/data_pipeline.py:25-28 | with the correction the placeholder feed enriches to an empty table |
| Pipeline.YearOnlyDefaulted | backend/app/data_pipeline.py:49-55 | with the correction, year 2020 in 2025 gives age 5 and zeros for the other features |
| Store.FindVehicle | backend/app/data_pipeline.py:63 | the first position whose triple matches, or none exactly when no vehicle matches |
| Store.InsertVehicle | backend/app/models.py:6-14 | appends one vehicle under the next id and changes nothing else |
| Store.InsertService | backend/app/models.py:20-26 | appends one service row under the next id and changes nothing else |
| Store.Database.AddVehicle | backend/app/data_pipeline.py:68-70 | the store gains exactly the new vehicle; the returned row carries its assigned id |
| Store.Database.AddService | backend/app/data_pipeline.py:74-75 | the store gains exactly the new service row |
| Persist.RowYear | backend/app/data_pipeline.py:63 | `int(row.get("year"))`: `TypeError` without a year, otherwise `int()` of the cell |
| Persist.Get | backend/app/data_pipeline.py:63 | `row.get(c)` is a value exactly when the row has the column, and then that cell |
| Persist.RowMileage | backend/app/data_pipeline.py:66 | mileage is 0 when the row has none, otherwise `int()` of the cell |
| Persist.GetOrCreate | backend/app/data_pipeline.py:63-70 | fails only when no vehicle matches and the mileage does not convert; a match leaves the store as it is, otherwise exactly one vehicle is appended and its id returned; service rows never change |
| Persist.AddSummary | backend/app/data_pipeline.py:72-75 | a falsy cost passes without a change; a cost that does not convert fails with the store unchanged; otherwise exactly one row is appended with the vehicle id, today's date, type "summary" and `float()` of the cost; vehicles never change |
| Persist.SaveRow | backend/app/data_pipeline.py:62-75 | one row only appends: earlier vehicles and service rows are unchanged and ids stay numbered |
| Persist.SaveRows | backend/app/data_pipeline.py:61-75 | the loop only appends to both tables and keeps ids numbered |
| Persist.SaveRowTo | backend/app/data_pipeline.py:62-75 | the session ends in the state `SaveRow` describes, with its outcome |
| Persist.SaveToDb | backend/app/data_pipeline.py:59-75 | the session ends in the state `SaveRows` describes, stopping at the first row that raises |
| Persist.SaveRowCreatesOnlyNew | backend/app/data_pipeline.py:63-70 | a vehicle is created only when no stored vehicle has its triple |
| Persist.SaveRowsCreatesOnlyNew | backend/app/data_pipeline.py:61-70 | every vehicle a run creates has a triple no earlier vehicle has |
| Persist.SaveRowsKeepsTriplesUnique | backend/app/data_pipeline.py:61-70 | a store without duplicate triples keeps none after a run |
| Persist.SaveRowAddsSummaries | backend/app/data_pipeline.py:72-75 | a row adds only summary rows dated today for a stored vehicle id |
| Persist.SaveRowsAddsSummaries | backend/app/data_pipeline.py:61-75 | every service row a run adds has type "summary", today's date and a stored vehicle id |
| Persist.SaveRowReuses | backend/app/data_pipeline.py:63-64 | a row whose triple is stored leaves the vehicles unchanged |
| Persist.SaveRowCreates | backend/app/data_pipeline.py:64-70 | otherwise exactly one vehicle built from the row is appended, with mileage 0 when the row has none |
| Persist.GetOrCreateFinds | backend/app/data_pipeline.py:63-70 | the vehicle id of the get-or-create step is that of the first vehicle with the row's triple, and no service row changes |
| Persist.SaveRowSummary | backend/app/data_pipeline.py:72-75 | a truthy avg_service_cost appends one summary row for the vehicle with the row's triple, costing `float()` of the cell |
| Persist.SaveRowNaNCost | backend/app/data_pipeline.py:72-75 | a NaN `avg_service_cost` is truthy: a row that goes through appends one summary row with a NULL cost |
| Persist.SaveRowStores | backend/app/data_pipeline.py:63-70 | a row that goes through leaves its vehicle stored |
| Persist.SaveRowsStoresEveryRow | backend/app/data_pipeline.py:61-70 | after a complete run the vehicle of every row is stored |
| Persist.SaveRowsConvertsEveryCost | backend/app/data_pipeline.py:72-73 | after a complete run every summary cost converted |
| Persist.SummaryCount | backend/app/data_pipeline.py:72 | the number of rows with a truthy avg_service_cost is at most the number of rows |
| Persist.SaveRowsSummaryCount | backend/app/data_pipeline.py:72-75 | a complete run adds one service row per row with a truthy avg_service_cost |
| Persist.SaveStoredRows | backend/app/data_pipeline.py:61-75 | rows whose vehicles are all stored and whose costs convert run through without creating a vehicle |
| Persist.SaveRowsTwice | backend/app/data_pipeline.py:60-75 | a second run adds no vehicle but appends every summary again |
| Api.Text | backend/app/main.py:20-21 | an absent optional text is stored as NULL, a present one as itself |
| Api.CreateVehicle | backend/app/main.py:31-37 | the store gains exactly the vehicle built from the payload; the returned id is that row's id |
| Api.CreatedIsFresh | backend/app/main.py:33-37 | the new row carries the payload's fields under an id no earlier vehicle has; no other row changes |
| Api.ListVehicles | backend/app/main.py:40-43 | at most `limit` entries, starting after the first `skip` vehicles in store order, each projected to id, make, model and year |
| Api.ListVehiclesPages | backend/app/main.py:41-42 | a page of `a` followed by the next page of `b` is the page of `a + b` |
| Api.ListVehiclesIds | backend/app/main.py:42-43 | with ids 1, 2, ... the listing from `skip` has ids `skip + 1`, `skip + 2`, ... |
| Api.ListVehiclesAll | backend/app/main.py:42-43 | a limit of at least the table size lists every vehicle |
| Api.PadNat | backend/app/main.py:53 | `%0wd`: all digits, exactly `w` of them when the number fits |
| Api.IsoFormat | backend/app/main.py:53 | at least ten characters with a four-digit year; for a two-digit month and day the dashes and digit pairs sit at the end |
| Api.IsoFormatReadsBack | backend/app/main.py:53 | for a date in `datetime.date`'s range `isoformat()` is ten characters, and year, month and day read back from it |
| Api.ServicesOf | backend/app/main.py:50-51 | exactly the rows with the given vehicle id |
| Api.HistoryRows | backend/app/main.py:48-51 | all rows when `vehicle_id` is falsy (`None` or `0`), otherwise exactly the rows with that vehicle id |
| Api.GetServiceHistory | backend/app/main.py:46-55 | one response entry per row read, in the same order, with the date rendered by `isoformat()` |
| Api.HistoryFilter | backend/app/main.py:48-51 | the history lists each row once in store order; filtered it holds exactly that vehicle's rows, unfiltered every row |
| Api.FeatureVector | backend/app/main.py:68 | one row of two features: `2025 - year` and `mileage` |
| Api.Predict | backend/app/main.py:58-72 | every forecast returned has `range_months = 6`; one not labelled "unknown" has `likelihood = 0.5` |
| Api.PredictFallback | backend/app/main.py:64-72 | without both model files the answer is exactly ("unknown", 0.1, 0.0, 6) |
| Api.PredictIgnoresNames | backend/app/main.py:59-72 | the make and model name do not affect the forecast |
| Api.PredictWithModels | backend/app/main.py:64-71 | with both files and both models answering: `str` of the first label, 0.5, the first predicted cost, 6 |
| Api.PredictLoadFails | backend/app/main.py:65-66 | a failure to load a model file propagates, the classifier's first |
| Api.PredictModelFails | backend/app/main.py:68-70 | once both models load, a failing classifier, an empty label array, a failing regressor and an empty cost array each propagate, in that order |
| Api.PredictReadsOnlyFeatureVector | backend/app/main.py:68-70 | the models are consulted at `[[2025 - year, mileage]]` and nowhere else |

## Left out

- `load_csv` (`backend/app/data_pipeline.py:20-22`): file input.
  - The tables `clean_and_merge` receives are parameters.
- `df.copy()` needs no counterpart: tables are values in the model, so an input table is never
  modified.
- Floating point: cells are integers, text or NaN.
  - `astype(float)` and `float()` are modelled as integer conversions.
  - Text holding a decimal fraction is not modelled; the model treats it as a conversion failure.
  - `estimated_cost` and `likelihood` are `real`.
- The text model:
  - `str.lower` lower-cases only `A`-`Z`;
  - `int()` accepts ASCII digits without underscores.
  - Unicode case mapping and Unicode digits are not modelled.
- SQL NULL semantics in the vehicle lookup: a NULL or NaN make or model is compared like any other
  value.
  - A database that binds NaN as NULL never matches such a row, and would insert a new vehicle each
    time.
- `Api.ListVehicles`: `skip` and `limit` are natural numbers. What a negative offset or limit does
  depends on the database engine.
- SQLAlchemy sessions, commits, refreshes and `relationship`s are not modelled; only the rows they
  move are. The `forecasts` table is not modelled; no core code writes it.
- The `predict` models are left uninterpreted: `joblib.load`, sklearn's `predict` and
  `os.path.exists` are the fields of `Artifacts`. How model files are located is not modelled.
- FastAPI routing, pydantic validation and the response models are not modelled. The handlers'
  results are datatypes.
- `create_all` at start-up, `backend/train.py` and the frontend are outside the modelled core.
- Row order: `FindVehicle` (`.first()`) and `ListVehicles` (`offset`/`limit`) read the tables in
  insertion order. The SQL has no `ORDER BY`, so a database may return another order.
- Integer width: `astype(int)` and SQLite's `INTEGER` are 64-bit and raise on overflow. The model's
  integers are unbounded and never overflow.
- `Frames.DropDuplicates`: its `KeyError` names only the first missing subset label; pandas names
  every missing one.
- `Persist.SaveToDb`: one `today` dates every summary row of a run. The source calls
  `datetime.now().date()` once per row, so a run across midnight dates its rows differently;
  `SaveRowsAddsSummaries` relies on the single date.
- `Frames.DropDuplicatesKeepsFirst`, `Frames.DropDuplicatesUniqueKeys` and
  `Frames.DropDuplicatesKeepsEveryKey` are stated for a frame with a column, and the three
  `Pipeline.Merged*` lemmas for inputs with a column between them. A frame without columns is
  returned unchanged, as `Frames.DropDuplicates` states.
- `Api.CreateVehicle`: pydantic accepts only text for make and model, so those are always `Str`.

## Findings

| source | as written | input that shows it | evidently intended | confidence | as-written member | corrected member |
|---|---|---|---|---|---|---|
| backend/app/data_pipeline.py:53-55 | `out.get(c, 0).fillna(0)` on an absent column calls `fillna` on the integer 0, so `engineer_features` raises `AttributeError` | the module's own `fetch_nhtsa_dummy()` table, which has no `recalls` column; or a one-row table with only `year = 2020` | per the docstring ("complaint_rate (if available)", placeholders), an absent column reads as 0 | high; not executed | Pipeline.DummyFeedCannotBeEnriched | Pipeline.EngineerFeaturesDefaulted |
