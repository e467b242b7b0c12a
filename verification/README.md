# AirLock grid matching, modelled in Dafny

AirLock links postcode locations from the ONS Postcode Directory to the
1 km NOx grid cells published by DEFRA. Its core is a pipeline of small,
pure table transforms:

- the **grid builder** turns each grid row's centre `(X, Y)` into the 1 km
  square around it and into a `GridCell` record, whose id comes from a
  `GridCode` column or from the fallback `"<int X>_<int Y>"`;
- the **column validator** reports which required columns a table lacks.
  Names are compared without regard to case;
- the **row cleaner** applies three filters, each of which can be switched
  off: drop rows lacking a coordinate, keep only non-terminated postcodes,
  then keep the first row of each postcode;
- the **postcode loader** validates the schema and builds one
  `PostcodePoint` per row that has both coordinates;
- the **matcher** left-joins the points against the cells with the
  strict-interior `within` predicate. The **summariser** counts matched and
  unmatched rows and computes the match rate;
- the **export preparation** drops the geometry column, sorts by grid id
  then postcode (missing ids last) and renumbers the rows. The Excel export
  appends `.xlsx` to a file name that lacks it.

The model keeps the same stages, one module each:

- `Tables` defines tables. A table is a column list plus rows, and each row
  maps column names to cell values (`Missing`, `Int`, `Real`, `Text`,
  `Geom`).
- `Geometry` defines points and polygons. A polygon is given by its corners.
  `Within` is the open interior of an axis-aligned box.
- `Models` holds the two records.
- `Config` holds the constants.
- `Decimal` models Python's `int()` and `str()` on numbers.
- `Common` holds the shared sequence machinery: filtering, subsequences and
  first-occurrence de-duplication.
- `Pipeline` joins the stages end to end.

Every operation is a pure function with a contract. The errors the source
raises (`ValueError`, `KeyError`) are values of a `Result`.

Some behaviours of the code that the model keeps:

- The loader calls no cleaner. It only validates the columns and skips rows
  lacking a coordinate.
- The match is one spatial join over all points.
- A point inside two overlapping cells gets two rows
  (`Matcher.OverlapDuplicates`). One row per point holds for cells with
  disjoint interiors.
- Validation ignores case, but the loader reads the exact lower-case names.
  A table with upper-case headers passes validation and raises `KeyError`
  as soon as the table has a row
  (`PostcodeLoader.UpperCaseHeadersRaiseKeyError`).

## Model

| member | source | states |
|---|---|---|
| Validation.MissingColumns | airlock/validation.py:9-19 | a required name is reported missing exactly when its lower-cased form matches no available column's lower-cased form; the missing list is a subsequence of the required list, keeping its order and repeats |
| Validation.NothingAvailable | airlock/validation.py:17-19 | with no columns available, the missing list is the whole required list |
| Validation.MoreColumnsFewerMissing | airlock/validation.py:17-19 | adding available columns never adds a missing entry: the new missing list is a subsequence of the old one |
| Validation.NoneMissing | airlock/validation.py:17-19 | nothing is missing exactly when every required name is present in some letter case |
| Validation.MissingCons | airlock/validation.py:17-19 | the missing list is built one required name at a time, in required order: the first name, when absent, heads the list for the rest |
| Validation.ValidateNoxColumns | airlock/validation.py:22-30 | valid exactly when the missing list is empty, that is, when `X` and `Y` are both present in some case; the list names each absent one once, `X` before `Y` |
| Validation.ValidatePostcodeColumns | airlock/validation.py:33-41 | valid exactly when the missing list is empty, that is, when `pcd`, `oseast1m` and `osnrth1m` are all present in some case; the list names each absent one once, in the order `pcd`, `oseast1m`, `osnrth1m` |
| Validation.UpperCaseHeadersAreValid | airlock/validation.py:17-18 | upper-case headers `PCD`, `OSEAST1M`, `OSNRTH1M` pass the postcode validation |
| Validation.OnlyPostcodeColumn | airlock/validation.py:33-41 | a table with only `pcd` fails validation and lacks exactly `oseast1m` and `osnrth1m` |
| GridBuilder.CellPolygonFromCenter | airlock/grid_builder.py:13-27 | the polygon is the axis-aligned box with bounds `(x-500, y-500, x+500, y+500)`, centred on `(x, y)`; its closed ring has five coordinates, the last repeating the first, and encloses 1000 × 1000 counter-clockwise |
| GridBuilder.CellInterior | airlock/grid_builder.py:20-27 | a cell's centre lies within it, and a point lies within it exactly when it is less than 500 m from the centre along both axes |
| GridBuilder.SeparatedCellsAreDisjoint | airlock/grid_builder.py:20-27 | two cells whose centres are at least 1000 m apart along some axis have disjoint interiors |
| GridBuilder.BuildGridFrame | airlock/grid_builder.py:30-53 | fails with the source's `ValueError` exactly when column `X` or `Y` is absent (case-sensitive); otherwise keeps the table unchanged and adds one polygon per row, in row order, with bounds ±500 m around that row's centre |
| GridBuilder.FallbackId | airlock/grid_builder.py:80 | the fallback id splits at its first `_` into two integer texts that read back as `int(X)` and `int(Y)` |
| GridBuilder.CellId | airlock/grid_builder.py:73-80 | when the id column is named and is a column of the frame (the added `geometry` column included) the id is `str` of that row's cell, which for `geometry` is the polygon's well-known text; otherwise it is the fallback id, which reads back as `int(X)` and `int(Y)` |
| GridBuilder.FallbackIdInjective | airlock/grid_builder.py:80 | two fallback ids `"{int(X)}_{int(Y)}"` are equal exactly when the truncated centres are equal |
| GridBuilder.GridCellsFromFrame | airlock/grid_builder.py:56-90 | one cell per row, in row order; each cell's centre is the row's `X`/`Y` as floats, its geometry is the row's polygon unchanged, and its id is `str(row[id_column])` when the id column is named and present, otherwise the fallback id |
| GridBuilder.BuiltCellsAreCentredSquares | airlock/grid_builder.py:47-53 | every built cell's polygon is an axis box whose bounds are centred on the cell's recorded centre, and that centre lies within it |
| GridBuilder.FallbackIdsSeparateCentres | airlock/grid_builder.py:73-88 | without an id column, two cells get the same id exactly when their truncated centres agree; both cells are still emitted |
| Decimal.NatStringRoundTrip | airlock/grid_builder.py:80 | reading back the decimal digits of a natural number gives that number |
| Decimal.IntStringRoundTrip | airlock/grid_builder.py:80 | reading back the decimal text of an integer, with its minus sign, gives that integer |
| Decimal.IntToStringInjective | airlock/grid_builder.py:80 | different integers have different decimal texts |
| Decimal.Trunc | airlock/grid_builder.py:80 | Python's `int()` of a float rounds toward zero: the result is within one of the input, on the side of zero |
| Filters.DropMissingCoords | airlock/filters.py:37-39 | when switched on and both coordinate columns exist, the kept rows are, in order, exactly the rows having both coordinates, each as often as in the input; otherwise the table is unchanged |
| Filters.KeepActive | airlock/filters.py:42-47 | when switched on and the named termination column exists, the kept rows are, in order, exactly those whose termination value is missing, `""` or `" "`, each as often as in the input; otherwise the table is unchanged |
| Common.DedupeIsFirstOccurrences | airlock/filters.py:50-51 | de-duplication with `keep="first"` yields exactly the first element of each key, in order of position |
| Common.DedupeKeepsEveryFirst | airlock/filters.py:50-51 | de-duplication keeps every first occurrence: the first element with each key is in the result |
| Filters.DropDuplicatePostcodes | airlock/filters.py:50-51 | when switched on and `pcd` exists, the kept rows have pairwise distinct postcodes, each kept row is the first row of its postcode, and the first row of every postcode is kept; the kept rows are exactly those first rows in input order; otherwise the table is unchanged |
| Filters.LocatedActive | airlock/filters.py:37-47 | the rows left after the first two steps are a subsequence of the input; a row is among them exactly when it is an input row that passes each of the two steps that runs, and it occurs as often as in the input (a failing row not at all) |
| Filters.FilterPostcodesBasic | airlock/filters.py:8-53 | the output keeps the columns and is a subsequence of the input rows; each step that runs holds of every output row; with de-duplication on, the output is exactly the first row of each postcode among the rows that survived the first two steps, in their order (each kept row is such a first row, and every such first row is kept); with it off, the output is those surviving rows unchanged |
| Filters.FilterIdempotent | airlock/filters.py:34-53 | cleaning the cleaner's output again with the same options changes nothing |
| Filters.CleanFourRows | tests/test_filters.py:6-23 | of four rows whose middle two each lack a coordinate, the two outer ones (active, different postcodes) are what remains |
| Filters.CleanerExample | tests/test_filters.py:6-23 | the table `PC1, PC2 (no easting), PC2 (no northing), PC3` cleans to the rows `PC1, PC3` with their coordinates: the duplicates go in step 1, before de-duplication |
| PostcodeLoader.LoadRows | airlock/postcode_loader.py:31-51 | the row loop succeeds exactly when every row carries the three exact names; otherwise it raises `KeyError` for one of them |
| PostcodeLoader.LoadRowsPoints | airlock/postcode_loader.py:31-51 | on success the points are, one for one and in order, those of the rows having both coordinates |
| PostcodeLoader.LoadPostcodes | airlock/postcode_loader.py:11-51 | raises `ValueError` exactly when validation fails, carrying the validator's missing list (each absent required column once, in required order); raises `KeyError` only if some row lacks an exact name; succeeds when validation passes and all rows carry the exact names; on success there is one point per located row, in input order, with postcode `str(pcd)`, the coordinates as floats and a point geometry at exactly those coordinates |
| PostcodeLoader.PointOf | airlock/postcode_loader.py:40-48 | the point geometry sits at exactly the point's easting and northing |
| PostcodeLoader.ExactHeadersValid | airlock/postcode_loader.py:25-27 | headers carrying the exact lower-case names pass validation |
| PostcodeLoader.ExactHeadersLoad | airlock/postcode_loader.py:24-51 | a well-formed table with the exact headers always loads |
| PostcodeLoader.LoadOneRow | airlock/postcode_loader.py:31-51 | a one-row table with the exact headers and both coordinates loads to that row's point alone |
| PostcodeLoader.SingleRowExample | tests/test_postcode_loader.py:8-26 | the table with the single row `AB1 0AA, 395000, 800000` loads to one point with that postcode, easting 395000, northing 800000 and geometry `(395000, 800000)` |
| PostcodeLoader.UpperCaseHeadersRaiseKeyError | airlock/postcode_loader.py:25-34 | headers `PCD`, `OSEAST1M`, `OSNRTH1M` pass validation, and loading then raises `KeyError('pcd')` on the first row |
| PostcodeLoader.MissingCoordinateColumnsRaiseValueError | airlock/postcode_loader.py:25-27 | a table with only `pcd` raises `ValueError` naming exactly `oseast1m` and `osnrth1m` |
| PostcodeLoader.LoadsLocatedRows | airlock/postcode_loader.py:29-51 | when validation passes and every row carries the exact names, loading succeeds with the points of the located rows, in order |
| PostcodeLoader.LoaderDoesNotClean | airlock/postcode_loader.py:29-51 | a repeated postcode and a terminated postcode both still yield points; only the row lacking a coordinate is skipped |
| Matcher.Hits | airlock/matcher.py:55-60 | the hits are exactly the cells that contain the point, all of them and in cell order (the cells filtered by `within`); empty exactly when no cell contains the point |
| Matcher.JoinPoint | airlock/matcher.py:55-65 | a point's join rows carry its postcode, coordinates and geometry unchanged; with no containing cell there is exactly one row, unmatched; otherwise there is one matched row per containing cell, in cell order, each naming that cell |
| Matcher.LeftJoinCons | airlock/matcher.py:55-65 | the rows of the first point followed by the join of the remaining points form a left join of all points, with each row's origin index shifted past the first point |
| Matcher.JoinBlocksCons | airlock/matcher.py:55-65 | the first point's join rows followed by a join of the remaining points give each point exactly its own join rows |
| Matcher.MatchPostcodesToGrid | airlock/matcher.py:9-65 | the rows form a left join: each row has an origin point whose postcode, coordinates and geometry it copies; every point is the origin of at least one row; origins never decrease, so rows come in input order; a matched id names a cell containing the row's point, and an unmatched row's point lies within no cell; the rows coming from each point are exactly that point's join rows, in order: one per containing cell, or a single unmatched row |
| Matcher.AtMostOneHit | airlock/matcher.py:55-60 | with pairwise disjoint cell interiors, a point lies within at most one cell |
| Matcher.SingleJoinRow | airlock/matcher.py:55-60 | a point within at most one cell has exactly one join row, matched exactly when some cell contains it |
| Matcher.OneRowPerPoint | airlock/matcher.py:29-65 | with disjoint cell interiors there is exactly one row per point, in input order, copying the point, and it is matched exactly when some cell contains the point |
| Matcher.AllInsideOneCell | airlock/matcher.py:55-65 | when every point lies within the single cell, there is one row per point and each is matched to that cell |
| Matcher.SingleMatch | airlock/matcher.py:55-65 | a single point within the single cell gives exactly one row, matched to that cell |
| Matcher.OverlapDuplicates | airlock/matcher.py:55-60 | a point within two overlapping cells gets two rows, one for each cell in cell order |
| Matcher.MatchTable | airlock/matcher.py:63-65 | the returned frame has exactly the columns `postcode, easting, northing, matched_grid_id, geometry`, one row per join row; each row's cells hold that join row's postcode, easting, northing, matched id and geometry, and the id is missing exactly when the row is unmatched |
| Matcher.Rate | airlock/matcher.py:85 | the match rate lies in [0, 1], multiplies back to the matched count, and is 1 exactly when all rows match and 0 exactly when none does |
| Matcher.CountMatched | airlock/matcher.py:82 | the count of present ids is at most the number of rows |
| Matcher.CountMatchedIsMask | airlock/matcher.py:82 | the count is the number of rows passing the `notna` mask on `matched_grid_id` |
| Matcher.CountMatchedExtremes | airlock/matcher.py:82 | the count of present ids equals the row count exactly when every row has an id, and is 0 exactly when none has one |
| Matcher.SummarizeMatches | airlock/matcher.py:68-92 | raises `KeyError` exactly when the id column is absent; otherwise total is the row count, matched counts present ids, matched plus unmatched is total, and the rate is in [0, 1], 0 for an empty table and matched/total otherwise |
| Matcher.SummaryExtremes | airlock/matcher.py:81-85 | unmatched is 0 exactly when every row has an id, matched is 0 exactly when none has one, and on a non-empty table the rate is 1 exactly when nothing is unmatched |
| Matcher.SummaryOfJoin | airlock/matcher.py:81-92 | the summary of a join table succeeds, its total is the number of join rows, and nothing is unmatched exactly when every join row is matched |
| Matcher.MatchTableCount | airlock/matcher.py:82 | counting present ids in the returned frame counts exactly the matched join rows |
| Matcher.CentreIsMatched | tests/test_matcher.py:7-32 | the point `TEST1` at `(0, 0)` gives one row, matched to cell `A1` (the ±500 square) |
| Matcher.EdgeIsUnmatched | airlock/matcher.py:59 | a point on the edge of cell `A1` is not within it and gives one unmatched row |
| Matcher.OnlyIdIsTheCell | tests/test_matcher_performance.py:28-32 | when all points lie within the single cell, every id is present and the set of distinct ids is exactly that cell's id |
| Matcher.ThousandPointsAllMatched | tests/test_matcher_performance.py:13-32 | the thousand points `(i % 100, i % 100)` give 1000 rows, all matched, with `A1` as the only id |
| Matcher.SummaryExample | tests/test_matcher_summary.py:8-25 | ids `X1`, none, `X2` summarise to 3 postcodes, 2 matched, 1 unmatched and a rate of 2/3 |
| Exporters.StrLeTotal | airlock/exporters.py:24 | Python's string order is total |
| Exporters.StrLeTrans | airlock/exporters.py:24 | Python's string order is transitive |
| Exporters.StrLeAntisymmetric | airlock/exporters.py:24 | Python's string order is antisymmetric |
| Exporters.RowLeTotal | airlock/exporters.py:24 | the (grid id, postcode) row order with missing values last is total |
| Exporters.RowLeTrans | airlock/exporters.py:24 | the (grid id, postcode) row order with missing values last is transitive |
| Exporters.Insert | airlock/exporters.py:24 | inserting a row into sorted rows gives sorted rows with exactly that row added |
| Exporters.SortRows | airlock/exporters.py:24 | the sorted rows are a permutation of the input, ordered by grid id then postcode, missing values last |
| Exporters.SortSortedIsIdentity | airlock/exporters.py:24 | sorting rows that are already in order changes nothing |
| Exporters.UnmatchedLast | airlock/exporters.py:24 | in the sorted rows, every row without a grid id comes after every row with one |
| Exporters.DropGeometry | airlock/exporters.py:18-21 | the result has no `geometry` column, keeps every other column in order, and keeps every row with only its `geometry` cell removed; without a `geometry` column the table is unchanged |
| Exporters.DropKeepsSortKeys | airlock/exporters.py:18-24 | dropping the geometry leaves each row's grid id and postcode as they were |
| Exporters.PrepareExportTable | airlock/exporters.py:5-26 | raises `KeyError` for the first sort key the table lacks; otherwise the columns are those left after dropping `geometry`, and the rows are a permutation of the geometry-free rows, sorted by grid id then postcode with missing values last, numbered from 0 |
| Exporters.PrepareIdempotent | airlock/exporters.py:5-26 | preparing an already prepared table gives it back unchanged |
| Exporters.SortThree | tests/test_exporters.py:7-25 | rows keyed `(G1, A)`, `(G2, C)`, `(G1, B)` sort to the first, third, second |
| Exporters.ExportOfThreeRows | tests/test_exporters.py:7-25 | a table with those three keyed rows prepares to one without geometry, with ids `G1, G1, G2` and postcodes `A, B, C` |
| Exporters.EnsureXlsxSuffix | airlock/exporters.py:37-38 | the name written to starts with the given name and ends in `.xlsx` in some letter case; it is the given name exactly when that already ends so, and otherwise is the given name followed by `.xlsx` |
| Exporters.EnsureXlsxSuffixIdempotent | airlock/exporters.py:37-38 | applying the suffix rule twice gives the same name as applying it once |
| Exporters.UpperCaseSuffixKept | airlock/exporters.py:37 | a name ending in `.XLSX` is kept as it is |
| Exporters.MissingSuffixAppended | airlock/exporters.py:37-38 | `results` becomes `results.xlsx` |
| Geometry.BoxPolygonBounds | airlock/grid_builder.py:22-27 | a box built from its bounds has exactly those bounds and is an axis box |
| Geometry.BoxPolygonArea | tests/test_grid_builder.py:21 | a box's closed ring has five coordinates and encloses width × height counter-clockwise |
| Geometry.BoundaryIsNotWithin | airlock/matcher.py:59 | a point on a box's boundary is not within the box |
| Geometry.DisjointBoxesShareNoPoint | airlock/matcher.py:59 | no point lies within two boxes whose interiors are disjoint |
| Pipeline.CellsOf | airlock/grid_builder.py:30-90 | the cells built from a grid table number one per row; each polygon is the 1 km square around its cell's centre, and that centre is the row's `X`/`Y` |
| Pipeline.CoveredIffNearCentre | airlock/matcher.py:55-60 | among built cells, a point is within some cell exactly when it is less than 500 m from that cell's centre along both axes |
| Pipeline.SeparatedCentresGiveDisjointCells | airlock/grid_builder.py:47-53 | cells built from centres at least 1 km apart have pairwise disjoint interiors |
| Pipeline.GridMatchIsOneRowPerPoint | airlock/matcher.py:9-65 | on a regular grid every point gets exactly one row, in input order, copying the point, and it is matched exactly when the point is within 500 m of some centre along both axes |
| Pipeline.OneCellGridCells | tests/test_grid_builder.py:31-46 | the grid with the one centre `(500000, 200000)` and no id column builds one cell with id `500000_200000` and bounds `(499500, 199500, 500500, 200500)` |
| Pipeline.OneCellEndToEnd | airlock/matcher.py:9-92 | a postcode 100 m north-east of that centre is matched to cell `500000_200000`, and the summary reports one postcode, all matched, rate 1 |

## Left out

- The coordinate transforms in `airlock/crs_utils.py` are not modelled. They are floating-point geodesy inside pyproj. The CRS labels on the frames are dropped too.
- `app/app.py` is not modelled. It is the Streamlit user interface and file uploads.
- The `df.to_excel` write (`airlock/exporters.py:40`) is file I/O. Only the file-name suffix rule is modelled.
- The spatial index (`airlock/matcher.py:52`) only affects performance. The join is modelled as a scan over the cells.
- The coordinate-range checks `validate_nox_coordinates` and `validate_postcode_coordinates` are not modelled. They are imported by `tests/test_validation_quality.py` but do not exist in `airlock/validation.py`.
- `methods_summary`, the generator of the methods text for the report, is outside the modelled core.
- Float formatting is not modelled. `str()` of a float, or of a point, comes from a `showFloat` parameter.
- Floating-point rounding is not modelled. Coordinates are exact reals.
- Matcher.Rate: the rate is the exact ratio `matched / total`, not the nearest double.
- Validation.MissingColumns: case folding covers ASCII letters only, not the rest of Unicode.
- Exporters.EnsureXlsxSuffix: case folding covers ASCII letters only, not the rest of Unicode.
- Pandas dtype upcasting in `iterrows` is not modelled. In a frame mixing integer and float columns, `iterrows` turns each row's integers into floats; the model keeps them as `Int`.
- Tables.PyStr: maps every missing cell to `"nan"`. Python gives `"None"` for a `None` held in an object column; the model has one `Missing` value for both.
- GridBuilder.BuildGridFrame: requires numeric `X`/`Y` in every row. The source would build NaN polygons for missing centres, or raise a `TypeError` for text centres.
- GridBuilder.GridCellsFromFrame: requires numeric `X`/`Y` in every row, for the same reason.
- `within` is modelled exactly only for axis-aligned boxes whose corners run in the builder's order. For any other polygon, `Geometry.Within` is false.
- Exporters.SortRows: does not state stability. The order of rows with equal keys is left open.
- Exporters.PrepareExportTable: requires every grid id and postcode to be text or missing. Mixed types would raise `TypeError` in pandas.
- Exporters.PrepareExportTable: requires a well-formed table, in which every row carries exactly the table's columns.
- Row de-duplication compares cell values as model values. `Int(1)` and `Real(1.0)` count as different postcodes, while pandas treats them as equal.
- An `id_column` named `geometry` gets the polygon's well-known text as its id. Its coordinates are formatted by `showFloat`, as for every float.
- PostcodeLoader.LoadPostcodes: requires every present coordinate to be a number. This excludes numeric text such as `"395000"`, which `float()` converts and the source loads; only non-numeric text makes `float()` raise `ValueError`.
- PostcodeLoader.LoadRows: requires every present coordinate to be a number, for the same reason.
- PostcodeLoader.LoadPostcodes: the `ValueError` message does not include the formatted missing list. The list is carried as a separate field.
- Index labels of filtered frames are not modelled: pandas keeps the original labels after `dropna`, boolean masks and `drop_duplicates`, while the model's rows carry no labels.
- `reset_index(drop=True)` needs no model: rows in a `seq` are always numbered from 0.
- The concrete data frame of `tests/test_exporters.py` is modelled through its three sort keys (`Exporters.ExportOfThreeRows`). Its other columns play no part in the sort.
