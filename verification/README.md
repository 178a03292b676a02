# Excel to GeoJSON converter — Dafny model

This project models the core of `convert_excel_to_geojson.py`. That script reads
a spreadsheet of observation points and turns each usable row into a GeoJSON
`Point` feature for a web map. The model covers `excel_to_geojson` and the
per-dataset breakdown that `main` prints afterwards.

`excel_to_geojson` runs in five steps:

1. It picks the latitude and longitude columns by header name. If it cannot
   find both, it asks the user for two column numbers, which may be negative
   Python indices.
2. It picks an optional dataset column and an optional name column.
3. It cleans the rows. It drops rows with a missing coordinate, converts
   both coordinate columns to numbers (text that does not parse becomes
   NaN), drops rows whose coordinates are now NaN, and keeps only rows
   inside [-90, 90] x [-180, 180]. It reports how many rows were removed.
4. For each remaining row, in order, it builds one feature:
   - The geometry is a Point at `[lon, lat]`.
   - The properties hold every other column (a missing cell becomes null).
   - Then it sets `name` (falling back to `Point <index+1>`), `dataset`
     (falling back to `Unknown`), `latitude` and `longitude`.
5. It returns the feature collection, or nothing when column selection fails.

The Dafny files are:

- `strings.dfy` (`Strings`): ASCII lower-casing, substring search, and the
  decimal rendering of row numbers.
- `dicts.dfy` (`Dicts`): Python's insertion-ordered dictionaries, kept as lists
  of entries, and the `Option` type.
- `sheet.dfy` (`Sheet`): the table as pandas holds it. It has the four
  cleaning steps in the script's order, with number parsing abstracted as
  listed under Left out. It also has a one-pass reference filter, `Valid`,
  which the four steps are proved equal to.
- `columns.dfy` (`Columns`): the four header rules and the `for … break`
  search that applies them.
- `convert.dfy` (`Convert`):
  - column selection, including the interactive fallback;
  - building a row's properties in place;
  - emitting the features;
  - the whole conversion, proved against the predicate `Converted`.
- `tally.dfy` (`Tally`): the dataset breakdown loop of `main`.

The workbook is given to the model as a `Table`:

- Headers are distinct, because pandas renames duplicate headers on reading.
- Every row has one cell per header.
- Row index labels are row positions, as `read_excel` assigns them.
- The user's typed answer is a parameter, `None` when the input is not an
  integer.

## Model

| member | source | states |
|---|---|---|
| Strings.Lower | convert_excel_to_geojson.py:47 | the lowered header has the same length, each character lowered, and no upper-case letter left |
| Strings.LowerIdempotent | convert_excel_to_geojson.py:47 | lowering an already lowered header changes nothing |
| Strings.ContainsIff | convert_excel_to_geojson.py:50 | the substring test holds exactly when the term occurs at some position of the header |
| Strings.DecimalRoundTrip | convert_excel_to_geojson.py:160-162 | reading back the decimal digits used in a default name gives the number back |
| Strings.DecimalStringInjective | convert_excel_to_geojson.py:160-162 | different row numbers are rendered as different digit strings |
| Dicts.Get | convert_excel_to_geojson.py:237 | a lookup finds nothing exactly when the key is not in the dict |
| Dicts.KeysPut | convert_excel_to_geojson.py:154 | assigning to a dict keeps its key order, and appends the key only when it is new |
| Dicts.GetPut | convert_excel_to_geojson.py:154 | after an assignment the key holds the new value and every other key keeps its old one |
| Dicts.PutKeepsKeysDistinct | convert_excel_to_geojson.py:154 | assignment never creates a second entry for a key; the old keys stay as a prefix and the key set grows by exactly the assigned key |
| Dicts.AddKeysExtends | convert_excel_to_geojson.py:158-170 | assigning to several keys in turn keeps the keys distinct, keeps the old keys as a prefix, and adds exactly the assigned keys |
| Dicts.PutTotal | convert_excel_to_geojson.py:238 | assigning a count changes the sum of all counts by the new value minus the old one |
| Columns.FirstMatchIff | convert_excel_to_geojson.py:46-61 | the selected column satisfies the rule and no earlier column does; no column is selected exactly when none satisfies the rule |
| Columns.FindColumn | convert_excel_to_geojson.py:86-106 | the scan returns the first column in header order that satisfies the rule, or nothing when no column does |
| Columns.LatitudeRuleIsSubstringRule | convert_excel_to_geojson.py:39-52 | a header is a latitude header exactly when its lower-case form contains "lat" or "y"; the list of exact names adds nothing |
| Columns.LongitudeRuleIsSubstringRule | convert_excel_to_geojson.py:40-61 | a header is a longitude header exactly when its lower-case form contains "lon", "lng" or "x"; the exact names and the "long" term add nothing |
| Columns.MatchingIgnoresCase | convert_excel_to_geojson.py:46-106 | all four header rules give the same answer for a header and its lower-case form |
| Columns.TypeColumnShadowsLatitude | convert_excel_to_geojson.py:46-92 | with headers Type, Latitude, Longitude, the "Type" column is chosen both as latitude column (it contains "y") and as dataset column |
| Columns.CoordinatesMayShareColumn | convert_excel_to_geojson.py:46-61 | nothing keeps the latitude and longitude choices apart: a header "xy" is chosen for both |
| Convert.PyIndex | convert_excel_to_geojson.py:73-75 | a typed index is accepted exactly when it lies in [-n, n); a non-negative index names that column, a negative one counts from the end |
| Convert.CoordinateColumns | convert_excel_to_geojson.py:45-77 | any coordinate columns chosen, detected or typed, are real columns of the sheet |
| Convert.Detect | convert_excel_to_geojson.py:45-106 | any selection made names only columns that exist |
| Convert.DetectionIgnoresAnswerWhenRecognised | convert_excel_to_geojson.py:63 | when both coordinate columns are recognised, the user's answer is irrelevant and the first matching columns are used |
| Convert.DetectionFallsBackToAnswer | convert_excel_to_geojson.py:63-77 | otherwise selection succeeds exactly when the user typed two integers that are both valid indices |
| Convert.ChooseColumns | convert_excel_to_geojson.py:45-106 | the four scans and the fallback produce the selection `Detect` specifies, and it fits the sheet |
| Convert.DefaultNamesDistinct | convert_excel_to_geojson.py:160-162 | rows with different index labels get different generated names |
| Convert.CopiedColumns | convert_excel_to_geojson.py:149-150 | a header is copied exactly when it belongs to a column other than the two coordinate columns |
| Convert.BuildProperties | convert_excel_to_geojson.py:148-170 | the properties have distinct keys: the copied columns in header order, then whichever of name, dataset, latitude and longitude are new, in that order. Copied columns hold their cell (null when missing); name and dataset hold the row's value or their defaults; latitude and longitude hold the coordinates; the four standard keys override same-named columns |
| Convert.StandardKeysExtendKeys | convert_excel_to_geojson.py:158-170 | the four standard assignments keep the keys distinct, keep the copied keys as a prefix, and add only the standard keys |
| Convert.StandardKeysOrder | convert_excel_to_geojson.py:158-170 | the four standard assignments append the missing standard keys in assignment order: name, dataset, latitude, longitude |
| Convert.StandardKeysSetValues | convert_excel_to_geojson.py:158-170 | after the four standard assignments they hold the assigned values, and every other key keeps its value |
| Convert.FinishProperties | convert_excel_to_geojson.py:158-170 | applying the standard assignments to the copied columns yields properties as described for BuildProperties |
| Sheet.FrameAscending | convert_excel_to_geojson.py:142 | the frame's index labels increase in row order |
| Sheet.DropMissing | convert_excel_to_geojson.py:114 | every kept row still has both coordinate cells |
| Sheet.DropMissingMembers | convert_excel_to_geojson.py:114 | a row is kept exactly when it is an input row whose two coordinate cells are both present |
| Sheet.Coerce | convert_excel_to_geojson.py:117-118 | `to_numeric` with `errors='coerce'` yields a number or NaN: numbers stay unchanged, text that parses becomes the number it reads as, and any other cell becomes NaN |
| Sheet.CoerceIdempotent | convert_excel_to_geojson.py:117-118 | coercing an already coerced cell changes nothing |
| Sheet.CoerceRecord | convert_excel_to_geojson.py:117-118 | coercing both coordinate columns of a row keeps its label and width, coerces the two coordinate cells, and leaves every other cell as it was |
| Sheet.ToNumeric | convert_excel_to_geojson.py:117-118 | coercing a column keeps every row, its label and its width |
| Sheet.ToNumericCells | convert_excel_to_geojson.py:117-118 | coercing a column replaces that cell of every row by its coerced form and changes nothing else in the row |
| Sheet.Valid | convert_excel_to_geojson.py:114-127 | the reference filter keeps at most as many rows as it is given, and each kept row still has both coordinate cells |
| Sheet.ValidMembers | convert_excel_to_geojson.py:114-127 | the coerced form of an input row is kept exactly when its coordinates are numbers in range; every kept row is the coerced form of an input row |
| Sheet.ValidAbove | convert_excel_to_geojson.py:114-127 | every kept row carries the label of an input row, so a lower bound on the input labels bounds the kept labels |
| Sheet.ValidAscending | convert_excel_to_geojson.py:113-127 | filtering keeps the rows in their original order |
| Sheet.CleanOne | convert_excel_to_geojson.py:114-127 | cleaning a single row keeps it, with its coordinates coerced, when the coerced coordinates are in range, and drops it otherwise |
| Sheet.CleanAppend | convert_excel_to_geojson.py:114-127 | the cleaning works row by row: cleaning two blocks of rows together equals cleaning each and concatenating |
| Sheet.CleanKeepsExactlyValid | convert_excel_to_geojson.py:114-127 | drop-missing, coercion of both columns, drop-missing and the range mask together give exactly the reference filter: in order, the rows whose coerced coordinates are in range, with those two cells coerced and every other cell unchanged |
| Sheet.NumericTextIsKept | convert_excel_to_geojson.py:114-127 | a latitude given as the text "33.5" survives cleaning as the number 33.5, while a latitude "N/A" loses its row |
| Convert.CoercedRow | convert_excel_to_geojson.py:117-118 | the coerced form of sheet row i keeps the label i and one cell per header |
| Convert.SurvivingIsValid | convert_excel_to_geojson.py:113-127 | the rows left by the script's cleaning are exactly what the reference filter keeps of the frame |
| Convert.SurvivorsAreCoercedRows | convert_excel_to_geojson.py:113-127 | every row the reference filter keeps is a sheet row with its coordinates coerced and in range |
| Convert.InRangeRowsSurvive | convert_excel_to_geojson.py:113-127 | every sheet row whose coerced coordinates are in range is kept |
| Convert.SurvivingRowsAreTheValidRows | convert_excel_to_geojson.py:113-129 | the surviving rows are sheet rows in row order, each with its coordinate cells coerced and its other cells unchanged; a row survives exactly when its coerced coordinates are numbers in range |
| Convert.RowFeature | convert_excel_to_geojson.py:142-182 | the feature for a kept row is a Point at [lon, lat] of the row's coordinates, with the properties described for BuildProperties in the key order stated there, and it lies within bounds |
| Convert.DescribesInBounds | convert_excel_to_geojson.py:123-182 | a feature that describes an in-range row lies in [-180, 180] x [-90, 90] and repeats its coordinates as its latitude and longitude properties |
| Convert.EmitFeatures | convert_excel_to_geojson.py:142-182 | the loop emits exactly one feature per kept row, in the same order, each describing its row with its keys in order |
| Convert.DescribesExtend | convert_excel_to_geojson.py:142-182 | appending the next row's feature keeps every earlier feature describing its row with its keys in order |
| Convert.ConvertedFeaturesInBounds | convert_excel_to_geojson.py:123-182 | every feature of a conversion lies in [-180, 180] x [-90, 90], its latitude and longitude properties equal its coordinates, and the removed count is the row count minus the feature count |
| Convert.ExcelToGeoJson | convert_excel_to_geojson.py:14-209 | the conversion fails exactly when column selection fails. Otherwise it returns one feature per surviving row, in order, each describing its row with its keys in order, and reports the number of rows removed; every feature lies within bounds |
| Tally.OccurrencesPositive | convert_excel_to_geojson.py:236-238 | the dataset of any feature is counted at least once |
| Tally.TallyDatasets | convert_excel_to_geojson.py:234-238 | the breakdown has one entry per dataset that occurs, each holding that dataset's number of features; every feature's dataset is a key; the counts add up to the number of features |

## Left out

- Reading the workbook, writing the JSON file, the file-size comparison and every console message (lines 27-35, 64-67, 79-80, 94-97, 108-111, 130-133, 185, 188-203) are I/O. The model starts from the table pandas has read and returns the collection. The output path is not modelled.
- The interactive prompt (lines 71-72) is the parameter `answer`. `None` stands for input that `int()` rejects with `ValueError`.
- The outer `except Exception` (lines 207-209) is modelled only for the failures the model can produce, namely column selection. Non-string headers are not modelled, because every header is a `string` here; `col.lower()` would raise on them.
- The per-row `except (ValueError, TypeError)` (lines 184-186) is not modelled. Every surviving coordinate is already a number, so `float()` cannot fail there.
- Number parsing: a text cell carries, as given data, what `pd.to_numeric` reads from it (or that it cannot parse) and how `str()` prints that number. The parse itself is not modelled.
- Cells are numbers (with the text `str()` prints for them), text, or missing. Booleans, dates and other pandas values count as text. NaN and empty cells are both `Missing`. Infinities are not modelled.
- Convert.CellValue: the `isinstance(value, (int, float, bool))` test on line 156 keeps numpy integer scalars out of the numeric branch, so the script stores them as strings. The model stores every numeric cell as a number.
- Strings.Lower lowers ASCII letters only. Python's `str.lower` also lowers other Unicode letters.
- Float formatting is not modelled. `str()` of a number is carried in the cell as given, and latitude and longitude are exact reals.
- In `main`, the existence check on the input file (lines 217-220) and the printing of the breakdown (lines 240-242) are left out. The `if geojson_data['features']` guard of line 234 changes nothing, because an empty feature list gives an empty tally.
- `convert_excel_to_csv.py`, `setup.py` and the map client that loads the GeoJSON are not part of this model.
