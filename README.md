# Poços Brasil lookup core, modelled in Dafny

The Streamlit app `app.py` loads three CSV tables: cities (`CIDADES_BRASIL`), state geometry (`ESTADOS_GEO`) and wells (`POCOS_CODEVASF`). It then answers a typed query with a municipality, a state, or "not found". This project models the logic under that, and proves the properties the code relies on:

- `find_column` — picks one column out of a CSV header of uncontrolled names. The first pass is a case-insensitive exact match, the second a case-insensitive substring match. Both go through the dict `{c.lower(): c}`: where lowercased names collide, the last spelling wins, and keys keep the order in which they were first inserted.
- `normalize_name` — builds the lookup key of a place name: strip, lowercase, then replace the eight letters ç á é í ó ú â ô one for one. A missing value gives `""`.
- `detect_geometry_column` — finds the first column whose first five present values look like GeoJSON (`{`/`[`) or WKT (`POINT|POLYGON|MULTIPOLYGON|LINESTRING`). The GeoJSON test comes first.
- The start-up resolution of columns (lines 136-160), with its two fatal errors.
- The in-place addition of the `__mun_norm` and `__state_norm` key columns (lines 162-170), as a `Frame` class.
- The query block (lines 217-311):
  - the query is normalised once;
  - a municipality match wins;
  - a state is tried only when no municipality matches;
  - the state view keeps the cities of the state that have `well_count > 0`;
  - the detail table keeps the members of `cols_to_show` that the table has, in that list's order.

Files, one module each:

- `wrappers.dfy`: Option and Result.
- `text.dfy`: Python's `str.lower`, `str.strip`, the `in` substring test, and `astype(str)`.
- `names.dfy`: `normalize_name`.
- `columns.dfy`: `find_column`.
- `geometry.dfy`: `detect_geometry_column`.
- `frames.dfy`: start-up and the key columns.
- `lookup.dfy`: the query block.

The loops of `find_column` and `detect_geometry_column` are Dafny methods (`FindColumnIn`, `DetectGeometryColumn`), and each is proved equal to a specification function. The properties are lemmas about those functions. Where a function only computes, the table below names the lemma that states its property.

Notes on the code:

- The fold table has eight characters: ç á é í ó ú â ô.
- The key columns apply `astype(str)` before `normalize_name`, so a missing cell is keyed `nan` (`Frames.MissingCellKey`).
- Without a `__state_norm` column, the filter `str.contains('')` keeps every city (`Lookup.InStateFallback`).

## Model

| member | source | states |
|---|---|---|
| `Text.Lower` | app.py:63 | `A`-`Z` and the Latin-1 capitals U+00C0-U+00DE other than U+00D7 move down by 0x20 (`I` to `i`, `Í` to `í`); no result is such a capital; every other character is unchanged |
| `Text.Strip` | app.py:62 | the result has no leading and no trailing whitespace (Python's `isspace` set), and is the slice of the input with only whitespace before and after it |
| `Text.StripPadding` | app.py:62 | whitespace on either side of a string makes no difference to `strip()` |
| `Text.Contains` | app.py:52 | `p in s` needs `p` to be no longer than `s`, and the empty string is in every string (used at line 266); `ContainsAt` and `ContainsWitness` tie it to an offset |
| `Text.ContainsAt` | app.py:52 | `p in s` holds whenever `p` occurs at some offset of `s` |
| `Text.ContainsWitness` | app.py:52 | conversely, `p in s` yields an offset where `p` occurs |
| `Text.AsText` | app.py:164 | `astype(str)` keeps a present text cell as it is, and turns a missing one into `nan` |
| `Names.Fold` | app.py:64-71 | the table maps each of ç á é í ó ú â ô to a lowercase ASCII letter, fixes every other character, and never yields one of the eight |
| `Names.FoldAccents` | app.py:64-71 | the eight chained `replace` calls keep the length and replace each character by its entry in the table `Fold` |
| `Names.FoldAccentsPointwise` | app.py:64-71 | the chain of eight `replace` calls is the one-character table applied to each character |
| `Names.Normalize` | app.py:57-59 | a missing value normalises to the empty string |
| `Names.NormalizeIsKeyOfStripped` | app.py:60-72 | the normalised name is, character by character, the fold of the lowercase of the stripped input |
| `Names.NormalizeShape` | app.py:60-72 | the output is as long as the stripped input, has no surrounding whitespace, contains none of the eight letters, and keeps each other character as its lowercase (ã, õ, à survive) |
| `Names.NormalizeIdempotent` | app.py:57-72 | normalising a normalised name gives it back |
| `Names.NormalizeAgrees` | app.py:60-72 | two names that agree position by position after lowercasing and folding have the same key |
| `Names.NormalizeIgnoresCase` | app.py:63 | lowercasing the input first does not change the key |
| `Names.NormalizeIgnoresFolding` | app.py:64-71 | folding the eight accents first does not change the key |
| `Names.NormalizeIgnoresPadding` | app.py:62 | whitespace around the input does not change the key |
| `Names.NormalizeExampleState` | app.py:57-72 | `" PIAUÍ "` normalises to `piaui` |
| `Names.NormalizeExampleTilde` | app.py:57-72 | `"São Luís"` normalises to `são luis`: the í is folded, the ã is not |
| `Columns.KeyOrder` | app.py:45 | the dict's keys are exactly the lowercased header names, each once |
| `Columns.Spelling` | app.py:45 | the value under key `k` is absent exactly when no header lowercases to `k`, and otherwise is the last header that does |
| `Columns.ExactPass` | app.py:46-48 | the exact pass only returns header names |
| `Columns.FirstContaining` | app.py:51-53 | the substring pass over the keys returns a key containing the candidate, and finds none exactly when no key contains it |
| `Columns.SubstringPass` | app.py:50-53 | the substring pass only returns header names |
| `Columns.FindColumn` | app.py:43-54 | a resolved column is always one of the table's columns |
| `Columns.FindColumnIn` | app.py:43-54 | the loops that build the dict and run both passes with early returns compute exactly `FindColumn` |
| `Columns.ExactMatchWins` | app.py:46-48 | if candidate `i` is the earliest that equals some header up to case, the result is the last header spelled like it, even if an earlier candidate occurs inside some header |
| `Columns.FirstContainingKeyOrder` | app.py:45-53 | because keys keep first-insertion order, the first key containing `p` is the lowercase of the first header whose lowercase contains `p` |
| `Columns.SubstringFallback` | app.py:50-53 | with no exact match, the earliest candidate occurring inside some lowercased header decides the result: the last spelling of the first such header's lowercase, which contains the candidate |
| `Columns.FindColumnNone` | app.py:43-54 | the result is `None` exactly when no candidate occurs, up to case, inside any header |
| `Geometry.Present` | app.py:78 | `dropna()` keeps the present values, each as many times as it occurs; `PresentAppend` fixes their order |
| `Geometry.PresentAppend` | app.py:78 | `dropna()` keeps row order: the present values of two stretches of rows are those of the first followed by those of the second |
| `Geometry.Head` | app.py:78 | `head(n)` is the first `min(n, length)` values |
| `Geometry.Classify` | app.py:79-86 | a sample is GeoJSON exactly when some value starts with `{` or `[`; it is WKT exactly when none does and some value holds a WKT token; an empty sample is neither |
| `Geometry.Detect` | app.py:75-87 | a column found is one whose sample classifies, with that kind; no geometry means no column's sample classifies (`DetectFindsFirst` pins which column) |
| `Geometry.DetectGeometryColumn` | app.py:75-87 | the loop with `continue` and early returns computes exactly `Detect` |
| `Geometry.DetectFindsFirst` | app.py:77-86 | the column returned is the first in declaration order whose sample qualifies, with the kind the sample shows |
| `Geometry.DetectNone` | app.py:77-87 | `(None, None)` comes back exactly when no column's sample qualifies |
| `Geometry.DetectSound` | app.py:77-86 | whatever is returned is the name of the first qualifying column |
| `Geometry.EmptyColumnSkipped` | app.py:79-80 | removing a column with no present value changes nothing |
| `Geometry.SampleIgnoresLaterCells` | app.py:78 | cells after the fifth present value make no difference to the sample |
| `Geometry.GeoJsonBeforeWkt` | app.py:82-86 | a sample with a `{`/`[` value is GeoJSON even if another value holds a WKT token |
| `Geometry.WktExample` | app.py:75-87 | a column whose present values are `POINT(1 2)`, `POINT(3 4)` classifies as WKT, and the detector reports it as the WKT geometry column |
| `Frames.ResolveColumns` | app.py:138-160 | the script stops on a missing cities municipality column first, then on a missing wells municipality column; otherwise every resolved column is `find_column`'s answer for its table and candidate list (so a column of that table), and the geometry is `detect_geometry_column`'s answer |
| `Frames.FoundColumnNonEmpty` | app.py:166-170 | with non-empty candidates a resolved name is never `""`, so `if state_col:` means "a column was found" |
| `Frames.KeyColumn` | app.py:164 | one key per cell; a present cell is keyed by `normalize_name` of its text (`KeysAreNormal`, `MissingCellKey` give the rest) |
| `Frames.KeysAreNormal` | app.py:163-164 | every key in a key column is already normal |
| `Frames.MissingCellKey` | app.py:164 | a missing cell gets the key `nan`, since `astype(str)` runs before `normalize_name` |
| `Frames.AddKey` | app.py:164 | the assignment adds the target column, or replaces it, with one key per cell of the source column, and leaves every other column as it was |
| `Frames.AddName` | app.py:164 | the old header is kept in order, and the target is appended at the end unless it is already there |
| `Frames.Frame.constructor` | app.py:129-131 | a loaded table with its header, cells and row count |
| `Frames.Frame.AddKeyColumn` | app.py:164 | `df[target] = df[source].astype(str).apply(normalize_name)` in place: the new cells and header, same row count, table still consistent |
| `Frames.PrepareKeys` | app.py:162-170 | the municipality key of cities and wells, and the state key of cities and states only when their state column resolved |
| `Lookup.Filter` | app.py:220 | a boolean-mask selection keeps the rows that satisfy the mask, in order, each as many times as it occurs: a subsequence with the same multiplicities |
| `Lookup.FilterHead` | app.py:258-261 | the first row of a non-empty selection is the first row of the table that satisfies the mask |
| `Lookup.FilterCompose` | app.py:263-268 | selecting twice is selecting once with the conjunction of the masks |
| `Lookup.FilterFirst` | app.py:224-225 | `iloc[0]` of a selection is the first row that satisfies the mask |
| `Lookup.FilterAll` | app.py:266 | a mask true on every row keeps every row |
| `Lookup.ShownColumns` | app.py:201 | the detail columns are exactly the members of `cols_to_show` that the table has, in that list's order |
| `Lookup.ShowTable` | app.py:196-203 | an empty selection shows nothing; otherwise every selected row is shown, and the headings are the detail columns of line 201, each renamed by `cols_pretty_names` |
| `Lookup.CitiesNamed` | app.py:220 | the municipality matches are the cities whose key equals the query key, in table order and with their multiplicities |
| `Lookup.StatesNamed` | app.py:258 | the state matches are exactly the states whose key equals the query key, and none when the table has no key column |
| `Lookup.InState` | app.py:263-266 | the cities of the state are those with the query's state key, or every city without that column, in table order and with their multiplicities |
| `Lookup.StateView` | app.py:263-268 | the state view is the one selection from the cities table of those with `well_count > 0` and the query's state key (every such city when there is no state key), in table order and with multiplicities |
| `Lookup.InStateFallback` | app.py:265-266 | without a state key column the fallback mask keeps every city |
| `Lookup.WellsWithKeyIn` | app.py:238 | the wells selected are those whose key is one of the given keys, in table order and with their multiplicities |
| `Lookup.MunicipalityViewAsWritten` | app.py:230-254 | as written, the branch fails exactly for a municipality with coordinates and a wells table without coordinate columns, and gives the summary exactly when there are no coordinates |
| `Lookup.MunicipalityViewOf` | app.py:230-254 | the map appears exactly when the municipality has coordinates; its table lists the wells with the query key, in table order and with their multiplicities, and is empty exactly when there are none |
| `Lookup.Dispatch` | app.py:217-314 | no query gives the prompt; a municipality answer is a city with the query's key; a state answer is a state with the query's key, given only when no city has that key |
| `Lookup.DispatchKey` | app.py:220-311 | for a key, the answer is never the prompt; a municipality answer carries its view; a state answer carries the state view, and comes only when no city has the key |
| `Lookup.MunicipalityTakesPrecedence` | app.py:220-226 | the first city whose key equals the normalised query is the answer, whatever the states table holds |
| `Lookup.StateOnlyWithoutMunicipality` | app.py:256-261 | a state is found exactly when the query is non-empty, no city has its key, and some state has it; the state shown is the first state row with that key (`iloc[0]`) |
| `Lookup.NotFoundExactly` | app.py:310-311 | "not found" comes exactly from a non-empty query whose key is no city's and no state's |
| `Lookup.StateViewExact` | app.py:263-268 | in a state answer the cities listed are those of the state with wells, in table order and with their multiplicities; the detail table lists the wells of those cities, in table order and with their multiplicities, and is empty exactly when there are none |
| `Lookup.SameKeySameOutcome` | app.py:217-220 | two non-empty queries with the same normalised form get the same answer |
| `Lookup.QueryIgnoresCaseAccentsAndPadding` | app.py:218 | lowercasing the query, folding its eight accents or surrounding it with whitespace does not change the answer |
| `Lookup.StateQueryExample` | app.py:256-260 | `" PIAUÍ "` with a state keyed `piaui` and no such city is a state answer for that state |
| `Lookup.UnboundWellsSelection` | app.py:237-250 | as written, a municipality with coordinates and a wells table without coordinate columns reaches line 250 with `pocos_in_mun` unbound |
| `Lookup.MunicipalityViewAgrees` | app.py:230-254 | the code as written fails exactly in that case, and wherever it runs it agrees with `MunicipalityViewOf` |

## Findings

| source | as written | input that shows it | evidently intended | confidence | as-written member | corrected member |
|---|---|---|---|---|---|---|
| app.py:237-250 | `pocos_in_mun` is bound only under `if pocos_lat and pocos_lon`, but line 250 passes it to `show_table_and_download` whenever the municipality has coordinates | a query that matches a municipality with `__lat`/`__lon`, while the wells CSV has no latitude/longitude column: the `NameError` stops the script | list the municipality's wells in the detail table whether or not the wells have coordinates; the coordinates only add markers | medium, not executed (the elided code at line 173 could bind the name) | `Lookup.MunicipalityViewAsWritten`, `Lookup.UnboundWellsSelection` | `Lookup.MunicipalityViewOf` (used by `Lookup.Dispatch`) |

## Left out

- Streamlit presentation: page setup, sidebar uploads, slider, metrics, messages, and `st.stop`. Fatal start-up errors are a `Failure` result instead.
- Reading the CSVs (`;`, latin-1) and the CSV exports (lines 127-134, 207, 320-328). This is file I/O through pandas. Cells are given as text or missing. pandas type inference, and the text it would give a number, are not modelled.
- Folium maps, markers, circles and GeoJSON overlays (lines 90-106, 230-247, 273-304). This is a foreign library.
- The zone radius `int(300 * sqrt(count) * scale_factor)` and the map centre, from bounds or from means. Both are floating-point arithmetic.
- The per-municipality well-count aggregation, `cidades_merged`, `count_source`, `__lat`, `__lon` and `gdf_est`. The code that defines them is elided from the file (lines 172-173 and 316). `well_count`, and whether a municipality has coordinates, are inputs of `Lookup.City`.
- Shapely and geopandas geometry parsing. This is a foreign library.
- `Text.Lower`: follows Python's `str.lower` only for ASCII and Latin-1. Other characters are left unchanged, though Python maps some of them, sometimes to two characters. The uploaded tables are decoded as latin-1, so only the typed query can hold such characters.
- `Frames.Frame`: requires distinct column names. pandas allows repeated names, and then `df[col]` is a table, not a column. `Columns.FindColumn` itself handles any header, including collisions.
- `Frames.PrepareKeys`: the source writes the municipality keys with a `for` loop over the two pairs (cities, municipality column) and (wells, municipality column). The model makes the two calls directly.
- `Lookup.ShowTable`: keeps the whole selected rows. The projection of their cells onto the shown columns is not modelled. The column headings are modelled.
- The query block's headings, popups and the `st.write` of the merged row. This is presentation.
