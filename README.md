# India map visualizer: name tidying and data shaping, in Dafny

This project models two parts of the India Map Visualizer repository and
proves properties of them:

- `tidy_name` from the boundary rebuild script. It normalises a raw GADM
  administrative name in five passes:
  - `_` and `-` become spaces;
  - a glued `and` between a lower-case and an upper-case letter becomes ` and `;
  - a space goes before each capital that does not follow whitespace;
  - each whitespace run becomes one space;
  - both ends are stripped.

  Each pass is a recursive function over `string` (module `BuildGeojsons`).
  The regex lookbehinds of a pass read that pass's own input, so each pass
  carries a flag saying what the previous input character was. Python's
  `str.isspace`, `[A-Z]`, `[a-z]` and `str.strip` are in module `PyStr`.
- The data shaping of the Streamlit app (module `App`, over the frame model
  of module `Frames`):
  - the states frame: `name` renamed to `State`, then the names stripped;
  - `load_districts`: `dtname` becomes `district` only when there is no
    `district` column, and the district names are stripped;
  - the sorted, de-duplicated option lists;
  - the `isin` selection;
  - the gating of the export and buffer tools;
  - the target-point list kept in the session state across reruns;
  - the placeholder `Population` and `Index` columns.

A data frame is modelled two ways:
- as a value, `Frames.Table`: a set of column labels and a sequence of rows,
  each row a map from label to cell;
- as an object, `Frames.Frame`: used where the app reassigns a column in
  place (`df[c] = ...`).

A cell is one of:
- a str;
- an int;
- a missing value, None or NaN (`Missing`);
- an opaque object such as a geometry.

pandas' `.str.strip()` keeps a missing cell as it is and turns any other
non-str cell into NaN, and `sort_values` puts missing values last; both are
modelled.

The session's click list is a `PointList` object. `Session.Rerun` follows
one run of lines 90-103 of the script, including the aliasing between the
local `clicks` and `st.session_state["clicks"]`. Its contract shows that
the list the connector step receives is always the session's list.

`get_population` draws random integers. The model chooses each value
nondeterministically within the source's range.

The app reads the `district` column at line 124 even after warning at lines
121-123 that the column is missing, so that line raises `KeyError`.
`App.ColumnOptions` returns `None` for this case.

## Model

| member | source | states |
|---|---|---|
| BuildGeojsons.TidyName | scripts/build_geojsons.py:21-29 | a value that is not a str comes back unchanged; a str comes back as a tidy name (no `_`/`-`, trimmed, single spaces, every capital starts a word) |
| BuildGeojsons.ReplaceSeparators | scripts/build_geojsons.py:25 | the first pass keeps the length of the string, turns each `_` and `-` into `' '` and keeps every other character where it was |
| BuildGeojsons.SplitGluedAnd | scripts/build_geojsons.py:26 | pass 2; specified by SplitGluedAndAt (the split at each match), SplitGluedAndNoop, SplitGluedAndChars and SplitGluedAndLetters |
| BuildGeojsons.GluedAnd | scripts/build_geojsons.py:26 | a match of `(?<=[a-z])and(?=[A-Z])` at the head of the rest of the string, given whether the preceding character was lower-case; used by SplitGluedAndAt and GluedAndAtStart |
| BuildGeojsons.SplitCamel | scripts/build_geojsons.py:27 | pass 3; specified by SplitCamelCaps, SplitCamelNoop, SplitCamelChars and SplitCamelLetters |
| BuildGeojsons.CollapseSpace | scripts/build_geojsons.py:28 | pass 4; specified by CollapseSpaceSingle, CollapseSpaceCaps, CollapseSpaceNoop, CollapseSpaceChars and CollapseSpaceLetters |
| BuildGeojsons.Tidy | scripts/build_geojsons.py:25-29 | the five passes on a str; specified by TidyIsTidy, TidyFixesTidy, TidyIdempotent, TidyKeepsLetters and WordsThroughSeparators |
| BuildGeojsons.Letters | scripts/build_geojsons.py:25-29 | a string with every whitespace, `_` and `-` deleted, the view in which every pass is the identity; specified by LettersConcat and the *Letters lemmas |
| BuildGeojsons.ReplaceSeparatorsClears | scripts/build_geojsons.py:25 | after the first pass the string holds no `_` and no `-` |
| BuildGeojsons.SplitCamelCaps | scripts/build_geojsons.py:27 | after the camel-case pass every capital is preceded by whitespace, and a leading capital only when the lookbehind context was whitespace |
| BuildGeojsons.CollapseSpaceCaps | scripts/build_geojsons.py:28 | collapsing whitespace runs keeps every capital preceded by whitespace |
| BuildGeojsons.CollapseSpaceSingle | scripts/build_geojsons.py:28 | after collapsing, every whitespace character is a `' '` and no two spaces are adjacent |
| BuildGeojsons.NoSeparatorThroughPasses | scripts/build_geojsons.py:25-28 | passes 2-4 bring in no `_` or `-` |
| BuildGeojsons.SplitGluedAndChars | scripts/build_geojsons.py:26 | the `and` pass adds no character other than `' '` |
| BuildGeojsons.SplitCamelChars | scripts/build_geojsons.py:27 | the camel-case pass adds no character other than `' '` |
| BuildGeojsons.CollapseSpaceChars | scripts/build_geojsons.py:28 | collapsing adds no character other than `' '` |
| BuildGeojsons.StripKeepsTidy | scripts/build_geojsons.py:29 | stripping a separator-free, single-spaced string whose capitals follow whitespace gives a tidy name |
| BuildGeojsons.StripLeftKeeps | scripts/build_geojsons.py:29 | dropping leading whitespace keeps a string separator-free and single-spaced, with every capital after whitespace |
| BuildGeojsons.StripRightKeeps | scripts/build_geojsons.py:29 | dropping trailing whitespace keeps those properties too |
| BuildGeojsons.TidyIsTidy | scripts/build_geojsons.py:25-29 | the five passes always produce a tidy name |
| BuildGeojsons.ReplaceSeparatorsNoop | scripts/build_geojsons.py:25 | the first pass leaves a string without `_` and `-` unchanged |
| BuildGeojsons.SplitGluedAndNoop | scripts/build_geojsons.py:26 | the `and` pass leaves unchanged a string whose capitals all follow whitespace |
| BuildGeojsons.SplitCamelNoop | scripts/build_geojsons.py:27 | the camel-case pass leaves unchanged a string whose capitals all follow whitespace |
| BuildGeojsons.CollapseSpaceNoop | scripts/build_geojsons.py:28 | collapsing leaves a single-spaced string unchanged |
| BuildGeojsons.TidyFixesTidy | scripts/build_geojsons.py:25-29 | a name that is already tidy comes back unchanged |
| BuildGeojsons.TidyIdempotent | scripts/build_geojsons.py:25-29 | tidying twice is tidying once |
| BuildGeojsons.TidyNameIdempotent | scripts/build_geojsons.py:21-29 | `tidy_name(tidy_name(v)) == tidy_name(v)` for every value, str or not |
| BuildGeojsons.SplitGluedAndAt | scripts/build_geojsons.py:26 | an `and` between a lower-case letter and a capital is rewritten as ` and `, and the text on each side is scanned as before |
| BuildGeojsons.GluedAndAtStart | scripts/build_geojsons.py:26 | `and` followed by a capital, right after a lower-case letter, is replaced by ` and ` |
| BuildGeojsons.GluedWordsPass2 | scripts/build_geojsons.py:26 | on two capitalised words glued by `and`, pass 2 inserts the two spaces and changes nothing else |
| BuildGeojsons.GluedAndSeparated | scripts/build_geojsons.py:26-29 | two capitalised words glued by `and` come out as the two words with ` and ` between them |
| BuildGeojsons.ThreeWordsTidy | scripts/build_geojsons.py:26-29 | two capitalised words joined by ` and ` form a tidy name |
| BuildGeojsons.JammuAndKashmir | scripts/build_geojsons.py:26-29 | `"JammuandKashmir"` becomes `"Jammu and Kashmir"` |
| BuildGeojsons.SplitGluedAndLength | scripts/build_geojsons.py:26 | the `and` pass never shortens the string, and keeps its length exactly when no position matches the pattern |
| BuildGeojsons.SplitGluedAndNone | scripts/build_geojsons.py:26 | the `and` pass leaves the string unchanged if and only if no position matches the pattern |
| BuildGeojsons.SplitGluedAndNoMatch | scripts/build_geojsons.py:26 | with no match of the pattern anywhere, the `and` pass changes nothing |
| BuildGeojsons.SplitCamelOne | scripts/build_geojsons.py:27 | on one character, the camel-case pass inserts a space exactly before a capital not preceded by whitespace, and otherwise keeps the character |
| BuildGeojsons.SplitCamelConcat | scripts/build_geojsons.py:27 | the camel-case pass works piecewise: on `p + q` it is the pass on `p` followed by the pass on `q` with the last character of `p` as the lookbehind |
| BuildGeojsons.SplitCamelLeadingCap | scripts/build_geojsons.py:27 | when every later capital already follows whitespace, the pass only puts a space before a leading capital |
| BuildGeojsons.CollapseSpaceOne | scripts/build_geojsons.py:28 | on one character, collapsing keeps a non-space, turns a space that starts a run into `' '`, and drops one inside a run |
| BuildGeojsons.CollapseSpaceConcat | scripts/build_geojsons.py:28 | collapsing works piecewise: on `p + q` it is collapsing `p` followed by collapsing `q`, with `q` inside a run exactly when `p` ends in whitespace |
| BuildGeojsons.CollapseSpaceRun | scripts/build_geojsons.py:28 | a whole whitespace run becomes one `' '` (nothing if the run was already replaced) |
| BuildGeojsons.CollapseSpaceGap | scripts/build_geojsons.py:28 | a whitespace run between non-space text becomes one `' '` and the text after it is collapsed as following a run |
| BuildGeojsons.CollapseAfterWord | scripts/build_geojsons.py:28 | a whitespace run after a non-space character adds exactly one `' '` |
| BuildGeojsons.CollapseAfterRun | scripts/build_geojsons.py:28 | single-spaced text not starting with whitespace, after a whitespace run, is copied unchanged |
| BuildGeojsons.ReplaceSeparatorsConcat | scripts/build_geojsons.py:25 | the first pass works piecewise on a concatenation |
| BuildGeojsons.WordsPass1 | scripts/build_geojsons.py:25 | on words joined by separator runs, the first pass keeps the words and replaces only the runs |
| BuildGeojsons.WordsCaps | scripts/build_geojsons.py:27 | in words joined by whitespace runs, every capital after the first is preceded by whitespace |
| BuildGeojsons.WordsPass2 | scripts/build_geojsons.py:26 | words joined by whitespace runs contain no glued `and`, so the `and` pass changes nothing |
| BuildGeojsons.WordsPass3 | scripts/build_geojsons.py:27 | on words joined by whitespace runs, the camel-case pass inserts only the one space before the first word |
| BuildGeojsons.WordsPass4 | scripts/build_geojsons.py:28 | each whitespace run between the words becomes one `' '` |
| BuildGeojsons.WordsCollapse | scripts/build_geojsons.py:28 | words joined by whitespace runs come out joined by single spaces |
| BuildGeojsons.WordsStrip | scripts/build_geojsons.py:29 | the final strip removes the leading space and keeps the words |
| BuildGeojsons.StripLeadingSpace | scripts/build_geojsons.py:29 | one space in front of a trimmed string is all that `strip` removes |
| BuildGeojsons.WordsThroughSeparators | scripts/build_geojsons.py:25-29 | a capitalised word, a lower-case word and a capitalised word joined by any runs of `_`, `-` and whitespace come out joined by single spaces, none glued and none split |
| BuildGeojsons.DamanAndDiu | scripts/build_geojsons.py:25-29 | `"Daman_and__Diu"` becomes `"Daman and Diu"` |
| BuildGeojsons.TwoWordsTidy | scripts/build_geojsons.py:25-29 | two capitalised words with one space between them form a tidy name |
| BuildGeojsons.MadhyaPradeshUnchanged | scripts/build_geojsons.py:25-29 | `"Madhya Pradesh"` is left unchanged |
| BuildGeojsons.LettersConcat | scripts/build_geojsons.py:25-29 | deleting separators distributes over concatenation |
| BuildGeojsons.ReplaceSeparatorsLetters | scripts/build_geojsons.py:25 | the first pass changes only separators |
| BuildGeojsons.LettersOfAnd | scripts/build_geojsons.py:26 | `and` and ` and ` have the same letters, so the replacement of pass 2 changes only separators |
| BuildGeojsons.SplitGluedAndLetters | scripts/build_geojsons.py:26 | the `and` pass changes only separators |
| BuildGeojsons.SplitCamelLetters | scripts/build_geojsons.py:27 | the camel-case pass changes only separators |
| BuildGeojsons.CollapseSpaceLetters | scripts/build_geojsons.py:28 | collapsing changes only separators |
| BuildGeojsons.StripLetters | scripts/build_geojsons.py:29 | stripping changes only separators |
| BuildGeojsons.StripLeftLetters | scripts/build_geojsons.py:29 | `lstrip` changes only separators |
| BuildGeojsons.StripRightLetters | scripts/build_geojsons.py:29 | `rstrip` changes only separators |
| BuildGeojsons.TidyKeepsLetters | scripts/build_geojsons.py:25-29 | with all whitespace, `_` and `-` deleted, input and output are the same character sequence |
| PyStr.IsSpace | scripts/build_geojsons.py:27-28 | `\s` of `re` and `str.isspace`: exactly the characters Python counts as whitespace; used by Strip, SplitCamel and CollapseSpace |
| PyStr.IsUpper | scripts/build_geojsons.py:26-27 | `[A-Z]`, ASCII capitals only |
| PyStr.IsLower | scripts/build_geojsons.py:26 | `[a-z]`, ASCII lower-case only |
| PyStr.StripLeft | scripts/build_geojsons.py:29 | the leading half of `strip` returns a suffix of the input that starts with a non-whitespace character |
| PyStr.StripLeftCutsSpace | scripts/build_geojsons.py:29 | everything the leading half of `strip` drops is whitespace |
| PyStr.StripRight | scripts/build_geojsons.py:29 | the trailing half of `strip` returns a prefix of the input that ends with a non-whitespace character |
| PyStr.StripRightCutsSpace | scripts/build_geojsons.py:29 | everything the trailing half of `strip` drops is whitespace |
| PyStr.Strip | scripts/build_geojsons.py:29 | `strip` returns a slice of the input with no whitespace at either end |
| PyStr.StripCutsSpace | scripts/build_geojsons.py:29 | everything `strip` cuts away, before and after the slice it keeps, is whitespace |
| PyStr.StripTrimmed | app.py:24 | stripping a trimmed string changes nothing |
| PyStr.StripIdempotent | app.py:24 | stripping twice is stripping once |
| Frames.Table.Column | app.py:111 | `df[c]` is the column's cells, row by row |
| Frames.RenameColumn | app.py:23 | `rename` moves the column to the new label and keeps every other column; a missing label is ignored |
| Frames.RenameRoundTrip | app.py:32 | renaming back undoes a rename |
| Frames.StripCell | app.py:24 | `.str.strip()` on one cell: a str is stripped, a missing cell is kept as it is, and any other non-str cell becomes NaN; specified through StripColumn, StripColumnTrimmed and StripColumnIdempotent |
| Frames.StripColumn | app.py:24 | `.str.strip()` makes every cell of the column a trimmed str or a missing value and leaves the other columns alone |
| Frames.StripColumnTrimmed | app.py:33-34 | a column of trimmed names is unchanged by a strip |
| Frames.StripColumnIdempotent | app.py:34 | stripping a column twice is stripping it once |
| Frames.WithColumn | app.py:190 | `df[c] = values` sets that column to the values and keeps the others |
| Frames.Frame.constructor | app.py:23 | a frame object holds the table it is built from |
| Frames.Frame.StripNames | app.py:24 | the frame's new contents are the old contents with the column stripped |
| Frames.Frame.SetColumn | app.py:190 | the frame's new contents are the old contents with the column set |
| Frames.Frame.Copy | app.py:209 | `copy` gives a fresh object with the same contents |
| App.StatesTable | app.py:23-24 | loading the states succeeds exactly when there is a `name` or `State` column; the result has the same rows, its columns are the file's with `name` replaced by `State`, each `State` cell is the stripped `name` (or `State`) cell of the same row, every other column is unchanged, and the names are trimmed |
| App.LoadStates | app.py:23-24 | the loaded states object holds exactly the states table, or there is none when the `State` column is missing |
| App.ResolveDistrictColumn | app.py:31-32 | `dtname` is renamed to `district` only when `district` is absent, keeping every other column; an existing `district`, or neither label, leaves the frame untouched |
| App.DistrictsTable | app.py:28-35 | the loaded districts keep every row; they have a `district` column exactly when the file had `district` or `dtname`, each of its cells is the stripped source cell of the same row, every other column is unchanged, and without either label the frame is returned as it is |
| App.LoadDistricts | app.py:28-35 | the loaded districts object holds exactly the districts table |
| App.StatesNamesStable | app.py:24 | after loading, re-stripping the state names changes nothing |
| App.DistrictNamesStable | app.py:33-34 | after loading, re-stripping the district names changes nothing |
| App.StrLess | app.py:111 | Python's `<` on str, code point by code point with a proper prefix first; specified by StrLessIrreflexive, StrLessTransitive and StrLessTotal |
| App.Before | app.py:111 | the order of `sort_values`: strs by StrLess, missing values after every str; specified by BeforeTransitive, BeforeTotal and used by Options |
| App.StrLessIrreflexive | app.py:111 | no str sorts before itself |
| App.StrLessTransitive | app.py:111 | the str order is transitive |
| App.StrLessTotal | app.py:111 | of two different strs exactly one sorts first |
| App.BeforeTransitive | app.py:111 | the name order, with missing values last, is transitive |
| App.BeforeTotal | app.py:111 | of two different name cells exactly one sorts first |
| App.InsertName | app.py:111 | inserting a name into an ascending list keeps it ascending and adds exactly that name |
| App.Options | app.py:111 | the option list is strictly ascending and holds exactly the names present |
| App.AscendingUnique | app.py:111 | two ascending lists with the same names are equal, so the option list depends only on which names are present |
| App.ColumnOptions | app.py:124 | the options exist exactly when the column does; they are ascending and exactly the names present |
| App.SelectRows | app.py:113 | every selected row has a chosen name |
| App.SelectRowsConcat | app.py:113 | the selection of two blocks of rows is the selection of the first followed by the selection of the second, so the order of rows is kept |
| App.SelectRowsSingle | app.py:113 | a single row is kept exactly when its name is chosen |
| App.SelectRowsFromFrame | app.py:113 | every selected row is a row of the frame |
| App.SelectRowsComplete | app.py:113 | every row of the frame with a chosen name is selected |
| App.SelectIgnoresAbsent | app.py:113 | chosen names absent from the data do not change the selection |
| App.Select | app.py:126 | the selection keeps the frame's columns and keeps exactly the rows whose name is chosen |
| App.SelectRowsAll | app.py:113 | a mask that keeps every row gives the rows back |
| App.SelectAllOptions | app.py:111-113 | choosing every offered option selects the whole frame |
| App.ToolsFor | app.py:130-140 | export of the selection is offered exactly for a selection that is not `empty` (it has rows and columns), and buffering exactly when also `buffer_km > 0`, by `buffer_km` itself |
| App.TargetCoords | app.py:162 | the connector step gets `None` exactly when there are no target points, and the points otherwise |
| App.PointList.constructor | app.py:93 | a new list is empty |
| App.PointList.Append | app.py:102 | `append` adds one point at the end and keeps the earlier ones |
| App.Session.constructor | app.py:96 | a fresh session has no `clicks` key |
| App.Session.Rerun | app.py:90-103 | "Clear Clicks" empties the list; "Add Target Point" appends exactly `(lon, lat)`; otherwise the same list object is kept; the connector step gets the session's list, or `None` when it is empty |
| App.GetPopulation | app.py:186-187 | one value per state row, each in [1,000,000, 50,000,000] |
| App.IntCells | app.py:190 | a list of ints becomes one int cell per value |
| App.AddPopulation | app.py:190 | the states object gets a `Population` column of in-range values, one per row |
| App.Positions | app.py:210 | `list(range(n))` is `0 .. n-1` |
| App.IndexedDistricts | app.py:209-210 | a copy of the districts gets `Index` = `0 .. n-1`, and the loaded districts object is not changed |

## Left out

- The GIS helpers the app imports (buffering, connector lines, colouring, GeoJSON export): `utils.py` is not part of this model.
- `rebuild_geojsons`, `parse_args` and `main` of the rebuild script: file I/O, CRS reprojection and `dissolve` are geopandas and filesystem calls.
- All Streamlit, folium and matplotlib rendering: titles, download buttons, PNG export, `st.stop`, and the radio, select and number widgets. The values a widget returns are parameters.
- `@st.cache_data` and Streamlit's rerun scheduling: these are framework behaviour. `Session.Rerun` models one run over the click widgets.
- `to_crs` and all geometry: geometries are `Opaque` cells and are never looked into. Buffer distances are only compared with 0 and 500.
- `random.randint`: only the count and the range of the values are modelled, not which values are drawn.
- Reading files: a loaded file is given as a `Table` argument.
- The multiselect widget's check that its default is among the options, and the file names of the downloads: both are UI.
- `.str.strip()` raises in pandas on a column whose dtype is not string-like (an int, float or bool column, such as an all-NaN float column); the model assumes an object column, where `.str.strip()` keeps a missing cell as it is and turns any other non-str cell into NaN.
- Options: the model has one missing value, so a name column holding both None and NaN gets one missing option, where `sort_values().unique()` returns two.
- RenameColumn, StatesTable, LoadStates: require that the new label is not already a column, because pandas would then produce a frame with two columns under one label, which a set of labels cannot hold.
- Float precision of longitude, latitude and buffer distance: these are `real`.
