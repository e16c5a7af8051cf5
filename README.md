# StreamlitMon: Pokédex preprocessing and global filters in Dafny

StreamlitMon is a Streamlit dashboard over a Pokédex table (`app.py`). When it
loads the table it derives four columns: `total_stats` (the sum of the six base
stats), `primary_type` and `secondary_type` (parsed from the comma-separated
`types` cell), and `is_special` (legendary or mythical). The sidebar then
filters the table: it keeps the selected generations and, when
"Incluir Legendarios/Míticos" is unchecked, drops the special Pokémon.

This project models that logic as pure functions and proves its properties:

- `pystr.dfy` (module `PyStr`): Python's `str.split(",")` and `",".join`, with
  the facts the type parsers rely on. A split has one field more than the
  string has commas. No field holds a comma. Joining the fields of any split
  gives back the string. Splitting a join gives back the fields when there is
  at least one field and no field holds a comma (`Split(Join([]))` is `[""]`).
- `type_parsing.dfy` (module `TypeParsing`): `get_primary_type` and
  `get_secondary_type`. A `types` cell is either `Text(s)` or `NotText` (pandas
  reads an empty cell as NaN, which is not a `str`). In the source a bare
  `except:` surrounds each parser's body and returns `"unknown"`. The model
  replaces it with a length guard on the split result, because indexing the
  split is the only step in the `try` that can raise on a `str`. The guard's
  fallback is proved unreachable.
- `pokedex.dfy` (module `Pokedex`): the table row `Record`, the stat columns, and
  `total_stats` as a row-wise sum over the listed columns. It also builds the
  loaded `Row`, which carries the four derived columns.
- `filters.dfy` (module `GlobalFilters`): boolean-mask selection and the two
  sidebar filters of lines 80-84.

The generation widget's option list is `sorted(df['generation'].unique())`.
The model takes the selected generations as a `set<int>`, which is what `isin`
tests membership against.

The parsers keep the sentinels `"-"` and `"unknown"` as app.py returns them.

## Model

| member | source | states |
|---|---|---|
| `PyStr.Split` | app.py:40 | `s.split(",")` yields at least one field, and no field contains the separator |
| `PyStr.JoinSplit` | app.py:40 | joining the split fields with the separator gives back the original string |
| `PyStr.SplitJoin` | app.py:48 | splitting the join of a non-empty list of separator-free fields gives back those fields |
| `PyStr.SplitCount` | app.py:47-48 | a split has exactly one field more than the string has separators |
| `PyStr.SplitAtFirst` | app.py:40 | a string `f + "," + t` with comma-free `f` splits into `f` followed by the split of `t` |
| `PyStr.SplitNoSep` | app.py:41 | a comma-free string splits into itself alone |
| `TypeParsing.PrimaryType` | app.py:37-43 | for a string with a comma: the text before the first comma (comma-free, a prefix, followed by a comma); any other value is returned unchanged |
| `TypeParsing.SecondaryType` | app.py:45-51 | for a string with a comma: the comma-free field that starts after the first comma and ends at the next comma or the end; otherwise exactly `"-"` |
| `TypeParsing.SplitFacts` | app.py:40-48 | a string with a comma splits into at least two fields and decomposes as first field, comma, and the join of the rest |
| `TypeParsing.ExceptBranchesUnreachable` | app.py:37-51 | for every string with a comma, both parsers return `split(",")[0]` and `split(",")[1]`, so the `"unknown"` handlers never run |
| `TypeParsing.Reassemble` | app.py:37-51 | primary + "," + secondary is a prefix of the cell, and equals the whole cell exactly when the cell has one comma |
| `TypeParsing.DualTypeRoundTrip` | app.py:37-51 | the cell `a,b` with comma-free `a` and `b` parses to primary `a` and secondary `b` |
| `Pokedex.SumColumnsAppend` | app.py:34 | the row-wise sum over two column lists in sequence is the sum of the two sums |
| `Pokedex.StatsColsSumSixStats` | app.py:31-34 | the row-wise sum over the listed `stats_cols` is hp + attack + defense + special attack + special defense + speed |
| `Pokedex.TotalStats` | app.py:34 | `total_stats` equals the sum of the six base stats, with nothing else added |
| `Pokedex.TotalStatsCountsEachStatOnce` | app.py:31-34 | changing any one base stat changes `total_stats` by exactly the change: each stat is counted once |
| `Pokedex.Preprocess` | app.py:30-59 | a loaded row keeps its record and has `total_stats` = sum of the six stats, `is_special` iff legendary or mythical, and the parsed types |
| `Pokedex.LoadAndPreprocess` | app.py:22-61 | the loaded table has the same rows in the same order, each with its derived columns as above |
| `GlobalFilters.Select` | app.py:81 | a mask selection is no longer than its input, and every kept row comes from the input and passes the mask |
| `GlobalFilters.SelectIsSubsequence` | app.py:81-84 | a mask selection is an order-preserving subsequence of its input |
| `GlobalFilters.SelectCount` | app.py:81-84 | a mask selection keeps every passing row as often as the input has it, and no failing row |
| `GlobalFilters.SelectSelect` | app.py:81-84 | applying two masks in turn is the same as applying their conjunction |
| `GlobalFilters.SelectAppend` | app.py:81 | mask selection distributes over concatenation |
| `GlobalFilters.SelectAll` | app.py:81 | a mask passing every row selects the whole input |
| `GlobalFilters.SelectSameMask` | app.py:81-84 | masks that agree on every row select the same rows |
| `GlobalFilters.GenerationMaskSelection` | app.py:81 | selecting with the `isin(selected_gens)` mask `InGenerations` gives an order-preserving subsequence holding every row of a selected generation as often as the table does, and no other row |
| `GlobalFilters.SpecialMaskSelection` | app.py:84 | selecting with the `is_special == 0` mask `NotSpecial` gives an order-preserving subsequence holding every non-special row as often as the table does, and no special row |
| `GlobalFilters.ApplyFilters` | app.py:80-84 | built from the masks `InGenerations` (`isin`, line 81) and, when specials are hidden, `NotSpecial` (`== 0`, line 84): every filtered row has its generation selected; with specials hidden, no filtered row is special |
| `GlobalFilters.FiltersAreOneMask` | app.py:80-84 | the two-stage filter equals one selection by the single reference mask `PassingMask`: "generation selected and (specials shown or not special)" |
| `GlobalFilters.FiltersKeepOrderAndPassingRows` | app.py:80-84 | the filtered table is an order-preserving subsequence, and it holds each passing row as often as the table does and no failing row |
| `GlobalFilters.DefaultFiltersKeepEverything` | app.py:70-84 | with the widget defaults (all generations selected, specials shown) nothing is filtered out |
| `GlobalFilters.FiltersIdempotent` | app.py:80-84 | filtering the filtered table again with the same settings changes nothing |
| `GlobalFilters.HiddenSpecialsLeaveNoLegendaryOrMythical` | app.py:59-84 | on the loaded table with specials hidden, every remaining row comes from the table, is from a selected generation, and is neither legendary nor mythical |

## Left out

- Reading `pokedex_completa_full.csv`, the `FileNotFoundError` message and `st.stop()` (app.py:24-28) are file I/O and UI control flow. The model starts from the table as a sequence of records.
- `@st.cache_data` (app.py:21) is framework memoisation and has no effect on the computed values.
- All Streamlit page set-up, widgets and rendering are left out (app.py:5-17, 67-78, 86-134). The multiselect and the checkbox become the parameters `selectedGens` and `showSpecial`.
- The detail view (app.py:101-134) is left out. This covers the name selectbox, the row lookup `df[df['name'] == pokemon_name].iloc[0]`, the sprite, and the stat progress bars with their floating-point normalisation `int((stat_value / MAX_STAT) * 100)`.
- `sorted(df['generation'].unique())` and `sort_values()` (app.py:70, 101) are pandas behaviour used only to fill widgets.
- Stat cells are modelled as integers. pandas `sum(axis=1)` skipping NaN cells, and float stat columns, are not modelled.
- The flags are modelled as booleans. pandas `|` and the comparison `== 0` on integer 0/1 columns behave the same way for 0/1 values.
- The pandas row index carried by a filtered frame is not modelled. A filtered table is the sequence of its rows.
- A `types` cell that is not a string is modelled as a single value `NotText`, so the model cannot tell NaN from another non-string value that `get_primary_type` would return unchanged (app.py:41). `read_csv` only produces NaN there.
