# Heart-rate threshold and race-results pipelines

This project models the analytical core of two small dashboards in Dafny.

**LTHR estimator (LTHREstimate.py).** It covers:
- Record admission (`parse_fit_file`). Decoded FIT `record` messages are reduced to a fixed allow-list of 58 field names. A message without a `timestamp` is dropped. The rest are ordered by timestamp, and latitude and longitude are converted from semicircles to degrees.
- The trailing-window estimator (`calculate_lthr_from_last_20_minutes`). It takes the mean heart rate of the rows at most 20 minutes before the last one. LTHR is 95% of that mean.
- The five training bands Z1..Z5 (`calculate_heart_rate_zones`).
- The first-match zone classifier (`classify_zone`).
- The elapsed-time export columns.

**Race dashboard (race_analysis_app.py).** It covers:
- The HH:MM:SS formatter (`seconds_to_time`).
- The file-name parsing and nested event → category map of `load_race_data`.
- The mean/median choice and the per-row marker rule of `create_scatterplot`.
- The concatenation of the selected category tables.
- The name search that highlights table rows.

Modules, one per file:
- `Wrappers`: `Option`.
- `Sorting`: a sort by a numeric key, proved ordered and a permutation.
- `Stats`: `dropna`, `mean` and `median`.
- `Text`: `strip`, `lower`, substring and digits.
- `PyNum`: `int()`, `//` and `%` on floats.
- `Telemetry`: record admission.
- `Threshold`: the estimator.
- `Zones`: bands, classifier and elapsed columns.
- `TimeFormat`: the formatter.
- `RaceFiles`: `load_race_data`.
- `Results`: concatenation, statistic, markers and search.

Representation:
- A decoded message is a list of (field name, value) pairs. A value is a whole-second date-time, a number or None.
- A normalised row is a map from field name to value; a missing key is a missing value.
- Heart rates and race times are `Option<real>`, where `None` stands for NaN.
- Python floats are modelled as reals.
- `int()` is truncation toward zero, while `//` and `%` floor, as in Python.

Imperative code keeps its form:
- The nested loops of `parse_fit_file` are `Telemetry.FillPoint` and `Telemetry.ParseRecords`.
- The loop of `load_race_data` is `RaceFiles.LoadRaceData`.
- The row loop of `create_scatterplot` is `Results.PlotRows`.

Each loop is proved equal to a recursive specification function, and the source's promises are proved as lemmas about that function.

Three facts about the code shape the model:
- **Shared band edges.** A band's upper edge and the next band's lower edge are both `int(lthr * pct)` of the same LTHR and the same percentage, so they are equal (`Zones.ZonesContiguous`). A value on a shared edge goes to the lower band (`Zones.SharedEdgeGoesLow`).
- **Sort order.** `sort_values` uses quicksort by default, which is not stable, so the model claims only order and permutation.
- **Empty-window fallback.** When every timestamp of the session is a date-time, the window start is the last timestamp minus 20 minutes, so the last row is always in the window and the "use all data" fallback is never taken (`Threshold.WindowNonEmpty`). A timestamp that is None is another matter; see `Telemetry.Stamp` under "Left out". The model keeps the branch as written.

## Model

| member | source | states |
|---|---|---|
| Telemetry.BuildRecord | LTHREstimate.py:29-50 | every key of the row built from a message is one of the 58 allow-listed field names |
| Telemetry.RecordKeysFromFields | LTHREstimate.py:31-50 | every key of a row is the name of some field of its message |
| Telemetry.RecordKeepsAllowed | LTHREstimate.py:31-50 | every allow-listed field of a message has an entry in its row, so other fields are the only ones dropped |
| Telemetry.RecordLastValue | LTHREstimate.py:31-50 | under an allowed name the row holds the value of the message's last field of that name (a later field overwrites an earlier one) |
| Telemetry.TimestampAllowed | LTHREstimate.py:33-34 | `timestamp` is on the allow-list |
| Telemetry.AdmittedIff | LTHREstimate.py:31-54 | a message's row is admitted (has a timestamp) exactly when the message carries a `timestamp` field, whatever else it has or lacks |
| Telemetry.Admitted | LTHREstimate.py:52-54 | every admitted row has a timestamp, and each row with a timestamp is kept exactly as often as it occurs, each row without one never |
| Telemetry.Admit | LTHREstimate.py:52-54 | every admitted row has a timestamp; each message row with a timestamp is admitted exactly as often as it occurs among the message rows, each row without one never |
| Telemetry.AdmitFrom | LTHREstimate.py:52-54 | every admitted row is the row of some message |
| Telemetry.AdmitKeeps | LTHREstimate.py:52-54 | the row of every message with a timestamp is admitted |
| Telemetry.NoDataIff | LTHREstimate.py:52-57 | the result is None exactly when no message carries a timestamp |
| Telemetry.ScaleCoordinates | LTHREstimate.py:65-70 | the row keeps its keys; `position_lat`/`position_long` are multiplied by 180 / 2^31 when numeric and kept when missing; every other entry is unchanged |
| Telemetry.DegreesInRange | LTHREstimate.py:68-70 | a coordinate in the 32-bit semicircle range converts to [-180, 180] degrees |
| Telemetry.FillPoint | LTHREstimate.py:29-50 | the inner field loop builds exactly the specified row of the message |
| Telemetry.ParseRecords | LTHREstimate.py:26-72 | the loops, sort and rescaling produce exactly the specified table: None when nothing is admitted, otherwise the admitted rows sorted and rescaled |
| Telemetry.NormalizedPermutation | LTHREstimate.py:63-70 | the table is a permutation of the rescaled admitted rows |
| Telemetry.NormalizedSorted | LTHREstimate.py:63 | the table's timestamps are non-decreasing |
| Telemetry.NormalizedRows | LTHREstimate.py:26-72 | every row of the table has a timestamp and only allow-listed fields |
| Sorting.Sort | LTHREstimate.py:63 | the result is ordered by the key and is a permutation of the input |
| Stats.PresentMembers | LTHREstimate.py:111 | `dropna()` keeps exactly the values of the present entries |
| Stats.PresentCounts | LTHREstimate.py:111 | `dropna()` keeps each present value exactly as often as the column holds it |
| Stats.PresentEmpty | LTHREstimate.py:93 | `dropna()` is empty exactly when every entry is missing |
| Stats.Mean | LTHREstimate.py:111 | the mean is defined exactly for a non-empty list, and mean times count equals the sum |
| Stats.MeanWithin | race_analysis_app.py:75-76 | a mean lies between any lower and upper bound of its values |
| Stats.Median | race_analysis_app.py:71-72 | the median is defined exactly for a non-empty list; for an odd count it is the middle sorted value, for an even count the mean of the two middle sorted values |
| Stats.MedianWithin | race_analysis_app.py:71-72 | a median lies between any bounds of its values, and for an odd count it is one of them |
| Stats.MedianSplits | race_analysis_app.py:71-72 | at least half of the sorted values are at most the median and at least half at least it |
| Threshold.Window | LTHREstimate.py:103-104 | every row of the window is at or after the window start, and the window is no longer than the session |
| Threshold.WindowMembers | LTHREstimate.py:103-104 | a row is in the window exactly when it is in the session and at or after the start |
| Threshold.WindowCounts | LTHREstimate.py:103-104 | the window keeps each row at or after the start exactly as often as the session holds it, and no other row |
| Threshold.WindowIsSuffix | LTHREstimate.py:103-104 | on a time-ordered session the window is a suffix of the session |
| Threshold.AllInWindow | LTHREstimate.py:103-104 | when a time-ordered session starts at or after the window start, the window is the whole session |
| Threshold.WindowNonEmpty | LTHREstimate.py:97-108 | the window always contains the last row, so the empty-window fallback is unreachable |
| Threshold.EstimateLthr | LTHREstimate.py:89-119 | None exactly when the session is empty or the window has no heart rate; otherwise the average is the mean of the window's present heart rates, LTHR is average × 0.95, and duration × 60 is last minus first timestamp |
| Threshold.NoHeartRateNone | LTHREstimate.py:93-94 | a session with no heart-rate value anywhere yields None |
| Threshold.EstimateWithin | LTHREstimate.py:111 | a defined average lies within any bounds of the window's heart rates |
| Threshold.ExampleEstimate | LTHREstimate.py:97-119 | three rows one minute apart at 100, 110 and 120 bpm give average 110, LTHR 104.5 and 2 minutes |
| Zones.HeartRateZones | LTHREstimate.py:132-158 | exactly five bands Z1..Z5 in order; band k spans `int(lthr × Edges[k])` to `int(lthr × Edges[k+1])` with edges 0.62, 0.77, 0.86, 0.91, 0.95, 1.03 |
| Zones.ZonesContiguous | LTHREstimate.py:132-158 | each band's upper bound equals the next band's lower bound, and for LTHR ≥ 0 every band has 0 ≤ low ≤ high |
| Zones.ZonesFor150 | LTHREstimate.py:132-158 | LTHR 150 gives bands [93,115], [115,129], [129,136], [136,142], [142,154], every bound stated |
| Zones.ZonesCover | LTHREstimate.py:132-158 | for LTHR ≥ 0 a value lies in some band exactly when it lies between Z1's low and Z5's high bound |
| Zones.FirstBand | LTHREstimate.py:450-452 | the index returned is of a band containing the value with no earlier band containing it; None means no band contains it |
| Zones.ClassifyZone | LTHREstimate.py:447-453 | a missing value is "No Data"; the result is Zk exactly when the value lies in band k and in no earlier band |
| Zones.OutOfRange | LTHREstimate.py:453 | for LTHR ≥ 0 a value is "Below Z1" exactly when under Z1's low bound and "Above Z5" exactly when over Z5's high bound |
| Zones.SharedEdgeGoesLow | LTHREstimate.py:450-452 | with LTHR 150, 115 bpm (the edge shared by Z1 and Z2) is classified Z1 |
| Zones.ElapsedSeconds | LTHREstimate.py:459 | one value per row, 0 for the first, and first timestamp plus elapsed equals the row's timestamp |
| Zones.ElapsedMinutes | LTHREstimate.py:460 | one value per row, and minutes × 60 equals the elapsed seconds |
| Zones.ElapsedMonotone | LTHREstimate.py:458-460 | on a time-ordered session both columns are non-negative and non-decreasing |
| PyNum.Trunc | LTHREstimate.py:135 | `int()` truncates toward zero for positive and negative values |
| PyNum.FloorDiv | race_analysis_app.py:23-24 | `x // d` is the integer q with d·q ≤ x < d·(q+1) |
| PyNum.FloatMod | race_analysis_app.py:24-25 | `x % d` lies in [0, d) and x = d·(x // d) + (x % d) |
| TimeFormat.ClockParts | race_analysis_app.py:23-25 | hours·3600 + minutes·60 + seconds = floor(s), with minutes and seconds in 0..59, and hours ≥ 0 when s ≥ 0 |
| TimeFormat.Pad2 | race_analysis_app.py:26 | `{n:02d}`: at least two digits spelling n for n ≥ 0, exactly two below 100, no leading zero from 10 on, and a minus sign then the digits for n < 0 |
| TimeFormat.SecondsToTime | race_analysis_app.py:19-26 | a missing value gives "N/A"; a present one gives a different string of at least eight characters |
| TimeFormat.ClockRoundTrip | race_analysis_app.py:19-26 | for s ≥ 0 the text reads back as hours, two-digit minutes and two-digit seconds that spell floor(s), with minutes and seconds in 0..59 |
| TimeFormat.ExampleClock | race_analysis_app.py:19-26 | 3725.9 seconds renders as "01:02:05" |
| TimeFormat.ExampleNegativeClock | race_analysis_app.py:23-26 | -1.5 seconds renders as "-1:59:58" (floor division, signed hours) |
| RaceFiles.Stem | race_analysis_app.py:41 | the stem plus ".csv" is the file name |
| RaceFiles.RemoveAllAbsent | race_analysis_app.py:42 | removing "_processed" from a name that does not contain it changes nothing |
| RaceFiles.RemoveProcessedSuffix | race_analysis_app.py:42 | removing every "_processed" from x + "_processed", where x has none, gives x |
| RaceFiles.DoubleProcessedSkipped | race_analysis_app.py:35-37 | a `_processed_processed.csv` file never contributes |
| RaceFiles.ProcessedName | race_analysis_app.py:35-42 | for any x without "_processed", short or long, x + "_processed.csv" is picked up and its stem is x + "_processed" |
| RaceFiles.FindSplit | race_analysis_app.py:45 | the split found is valid and no later split is valid; None means no split is valid |
| RaceFiles.MatchStem | race_analysis_app.py:45-49 | no match exactly when no `_dddddddd_` split is valid; a match has a non-empty newline-free event, eight digits and a non-empty category, takes the last valid split (greedy), and spells a prefix of the stem ending at a newline or the end |
| RaceFiles.UnmatchedSkipped | race_analysis_app.py:41-46 | a file whose cleaned stem offers no valid split contributes nothing |
| RaceFiles.StemRoundTrip | race_analysis_app.py:45-49 | event_date_category matches back to its three parts when the category offers no later dated split |
| RaceFiles.GreedyExample | race_analysis_app.py:45-49 | "A_20240101_B_20240202_C" gives event "A_20240101_B", date "20240202" and category "C" |
| RaceFiles.EventKey | race_analysis_app.py:52-53 | the key is the event name, " (", the date's year, "-", month, "-", day, and ")": 13 characters more than the event |
| RaceFiles.EventKeyRoundTrip | race_analysis_app.py:52-53 | the event name and the eight date digits can be read back from the key |
| RaceFiles.EventKeyInjective | race_analysis_app.py:52-53 | distinct (event, date) pairs never share a key |
| RaceFiles.NameRoundTrip | race_analysis_app.py:37-53 | `event_YYYYMMDD_category_processed.csv` yields key "event (YYYY-MM-DD)" and that category |
| RaceFiles.Store | race_analysis_app.py:59-61 | storing adds the key and the category, puts the table under them, and leaves every other event and category unchanged |
| RaceFiles.StoreEntries | race_analysis_app.py:59-61 | after a store the (event, category) entries are the old ones plus the stored one |
| RaceFiles.FillEntries | race_analysis_app.py:59-61 | the filled map holds (key, category) exactly when some parsed entry carries it |
| RaceFiles.FillNoEmptyEvent | race_analysis_app.py:59-61 | every event in the filled map has at least one category |
| RaceFiles.FillLastWins | race_analysis_app.py:59-61 | the table under (key, category) is that of the last entry carrying the pair |
| RaceFiles.LoadRaceData | race_analysis_app.py:39-61 | the loop over files builds exactly the specified catalog |
| RaceFiles.CatalogEntries | race_analysis_app.py:39-61 | the catalog has an entry for (key, category) exactly when some file parses to that pair |
| RaceFiles.CatalogNoEmptyEvent | race_analysis_app.py:59-61 | an event key never appears without a category |
| RaceFiles.CatalogLastWins | race_analysis_app.py:59-61 | the table stored under (key, category) is that of the last file parsing to the pair |
| Results.Tag | race_analysis_app.py:193 | `assign(Category=cat)` keeps length and order and sets each row's category |
| Results.Combine | race_analysis_app.py:192-195 | the combined length is the sum of the selected tables' lengths, and every row's category is a selected one |
| Results.CombineRows | race_analysis_app.py:192-195 | row i of the k-th selected table sits at position (rows of the first k tables) + i, tagged with its category |
| Results.Statistic | race_analysis_app.py:70-77 | `stat_type == 'median'` gives the median of the present values, and every other choice gives their mean; it is defined exactly when the column has a present value |
| Results.StatLabel | race_analysis_app.py:73-77 | the label is "Median" exactly when `stat_type == 'median'`, and "Avg" for every other choice |
| Results.StatisticWithin | race_analysis_app.py:70-77 | mean or median, the chosen statistic lies between any bounds of the present values |
| Results.StatisticMedianExample | race_analysis_app.py:70-73 | with present values 1, 2, 6 and "median" the statistic is 2 |
| Results.StatisticMeanExample | race_analysis_app.py:74-77 | the same values with any choice other than "median" give the mean 3 |
| Results.CapitalisedMedianIsMean | race_analysis_app.py:70-77 | the choice is case-sensitive: "Median" gives the mean 3 |
| Results.PodiumColor | race_analysis_app.py:11-15 | a podium colour exists exactly for places 1, 2 and 3 |
| Results.MarkerPrecedence | race_analysis_app.py:84-96 | a name match gives the red star of size 15 even on the podium; otherwise a podium row gets its medal colour at size 12; otherwise the default blue at size 8 |
| Results.MarkerSizeClassifies | race_analysis_app.py:84-96 | size 15 (and the star) exactly for a highlighted row, 12 exactly for an unhighlighted podium row, 8 exactly for the rest |
| Results.ScatterImpliesTable | race_analysis_app.py:229-231 | every row the scatter highlights (equality at line 85) is highlighted in the table (containment) |
| Results.TableWithoutScatter | race_analysis_app.py:229-231 | the converse fails: "ann" highlights Joanna's table row but not her point |
| Results.PointsAt | race_analysis_app.py:80-122 | point i sits at row i's swim and run seconds with row i's marker |
| Results.PlotRows | race_analysis_app.py:80-122 | the row loop draws exactly the specified points, in row order |
| Results.Scatter | race_analysis_app.py:65-122 | the statistic lines use the chosen statistic of the swim and run columns, with its label, and there is one point per row with its marker |
| Text.Strip | race_analysis_app.py:85 | `strip()` returns a slice with only whitespace before and after it, which neither starts nor ends with whitespace |
| Text.StripUnique | race_analysis_app.py:85 | only one slice fits that description, so it is `strip()`'s |
| Text.StripPadded | race_analysis_app.py:85 | whitespace around a name does not change its stripped form |
| Text.StripClean | race_analysis_app.py:85 | a name without surrounding whitespace is its own stripped form |
| Text.Lower | race_analysis_app.py:85 | `lower()` keeps the length and lower-cases each character |

## Left out

- Decoding with `fitparse` (`FitFile`, `get_messages`) and `pd.to_datetime`: the model starts from decoded messages with whole-second date-times. The `try`/`except` around decoding, which reports an error and returns None, is not modelled.
- Telemetry.Stamp: a `timestamp` value that is not a date-time reads as 0. In the source, a message whose `timestamp` field is None is still admitted, because the test is key presence (LTHREstimate.py:50-53). `pd.to_datetime` turns that value into NaT, and `sort_values` puts NaT last. `end_time` is then NaT, so no row passes the window filter, the "use all data" fallback runs, and the duration is NaN. The model instead sorts such a row as time 0 and computes its window and duration from that. Its window and duration claims (`Threshold.WindowNonEmpty`, `Threshold.EstimateLthr`) describe only sessions whose timestamps are all date-times.
- Sorting.Sort: an insertion sort that promises order and permutation only. pandas' quicksort may order equal timestamps differently; no stability or tie order is claimed.
- Floating-point rounding: means, the 0.95 factor, the band percentages and the coordinate factor are exact reals. `int(lthr * 0.77)` can differ by one from IEEE arithmetic on an exact boundary.
- File-system access (`Path.glob`, `pd.read_csv`) and `@st.cache_data`: `RaceFiles.LoadRaceData` receives the file names in glob order, each paired with its already-read table.
- Text.IsDigit: `\d` is modelled as ASCII digits. Python's `\d` on `str` also accepts other Unicode decimal digits.
- Text.LowerChar: lower-cases ASCII and Latin-1 capitals only. Python's `str.lower()` covers all of Unicode.
- Stats.Present (`dropna()`, LTHREstimate.py:111): its own contract states only that the result is no longer than the column. Its contents are stated by `Stats.PresentMembers`, `Stats.PresentCounts` and `Stats.PresentEmpty`.
- RaceFiles.RemoveAll (`filename.replace('_processed', '')`, race_analysis_app.py:42): its own contract states only that the result is no longer than the input. Its behaviour on file names is stated by `RaceFiles.RemoveAllAbsent` and `RaceFiles.RemoveProcessedSuffix`. Its result on names that already contain "_processed" elsewhere is given only by its definition.
- RaceFiles.Candidate (the `*_processed.csv` glob and the `_processed_processed.csv` filter, race_analysis_app.py:35-37): a predicate with no contract. Its behaviour is stated by `RaceFiles.DoubleProcessedSkipped` and `RaceFiles.ProcessedName`.
- Results.ScatterHighlight (the name equality test, race_analysis_app.py:85): a predicate with no contract. Its effect is stated by `Results.MarkerPrecedence`, `Results.MarkerSizeClassifies` and `Results.ScatterImpliesTable`.
- Results.TableHighlight (the name containment test, race_analysis_app.py:231): a predicate with no contract. Its relation to the scatter test is stated by `Results.ScatterImpliesTable` and `Results.TableWithoutScatter`.
- Text.IsSubstring (Python's substring `in`, race_analysis_app.py:231): a predicate with no contract. It is a search for an `OccursAt` position, exercised by `Results.ScatterImpliesTable` and `Results.TableWithoutScatter`.
- RaceFiles.ParseName: it has no contract of its own. Its behaviour is stated by `UnmatchedSkipped`, `DoubleProcessedSkipped`, `NameRoundTrip` and the catalog lemmas.
- Results.MarkerOf: it has no contract of its own. Its behaviour is stated by `MarkerPrecedence` and `MarkerSizeClassifies`.
- Results.Row: `Pos` is an optional integer, and the model decides the podium row by row. With `pd.read_csv`, a single non-numeric entry (a status such as DNF) makes the whole `Pos` column of that file strings. `'1' in PODIUM_COLORS` is then false, so no row of that file gets a podium marker. The model assumes a numeric `Pos` column, where a blank is None, and does not capture this column-wide effect. It also assumes every `Name` is a string. `pd.read_csv` reads a blank `Name` cell as NaN, and once a search is entered, `name.strip()` (race_analysis_app.py:85) and `row['Name'].strip()` (race_analysis_app.py:231) raise on that row, so the scatter and the table fail. The model instead gives such a row its podium or default marker and no table highlight. That error path is not modelled.
- Hover text, trace names, the statistic-line annotations and every other Plotly and Streamlit call: presentation only.
- The metrics of the race dashboard and the `sort_values('Pos')` display order of the results table: presentation only. Their means are the `Stats.Mean` of the columns.
- The CSS list that `highlight_row` returns: only the highlight decision (`TableHighlight`) is modelled.
- The export-field selection, the `'heart_rate' in selected_fields` / `'timestamp' in selected_fields` guards, the constant `lthr` export column, field-coverage percentages, dtypes and `to_csv`: UI state and serialisation.
- The heart-rate plot (`create_heart_rate_plot`): rendering only.
