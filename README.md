# Sleep health dashboard: the data pipeline, in Dafny

The dashboard loads the sleep health and lifestyle survey into a table and
shows several views of it. It shows the first and last rows. The user picks a
gender from a drop-down ("All" or one of the genders in the data), a window
direction and a row count; the model covers the view of the table that these
choices select. It also covers the people with the highest sleep quality,
the per-gender and per-occupation means of sleep quality, sleep duration,
physical activity and stress, the group with the largest mean of each
metric, and for stress also the group with the smallest. Finally, it covers the colour of each bar in the two stress-level bar
charts. This project models that pipeline and proves what each stage
computes.

The table is a `seq<Record>` in file order. A missing cell is `None`. Numbers
are `int` and `real`, not floating point. The modules follow the pipeline:

- `Table` (table.dfy): the record type and its columns. `Where` models
  boolean-mask selection `df[cond]`. It also defines ASCII lower-casing.
- `Selection` (selection.dfy): the gender options, the gender filter and the
  `head`/`tail` window. The fixed "male" view at main.py:78 is
  `SelectGender(t, "male")`, and `SelectionIgnoresCase` shows that it equals the
  "Male" selection.
- `Ordering` (ordering.dfy): Python's ordering of `str` keys, and the sorted
  distinct keys that `groupby` produces.
- `Averages` (averages.dfy): sums and means of reals.
- `Summary` (summary.dfy): `df[[key] + metrics].dropna().groupby(key).mean()`.
  It is one generic function for all six summary blocks. The computation
  (project, drop, group) is proved equal to reference definitions stated
  directly over the table.
- `Ranking` (ranking.dfy): `idxmax`/`idxmin` and the rows they select, the
  column max/min, and the best-sleepers selection.
- `Colours` (colours.dfy): the loop that builds one bar colour per summary
  value.
- `Scenarios` (scenarios.dfy): small fixed tables with every result worked
  out.

Three behaviours of the code are worth stating up front:

- Group order: pandas `groupby` sorts keys ascending (its default
  `sort=True`), so `GroupMean` lists keys in strictly ascending `str` order.
- Missing values: `dropna()` after the projection drops a record when the
  key or any metric of the block is missing, so in the sleep block a record
  with only one of its two metrics counts toward neither mean.
- Best sleepers: the code skips this view only when the filtered table is
  empty. When every quality cell is missing, the result is empty.

## Model

| member | source | states |
|---|---|---|
| `Table.Lower` | main.py:93 | `str.lower()` on ASCII: same length, each upper-case letter replaced by its lower-case letter, every other character unchanged, and no upper-case letter left |
| `Table.Where` | main.py:93 | mask selection is an order-preserving subsequence; every kept row satisfies the mask; each row satisfying it is kept as often as it occurs, and no other row is kept |
| `Selection.SelectGender` | main.py:92-95 | "All" gives the table itself, same rows in the same order; any other selection gives the subsequence of exactly the rows whose gender, lower-cased, equals the selection lower-cased (a missing gender never matches) |
| `Selection.SelectionIgnoresCase` | main.py:92-93 | two selections other than "All" that lower-case alike select the same rows, so the fixed "male" view equals the "Male" selection |
| `Selection.Window` | main.py:97-100 | the window has `min(n, |t|)` rows; First gives a prefix of the table, Last a suffix |
| `Selection.WindowCoversShortTable` | main.py:97-100 | when `n` is at least the table's length, both directions show the whole table |
| `Selection.Preview` | main.py:59-65 | `head(5)`/`tail(5)`: `min(5, |t|)` rows, a prefix of the table or a suffix |
| `Selection.MalePreview` | main.py:78-79 | the first `min(5, |male rows|)` rows of the male selection, each of gender "Male" in any letter case |
| `Selection.DisplayedRows` | main.py:90-100 | for a slider value in 1..20, the view is a prefix (First) or suffix (Last) of the filtered table with `min(n, |filtered|)` rows, at most 20, each row from the table and, unless "All", of the selected gender |
| `Selection.Genders` | main.py:81 | the present genders, each exactly once, and no others |
| `Selection.GendersInFirstAppearanceOrder` | main.py:81 | the listed genders are in order of the row where each first appears |
| `Selection.GenderOptions` | main.py:81-82 | the options start with "All", followed by each present gender exactly once and nothing else |
| `Selection.OptionSelectsSomeRow` | main.py:81-95 | on a non-empty table, every drop-down option selects at least one row |
| `Ordering.SortedDistinct` | main.py:126 | the group keys come out strictly ascending in Python `str` order, with exactly the keys of the input |
| `Ordering.BelowTotal` | main.py:126 | any two distinct keys are ordered, so the group order is determined |
| `Summary.Project` | main.py:124 | each projected row carries one value per requested metric |
| `Summary.ProjectIsCompleteRecords` | main.py:124 | `dropna()` after the projection keeps exactly the records with the key and every metric present, in table order, row i being the i-th such record's key and metric values |
| `Summary.GroupValues` | main.py:126-129 | a group's value list has one entry per complete record of the group |
| `Summary.Mean` | main.py:126-129 | a group's mean of metric j times the group's record count is the sum of that metric over the group's complete records |
| `Summary.TableCountPositive` | main.py:124-129 | a group is non-empty exactly when some record has the key and every metric present |
| `Summary.ProjectAgrees` | main.py:124-129 | counting, summing and listing keys over the dropped projection agree with the same quantities over the complete records of the table |
| `Summary.GroupMean` | main.py:124-129 | summary keys are strictly ascending and are exactly the keys of complete records, each once; each summary holds one mean per metric, equal to the group's sum divided by its count |
| `Summary.IncompleteRecordIgnored` | main.py:124 | a record missing the key or any metric of the block changes no summary |
| `Summary.NoGroupsIffNoCompleteRecord` | main.py:124-129 | the summary is empty exactly when no record is complete, in particular for the empty table |
| `Summary.MeanWithinBounds` | main.py:126-129 | a group's mean lies between any lower and upper bound of its values |
| `Averages.Average` | main.py:127-128 | the `'mean'` aggregation: the mean times the number of values is their sum |
| `Averages.AverageWithinBounds` | main.py:127 | the mean of a non-empty list lies between any bounds of its elements |
| `Ranking.SeqMax` | main.py:235 | `max()` is an element of the column and at least every element |
| `Ranking.SeqMin` | main.py:236 | `min()` is an element of the column and at most every element |
| `Ranking.IdxMax` | main.py:136 | `idxmax` is a position holding a value at least every other, and every earlier position holds a strictly smaller value |
| `Ranking.IdxMin` | main.py:207 | `idxmin` is a position holding a value at most every other, and every earlier position holds a strictly larger value |
| `Ranking.IdxMaxIsTheFirstMaximum` | main.py:136 | exactly one position satisfies the first-maximum property, so the tie-break is deterministic |
| `Ranking.IdxMinIsTheFirstMinimum` | main.py:207 | exactly one position satisfies the first-minimum property |
| `Ranking.Column` | main.py:136 | `summary[metric]`: one entry per summary row, in row order, holding that row's mean of the metric |
| `Ranking.Leader` | main.py:136-140 | the selected summary row is in the summary, its mean is at least every row's, and no earlier row has an equal mean (as also at 158, 161, 176, 191, 206, 224) |
| `Ranking.Laggard` | main.py:207 | the selected summary row is in the summary, its mean is at most every row's, and no earlier row has an equal mean (as also at 225) |
| `Ranking.LeaderOfGroupMean` | main.py:124-140 | on a table with a complete record, the summary can be ranked; the leader is a real group and its mean is at least every group's mean |
| `Ranking.MaxQuality` | main.py:114 | the maximum skips missing cells; it is absent exactly when every cell is missing, and otherwise is attained by some record and bounds every score |
| `Ranking.ScoresExactly` | main.py:115 | the mask `== max_quality` is false when either side is missing, and otherwise holds exactly when the two scores are equal |
| `Ranking.ScoresMaxIffTop` | main.py:115 | for a record of the table, equalling the maximum score is the same as scoring no lower than any record |
| `Ranking.BestSleepers` | main.py:111-115 | no result (the "no data" message) exactly for the empty table; otherwise the order-preserving subsequence of exactly the records scoring the maximum, ties included; it is non-empty exactly when some score is present |
| `Ranking.SelectedBestSleepers` | main.py:92-115 | the best-sleepers view over the gender-filtered table: no data exactly when the filter selects nothing; otherwise the order-preserving subsequence of the selection holding exactly its top sleepers, ties included; each is a record of the table and of the selected gender unless "All" |
| `Ranking.ExtremesCharacterised` | main.py:235-236 | a value equals the column's `max()` exactly when no value is larger, and its `min()` exactly when no value is smaller |
| `Colours.BarColours` | main.py:234-244 | one colour per value; red iff no value is larger; green iff some value is larger but none is smaller; gray iff some value is larger and some smaller; some bar is red when the column is non-empty; all red when all values are equal |
| `Scenarios.StressByGender` | main.py:198-200 | stress levels 6, 4 and 8 for Male, Female and Male give Female 4 then Male 7 |
| `Scenarios.FirstFemaleRow` | main.py:92-100 | filtering that table to "Female" and showing the first row gives the first Female record |
| `Scenarios.BestSleepersKeepTies` | main.py:111-115 | scores 9, 7, 9 and 8 give exactly the two records scoring 9, in order |
| `Scenarios.FirstOfTiedGroupsLeads` | main.py:224 | of two groups tied on the largest mean, `idxmax` picks the earlier |

The second chart's colour loop (main.py:257-267) is the same loop over the
occupation summary. It is `BarColours` applied to that column.

## Left out

- Page markup, CSS, widgets and text formatting (every `st.*` call): presentation only. The drop-down, radio and slider values are parameters.
- Reading the CSV file (main.py:27): file I/O. The table is an input.
- Building and showing the matplotlib figures (main.py:246-250, 269-273): plotting-library calls.
- Rounding the summary columns to two decimals (main.py:131-132, 153-154, 172, 187, 202, 220): pandas rounds binary floats half-to-even, which is not modelled. Means are exact rationals.
- Leader: ranks the exact means. The code ranks the rounded column, so two groups whose means differ but round to the same value are a tie in the code and not in the model.
- Laggard: ranks the exact means, not the rounded column, for the same reason.
- BarColours: in the code the column it colours is the rounded one. The model's contract holds for whatever column it is given.
- Floating-point arithmetic in `mean()`: sums and quotients are exact reals.
- SelectGender: lower-cases ASCII letters only. Python's `str.lower` also folds non-ASCII letters.
- Ranking an empty summary: the code calls `idxmax`/`idxmin` without a guard. `Leader`, `Laggard`, `IdxMax` and `IdxMin` require a non-empty column, and `LeaderOfGroupMean` gives the condition under which that holds.
- The radio button returns one of two labels. It is the two-valued `RowPosition`.
- Columns that no computation reads (BMI category, blood pressure, heart rate, daily steps, sleep disorder): the previews display them, but `Record` omits them.
- NaN propagation and pandas dtypes: a missing cell is `None` and nothing more.
