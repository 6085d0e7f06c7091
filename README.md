# Agent4Employee analysis core in Dafny

Agent4Employee is a set of Python analysis scripts over simulated employee records. Some
records come from "experimental" agents and some from "control" agents. The CSV files they
read are named by gender, group and year (`男_实验组_第4年.csv`, `S_对照组_第2年.csv`, ...).
The scripts draw charts with matplotlib, seaborn and plotly. Under the charts is a small body
of deterministic logic, and this project models that logic and proves what it promises.

- **File-name metadata and the glob loaders** (`task1_code1.py`, `task1_code2.py`,
  `task2_code1.py`, `task2_code2.py`).
  - The group, gender and year are parsed from a file name.
  - Every row of a loaded file is tagged with them.
  - Files that fail are skipped, and the rest are concatenated.
  - Modules `FilenameMeta`, `Table`, `Loader`.
- **The fixed-name loaders** (`task3_code1.py`, `task3_code2.py`).
  - They build `男_实验组_第{y}年.csv` / `女_实验组_第{y}年.csv` for each year.
  - A missing file aborts the load.
  - They tag rows with Year, or with Year and Gender.
  - Module `SalaryLoad`.
- **Exact group aggregations** (`task1_*`, `task2_*`, `task3_code1.py`, `task3_code2.py`):
  - group means;
  - the percentage pivots, the mirror chart and the crosstab;
  - stacked-bar bottoms;
  - the Experimental-minus-Control difference;
  - the grade-A share;
  - the per-grade comparison;
  - the position histogram;
  - `pct_change`;
  - the top-8 departments;
  - the total salary growth.
  - Modules `Stats`, `GroupStats`, `TextOrder`, `Ranking`, `TaskMetrics`, `SalaryAnalysis`.
- **The positional salary table** (`task3_code3.py`):
  - the 11 column names;
  - the gender overwrite;
  - the female-then-male concatenation;
  - the Total Growth and Growth columns;
  - the `pd.cut` salary brackets;
  - the wide-to-long melt.
  - Module `SalaryTable`.
- **The dollar-number extractor** (`task4_code3.py`).
  - It takes at most one number per cell.
  - It keeps row-major order, chunks the numbers into fives, and truncates to `max_lines`.
  - Module `DollarExtract`.
- **The last-column comparator** (`task4_code1.py`). It zips the rows of two files, compares
  the integers in their last cells and counts the outcomes. Module `LastColumnCompare`.

Modelling choices:

- A table is a `Frame`: a set of column names and a sequence of rows. Each row maps column
  names to `Null`, `Num(int)` or `Text(string)`.
- A file is an already-parsed value: a name with optional content.
- Means, shares and ratios are exact `real`s. A result that pandas would make NaN or infinite
  (an empty group, a zero divisor) is `None`.
- Python exceptions are modelled as results:
  - `Failed(...)` for the glob loaders' errors;
  - `Err(FileNotFound(name))` for a missing fixed-name file, and `Err(NoObjectsToConcatenate)` for an empty year list;
  - `None` for a `.loc` on a missing group, and for text in a column that `SalaryTable.Prepare` subtracts or cuts.
- The loops of the loaders, of `calculate_growth_rates`, of the grade comparison, of the
  extractor and of the comparator are methods with loops. Each one is proved equal to a
  specification function, and the lemmas state the properties of that function.
- Two readings that follow the code:
  - The extractor takes only the first `symbol<digits>` match of a cell (`re.search`), so
    `"$7 $8"` contributes 7 alone, not both numbers. `DollarExtract.FirstMatchOnly` proves this.
  - The Control/Experimental gender markers are asymmetric, so `男_对照组_第0年.csv` is a Control
    *Female* file. `FilenameMeta.ControlIgnoresExperimentalMarker` proves this.

## Model

| member | source | states |
|---|---|---|
| FilenameMeta.TokenUsesWholeRun | code/task1_code1.py:39 | a `第<digits>年` match always spans the whole digit run after `第` (`\d+` is greedy) |
| FilenameMeta.MatchAt | code/task1_code1.py:39 | at position i there is no match iff no `第<digits>年` token starts there; otherwise the year is the token's digit value |
| FilenameMeta.FindYear | code/task1_code1.py:39 | the scan from a position finds nothing iff no year token starts at or after it |
| FilenameMeta.FindYearLeftmost | code/task1_code1.py:39 | the scan returns the value of the leftmost token (`re.search` semantics) |
| FilenameMeta.Parse | code/task1_code1.py:31-39 | the name is rejected iff it has no year token; otherwise: the year is the leftmost token's value; Control iff the name contains 对照组; for Control, Male iff it contains `S_`; for Experimental, Male iff it contains 男 |
| FilenameMeta.ExperimentalNameMarkers | code/task3_code1.py:25-29 | a constructed name never contains 对照组, and contains 男 iff it is the male file |
| FilenameMeta.ExperimentalNameToken | code/task3_code1.py:25-29 | the constructed name's leftmost year token is the decimal text of the year |
| FilenameMeta.ExperimentalFileNameRoundTrip | code/task3_code1.py:25-29 | the name built for (gender, year) parses back to (Experimental, gender, year) |
| FilenameMeta.NoMarkerDefaults | code/task1_code1.py:34-36 | a name with a year token but neither 对照组 nor 男 is Experimental and Female |
| FilenameMeta.ControlIgnoresExperimentalMarker | code/task1_code1.py:31-33 | `男_对照组_第0年.csv` is (Control, Female, 0): 男 is not consulted for Control |
| Decimal.DigitRun | code/task1_code1.py:39 | the greedy `\d+` run stays inside the string, consists of digits and is followed by a non-digit or the end |
| Decimal.Show | code/task3_code1.py:25 | `str(n)` is a non-empty digit string without a leading zero |
| Decimal.ValueShow | code/task3_code1.py:25 | `int(str(n)) == n` |
| Decimal.ShowValue | code/task1_code1.py:46 | a canonical digit string survives `str(int(s))` unchanged |
| Decimal.ValueLowerBound | code/task1_code1.py:46 | a digit string without a leading zero has value at least 1, and at least 10 if it has two or more digits |
| Table.Derive | code/task2_code2.py:30 | `df[col] = f(row)` sets col in every row to f of that row, keeps the other cells and the row count, and keeps the frame well formed |
| Table.SetColumn | code/task1_code1.py:46-48 | `df[col] = v` sets col to v in every row, overwrites an existing col, and keeps the other cells and the row count |
| Table.Fill | code/task1_code1.py:59 | a row reindexed to the union of columns has exactly those keys, and a missing column becomes Null |
| Table.Concat | code/task1_code1.py:59 | concatenation fails iff there are no frames; otherwise it is well formed over the union of columns, with as many rows as the stacked frames |
| Table.StackLength | code/task1_code1.py:59 | the stacked rows number the sum of the frames' row counts |
| Table.StackAppend | code/task1_code1.py:50 | stacking keeps frame order: stacking a + b is stacking a followed by stacking b |
| Table.StackMember | code/task1_code1.py:59 | every stacked row comes from one of the frames |
| Table.ConcatRows | code/task1_code1.py:59 | the combined row count is the sum of the frames' counts, and each combined row is some frame's row filled to all columns |
| Table.ConcatCells | code/task1_code1.py:59 | every cell of a combined row is the source row's cell, or Null where the source lacks the column |
| Table.Select | code/task1_code1.py:70-72 | a boolean-mask filter keeps exactly the rows satisfying the mask, each as many times as it occurs in the table (multiset equality), and never more rows |
| Table.SelectOne | code/task1_code1.py:70-72 | a single row is kept iff it satisfies the mask |
| Table.SelectAppend | code/task1_code1.py:70-72 | filtering rows a + b gives the kept rows of a followed by those of b, so the table's order is preserved |
| Table.SelectKey | code/task1_code1.py:70-72 | filtering on optional (Group_Type, Gender, Year) keeps exactly the rows matching every given field, each as many times as it occurs |
| Table.SelectKeyOne | code/task1_code1.py:70-72 | a single row is kept iff it matches every given field |
| Table.SelectKeyAppend | code/task1_code1.py:70-72 | filtering rows a + b on a key gives a's matching rows followed by b's |
| GroupStats.Numbers | code/task1_code1.py:73 | the values `.mean()` averages are exactly the numeric cells of the column; NaN cells are skipped |
| GroupStats.NumbersOne | code/task1_code1.py:73 | one row contributes its value when numeric, nothing otherwise |
| GroupStats.NumbersAppend | code/task1_code1.py:73 | the values of rows a + b are those of a followed by those of b, so duplicates are kept in row order |
| GroupStats.MatchCountTotal | code/task1_code1.py:70-73 | a group mean averages exactly as many values as there are rows that match the key and hold a number |
| GroupStats.MatchSumTotal | code/task1_code1.py:70-73 | those values add up to the metric summed over the same rows |
| GroupStats.GroupMeanValue | code/task1_code1.py:70-73 | a group mean is NaN iff no matching row holds a number, and otherwise equals their sum divided by their count |
| GroupStats.GroupMeanDefined | code/task1_code1.py:70-73 | a group mean exists iff some matching row has a numeric value |
| GroupStats.GroupMeanOfMatchingRows | code/task2_code1.py:109-111 | a group mean lies within any bounds that hold for the values of exactly that group's rows |
| GroupStats.Texts | code/task2_code2.py:118 | the texts of a column are exactly its Text cells, one per row when every cell is text |
| GroupStats.TextsOne | code/task2_code2.py:118 | one row contributes its text when it is text, nothing otherwise |
| GroupStats.TextsAppend | code/task2_code2.py:118 | the texts of rows a + b are those of a followed by those of b |
| GroupStats.TextCount | code/task2_code2.py:125 | a text occurs among a column's texts once per row that holds it |
| Stats.Mean | code/task1_code1.py:73 | the mean is undefined iff there are no values; otherwise mean times count equals the sum |
| Stats.MeanBounds | code/task1_code2.py:178-182 | the mean of values in [lo, hi] lies in [lo, hi] |
| Stats.PercentOfWhole | code/task2_code2.py:84 | the percentage of c in n, times n, is 100c |
| Stats.PercentOfBounds | code/task2_code2.py:84 | the percentage of c <= n in n lies in [0, 100] |
| Stats.Shares | code/task1_code1.py:105 | a count row normalises iff its total is non-zero, giving one share per count |
| Stats.SharesAt | code/task1_code1.py:105 | share i is 100 * count i / row total |
| Stats.SharesBounded | code/task1_code1.py:105 | every share lies in [0, 100] |
| Stats.SharesSumTo100 | code/task1_code1.py:105 | the shares of a non-empty count row sum to exactly 100 |
| Stats.PctChange | code/task3_code1.py:150-151 | `pct_change` has one entry per mean, the first is NaN, and entry i is defined iff mean i-1 is non-zero |
| Stats.PercentChangeCompounds | code/task3_code2.py:143 | applying a growth of (e/s - 1)*100 percent to s yields e |
| Stats.PctChangeCompounds | code/task3_code1.py:150-151 | compounding the first mean by every `pct_change` rate gives back the last mean |
| TextOrder.LessIrreflexive | code/task2_code2.py:118 | Python's string order is irreflexive |
| TextOrder.LessTransitive | code/task2_code2.py:118 | Python's string order is transitive |
| TextOrder.LessTotal | code/task2_code2.py:118 | Python's string order is total |
| TextOrder.SortedIsDistinct | code/task2_code2.py:118 | a strictly sorted list has no duplicates |
| TextOrder.Insert | code/task2_code2.py:118 | inserting into a strictly sorted list keeps it strictly sorted and adds exactly that element |
| TextOrder.SortedUnique | code/task2_code2.py:118 | `sorted(unique(xs))` is strictly sorted and has exactly the elements of xs |
| Loader.Tag | code/task1_code1.py:46-48 | tagging keeps the row count and adds Year, Group_Type and Gender to the columns |
| Loader.LoadFrames | code/task1_code1.py:24-53 | the loop's `all_data` is the frames of the files that load, in discovery order, and the error messages name exactly the files that fail |
| Loader.LoadAndProcessChecked | code/task1_code1.py:21-59 | no files raises before reading; all files failing raises; otherwise the result is the concatenation of the loaded frames |
| Loader.LoadAndConcat | code/task1_code2.py:19-52 | with nothing loaded `pd.concat` raises; otherwise the result is the concatenation of the loaded frames (with Performance coerced to text in the task2_code2 variant) |
| Loader.NoYearTokenFails | code/task1_code2.py:38 | a file name without a `第<digits>年` token makes that file fail |
| Loader.LoadedFramesAppend | code/task1_code1.py:24-50 | the loaded frames of a + b are those of a followed by those of b |
| Loader.FailedNamesAppend | code/task1_code1.py:52-53 | the failure messages of a + b are those of a followed by those of b |
| Loader.FailingFileIsSkipped | code/task2_code1.py:38-39 | a failing file adds nothing to the loaded frames and only its own name to the failures; the files around it load as if it were absent |
| Loader.TagRow | code/task1_code1.py:46-48 | a tagged row has the file's Year, Group_Type and Gender, overwriting earlier values, and keeps every other cell |
| Loader.CoerceRow | code/task2_code2.py:30 | coercing Performance keeps the row count and columns, and each row is tagged with Performance as text and its other cells unchanged |
| Loader.LoadOneRows | code/task2_code2.py:25-30 | a loaded file had content and a parsable name, keeps its row count and well-formedness, and every row is the tagged source row |
| Loader.LoadedFrameOrigin | code/task2_code1.py:36 | every loaded frame is the result of loading one of the files |
| Loader.LoadedTotalRows | code/task2_code1.py:41 | the loaded frames hold as many rows as the successfully loaded files |
| Loader.CombinedTable | code/task1_code1.py:59 | the combined table has the summed row count, and each row is a tagged row of some loaded file |
| TaskMetrics.MeanDifferenceValue | code/task1_code2.py:185-188 | the difference is defined iff both groups have a numeric row, and is then the Experimental sum over count minus the Control sum over count |
| TaskMetrics.MeanDifferenceSign | code/task1_code2.py:185-188 | if every Experimental value is at least v and every Control value at most v, the Experimental-minus-Control difference is not negative |
| TaskMetrics.RadarTrace | code/task2_code1.py:59-60 | a missing (group, gender) raises; otherwise the trace has len(metrics)+1 entries, the group's means, with the last equal to the first |
| TaskMetrics.RadarTheta | code/task2_code1.py:64 | theta is the metric names closed by repeating the first |
| TaskMetrics.GradeCountsTotal | code/task1_code1.py:97-102 | over distinct grade columns, the size counts sum to the number of rows whose grade is one of them |
| TaskMetrics.CoveredCountsTotal | code/task1_code1.py:97-102 | when the columns are the grades of an enclosing group, the counts of a sub-group sum to its size (`fill_value=0` loses no row) |
| TaskMetrics.DistributionSumsTo100 | code/task1_code1.py:97-105 | a non-empty (Gender, Year) row of the performance pivot is defined, its percentages sum to 100, and each lies in [0, 100] |
| TaskMetrics.CoveredDistribution | code/task1_code1.py:97-105 | a row normalised over the grade columns of an enclosing selection is defined iff the selection has a grade, has one entry per column, and each entry is that grade's count as a percentage of the selection's grades |
| TaskMetrics.PerformancePivotRow | code/task1_code1.py:97-105 | the (gender, year) row of a group's pivot is defined iff that subset has a grade; each column holds the percentage of the subset's grades equal to it |
| TaskMetrics.MirrorRow | code/task1_code2.py:66-71 | the year row of a (group, gender) table is defined iff that year has a grade; each column holds the percentage of its grades equal to it |
| TaskMetrics.CrosstabRow | code/task2_code2.py:98-102 | the (gender, group) row of the crosstab is defined iff that subset has a grade; each column holds the percentage of its grades equal to it |
| TaskMetrics.PerformancePivotRowSumsTo100 | code/task1_code1.py:97-105 | each row of the `pivot_table` percentage pivot sums to 100 |
| TaskMetrics.CrosstabRowSumsTo100 | code/task2_code2.py:98-102 | each (Gender, Group_Type) row of the normalised crosstab sums to 100 |
| TaskMetrics.StackedBars | code/task1_code2.py:80-82 | one bar per grade with the grade's share as height; the first starts at 0 and each starts where the previous one ends |
| TaskMetrics.MirroredBars | code/task1_code2.py:76-87 | zipping with the male table's colours draws min(female grades, male grades) female bars, each the male formula negated in both bottom and height (x positions: see Left out) |
| TaskMetrics.FemaleBarsComplete | code/task1_code2.py:76-87 | when the women have no more grade columns than the men, every female grade is drawn |
| TaskMetrics.StackedBarsSpan | code/task1_code2.py:80-82 | the male stack starts at 0 and ends at the row total |
| TaskMetrics.MirrorStackReaches100 | code/task1_code2.py:66-82 | for a year with graded rows, the top of the last stacked bar is 100 |
| TaskMetrics.GradeCount | code/task2_code2.py:125 | the rows with a given grade are at most all rows |
| TaskMetrics.GradeCountRows | code/task2_code2.py:125 | the count of a grade is the number of rows whose Performance equals it |
| TaskMetrics.GradeShare | code/task2_code2.py:84 | the grade share is undefined (NaN) iff there are no rows |
| TaskMetrics.GradeShareBounds | code/task2_code2.py:83-85 | the grade-A (or any grade) share of a non-empty year lies in [0, 100] |
| TaskMetrics.GradeSharePerHundred | code/task2_code2.py:84 | the share times the number of rows is 100 times the number of rows with that grade |
| TaskMetrics.GradeATrend | code/task2_code2.py:80-85 | the grade-A point of (gender, group, year) is defined iff that subset has rows, and then lies in [0, 100] |
| TaskMetrics.GradeRowAt | code/task2_code2.py:122-127 | entry k is the grade's share in the k-th (gender, group) subset, labelled "gender (group)" |
| TaskMetrics.GradeComparison | code/task2_code2.py:118-127 | one bar group per sorted unique grade, each with the four labels and the grade's share in each subset |
| TaskMetrics.GradeBarsOf | code/task2_code2.py:120-127 | the inner loop's labels and percentages are the four comparison labels and the grade's four subset shares |
| TaskMetrics.CoveredGradeShares | code/task2_code2.py:125 | when the grade columns cover the subset, the per-grade percentages are the count shares and sum to 100 |
| TaskMetrics.GradeSharesSumTo100 | code/task2_code2.py:118-127 | for a non-empty (gender, group) subset, its percentages over the sorted unique grades sum to 100 |
| TaskMetrics.ShareIsGradeShare | code/task2_code2.py:98-125 | the per-grade mean percentage equals the crosstab's normalised share for that grade |
| SalaryLoad.FirstMissing | code/task3_code1.py:24-31 | the load aborts iff some expected file is absent, and the name it reports is absent |
| SalaryLoad.FirstMissingIsFirst | code/task3_code1.py:24-31 | the reported name is the first absent one, male before female within a year and in year order |
| SalaryLoad.FirstMissingPrefix | code/task3_code2.py:15-26 | a failure among the first k years is the failure of the whole load |
| SalaryLoad.LoadData | code/task3_code1.py:19-36 | the loop yields the missing file's failure, or the male and female tables built from the per-year frames |
| SalaryLoad.LoadCombinedData | code/task3_code2.py:11-28 | the loop yields the missing file's failure, or the concatenation of male then female frames for each year |
| SalaryLoad.YearFramesAt | code/task3_code1.py:25-27 | frame j is year j's file tagged with Year = years[j] |
| SalaryLoad.InterleavedFramesAt | code/task3_code2.py:17-26 | frame 2j is year j's male file and frame 2j+1 its female file, each tagged with Year and Gender |
| SalaryLoad.YearFramesTotalRows | code/task3_code1.py:33-34 | the frames of one gender hold the sum of that gender's file row counts |
| SalaryLoad.InterleavedFramesTotalRows | code/task3_code2.py:28 | the interleaved frames hold the male plus the female row counts |
| SalaryLoad.WithYearRow | code/task3_code1.py:26 | a Year-tagged row has Year = year and its other cells unchanged |
| SalaryLoad.WithYearAndGenderRow | code/task3_code2.py:18-19 | a tagged row has Year = year, Gender = the file's gender, and its other cells unchanged |
| SalaryLoad.YearTableRow | code/task3_code1.py:33 | each concatenated row comes from year j's file with Year = years[j] |
| SalaryLoad.YearTableRows | code/task3_code1.py:33-34 | the concatenated table has the summed row count and every row comes from a year's file |
| SalaryLoad.SplitDataRows | code/task3_code1.py:19-36 | a successful load had every file; the male and female tables have the summed counts, and each row comes from its gender's file for some year |
| SalaryLoad.CombinedTableRow | code/task3_code2.py:28 | each combined row comes from one of the named files, with that file's Year and Gender |
| SalaryLoad.CombinedDataRows | code/task3_code2.py:15-28 | every row of a successful combined load comes from one named file with its Year and Gender |
| SalaryLoad.FromNamedFileYear | code/task3_code2.py:18 | a row from a named file has a numeric Year among the years loaded |
| SalaryLoad.CombinedDataYears | code/task3_code2.py:11-28 | every combined row's Year is one of the requested years |
| SalaryLoad.CombinedDataRowCount | code/task3_code2.py:28 | a successful combined load had every file and has the male plus female row count |
| SalaryAnalysis.YearLabels | code/task3_code1.py:17 | one label per year |
| SalaryAnalysis.YearLabelRoundTrip | code/task3_code1.py:17 | each label is "Year " followed by the decimal digits of its year |
| SalaryAnalysis.YearLabelsDistinct | code/task3_code1.py:17 | the labels are pairwise distinct |
| SalaryAnalysis.MinOf | code/task3_code1.py:70 | `min` is an element no greater than any element |
| SalaryAnalysis.MaxOf | code/task3_code1.py:71 | `max` is an element no smaller than any element |
| SalaryAnalysis.AscendingEnds | code/task3_code1.py:16 | an ascending list has its min first and its max last |
| SalaryAnalysis.ComparisonYears | code/task3_code1.py:70-71 | the comparison years are 0 and 10 |
| SalaryAnalysis.PositionHistogram | code/task3_code1.py:78-84 | the reindexed histogram has exactly five entries |
| SalaryAnalysis.LevelCountZero | code/task3_code1.py:82-84 | a level's entry is 0 iff no row of the year has that position |
| SalaryAnalysis.LevelCountsAddUp | code/task3_code1.py:78-84 | the five level counts add up to the rows with a position in 1..5 |
| SalaryAnalysis.PositionHistogramTotal | code/task3_code1.py:78-84 | the histogram counts exactly the year's rows with a position in 1..5, so positions outside are not counted |
| SalaryAnalysis.Growth | code/task3_code1.py:150-153 | the growth is defined iff every year has a mean, with one rate per year after the first |
| SalaryAnalysis.GrowthAt | code/task3_code1.py:150-153 | growth at YEARS[i] is mean[i] / mean[i-1] - 1, undefined for a zero previous mean |
| SalaryAnalysis.YearMeansAt | code/task3_code1.py:145-146 | the mean salary of a year is NaN iff no row of that year has a salary, and otherwise their total divided by their count |
| SalaryAnalysis.SalaryGrowth | code/task3_code1.py:146-153 | the salary growth series is defined iff every year has a mean salary and it covers YEARS[1:] |
| SalaryAnalysis.SalaryGrowthAt | code/task3_code1.py:146-155 | the plotted rate at YEARS[i] is mean[YEARS[i]] / mean[YEARS[i-1]] - 1 |
| SalaryAnalysis.SalaryGrowthCompounds | code/task3_code1.py:146-151 | compounding the year-0 mean by the growth rates reaches the year-10 mean |
| SalaryAnalysis.Departments | code/task3_code2.py:65 | the groupby keys are sorted, duplicate free, and exactly the text Department values present (numeric departments: see Left out) |
| SalaryAnalysis.MainDepartments | code/task3_code2.py:65 | `nlargest(8)` picks min(8, #text departments) departments, all present |
| SalaryAnalysis.PickedOutranks | code/task3_code2.py:65 | a picked department has more rows than an unpicked one, or as many and comes first in key order |
| SalaryAnalysis.MainDepartmentsDistinct | code/task3_code2.py:65 | no department is picked twice |
| SalaryAnalysis.MainDepartmentsRanked | code/task3_code2.py:65 | every picked department outranks every unpicked one |
| SalaryAnalysis.DepartmentRows | code/task3_code2.py:66 | `dept_data` keeps exactly the rows whose text Department is picked, each as many times as it occurs in the table |
| SalaryAnalysis.DepartmentRowsOrder | code/task3_code2.py:66 | the kept rows stay in table order: those before any position come before those after it |
| SalaryAnalysis.GrowthPercent | code/task3_code2.py:143 | total growth is defined iff both means exist and the start is non-zero, and start*(1 + growth/100) = end |
| SalaryAnalysis.TotalGrowthDefined | code/task3_code2.py:140-143 | a gender's total growth is defined iff it has a salary in year 0 and in year 10 and the year-0 mean is non-zero |
| SalaryAnalysis.GrowthNeedsYearZero | code/task3_code2.py:141-142 | loading without year 0 leaves the total growth undefined: the years are literal |
| SalaryAnalysis.CalculateGrowthRates | code/task3_code2.py:139-147 | the summary has exactly the rows Male and Female, each the total growth of that gender |
| Ranking.NLargest | code/task3_code2.py:65 | `nlargest(k)` returns min(k, n) indices in rank order (larger count, then earlier key) |
| Ranking.NLargestSelects | code/task3_code2.py:65 | every selected index outranks every unselected one |
| Ranking.NLargestDistinct | code/task3_code2.py:65 | no index is selected twice |
| SalaryTable.RecordRow | code/task3_code3.py:10-15 | a record becomes a row over exactly the 11 names, field k under name k |
| SalaryTable.ReadSalaries | code/task3_code3.py:14-15 | an empty file has no header and fails; otherwise the header line is dropped and line i+1 becomes row i over the 11 names |
| SalaryTable.WithGender | code/task3_code3.py:18-19 | overwriting Gender adds it to the columns and keeps the row count |
| SalaryTable.Combined | code/task3_code3.py:20 | the combined table exists iff both files have a header line |
| SalaryTable.WithGenderRow | code/task3_code3.py:18-19 | each row has the constant Gender of its file, whatever the file said, and its record's other fields |
| SalaryTable.CombinedIsStacked | code/task3_code3.py:20 | the combined rows are the female rows followed by the male rows |
| SalaryTable.CombinedFemaleRows | code/task3_code3.py:14-20 | the count is female + male, and row i < female count is female line i+1 with Gender Female |
| SalaryTable.CombinedMaleRow | code/task3_code3.py:15-20 | row j past the female rows is male line j - nf + 1 with Gender Male |
| SalaryTable.CombinedMaleRows | code/task3_code3.py:15-20 | every row past the female rows is the corresponding male line with Gender Male |
| SalaryTable.CutFrom | code/task3_code3.py:33-35 | the bin found is the interval (edges[b], edges[b+1]] containing x, and no bin contains x when none is found |
| SalaryTable.BracketClosedForm | code/task3_code3.py:33-35 | the bracket of x is (x-1) div 2000 for 0 < x <= 12000 and none otherwise |
| SalaryTable.Widen | code/task3_code3.py:94-98 | the widened row adds exactly Total Growth, the bracket and Growth 24..32 |
| SalaryTable.WidenKeeps | code/task3_code3.py:94-98 | widening changes no other column |
| SalaryTable.WidenGrowth | code/task3_code3.py:94-98 | Growth k = age k - Starting Salary for k in 24..32 |
| SalaryTable.WidenTotal | code/task3_code3.py:23 | Total Growth = age 32 - Starting Salary = Growth 32, and the bracket is that of Starting Salary |
| SalaryTable.Prepare | code/task3_code3.py:14-98 | the script fails iff a file is empty or a numeric column holds text; otherwise it keeps the combined row count |
| SalaryTable.PreparedRow | code/task3_code3.py:23-98 | each prepared row is the widened combined row |
| SalaryTable.PreparedRows | code/task3_code3.py:14-98 | each prepared row keeps its 11 read cells and has Total Growth equal to Growth 32 |
| SalaryTable.Melt | code/task3_code3.py:101-102 | the melt has 5n rows |
| SalaryTable.MeltAt | code/task3_code3.py:101-102 | melt row v*n+i is (Gender of row i, the name of Growth column v, row i's value in that column) |
| SalaryTable.MeltOrigin | code/task3_code3.py:101-102 | every melt row is one growth column of one input row |
| SalaryTable.PreparedGrowth | code/task3_code3.py:94-98 | Growth column v of prepared row i is age column v minus Starting Salary of combined row i |
| DollarExtract.SearchFrom | code/task4_code3.py:15 | the search returns the first position from i where the symbol is followed by a digit, or none if there is no such position |
| DollarExtract.CellNumber | code/task4_code3.py:14-18 | a cell yields a number iff the symbol occurs in it followed by a digit |
| DollarExtract.CellNumberLeftmost | code/task4_code3.py:15-17 | the number is the value of the full digit run after the leftmost such occurrence |
| DollarExtract.NoDigitAfterSymbol | code/task4_code3.py:14-16 | a cell in which no occurrence of the symbol is followed by a digit yields nothing |
| DollarExtract.FirstMatchOnly | code/task4_code3.py:15 | `"$7 $8"` yields 7 alone |
| DollarExtract.AppendCellNumber | code/task4_code3.py:14-18 | one cell's step appends exactly that cell's number, if any |
| DollarExtract.ExtractNumbers | code/task4_code3.py:8-18 | the nested loops collect the cell numbers in row-major order |
| DollarExtract.ExtractedAppend | code/task4_code3.py:11-18 | the numbers of rows a + b are those of a followed by those of b |
| DollarExtract.RowNumbersAtMostCells | code/task4_code3.py:12-18 | a row yields at most one number per cell |
| DollarExtract.Extracted | code/task4_code3.py:11-18 | every extracted number is the number of some cell of some row |
| DollarExtract.Chunks | code/task4_code3.py:22 | there are ceil(n/5) chunks |
| DollarExtract.ChunkAt | code/task4_code3.py:22 | chunk i is all_numbers[5i : 5i+5] |
| DollarExtract.ChunkSizes | code/task4_code3.py:22 | every chunk has 1 to 5 numbers, and all but the last exactly 5 |
| DollarExtract.FlattenChunks | code/task4_code3.py:22 | the first m chunks joined are the first min(5m, n) numbers |
| DollarExtract.PrefixLength | code/task4_code3.py:22 | `[:max_lines]` keeps the first max_lines items, or all n when there are fewer; a negative max_lines drops that many items from the end, or all of them when there are fewer |
| DollarExtract.ExtractAndSave | code/task4_code3.py:4-27 | the rows written are the chunked numbers truncated to max_lines, each with 1 to 5 numbers, and they join to a prefix of the numbers; for max_lines >= 0 they number min(ceil(n/5), max_lines) and join to the first min(n, 5*max_lines) numbers; for max_lines < 0 they are the rows minus the last min(-max_lines, rows) |
| LastColumnCompare.ParseInt | code/task4_code1.py:18-19 | `int(cell)` succeeds iff the cell is an optional sign followed by one or more ASCII digits |
| LastColumnCompare.ParseShowInt | code/task4_code1.py:18-19 | `int(str(n)) == n` for every integer |
| LastColumnCompare.ParseSigned | code/task4_code1.py:18 | `+` keeps the digits' value and `-` negates it |
| LastColumnCompare.LastCellOnly | code/task4_code1.py:18-19 | cells before the last do not affect the compared value |
| LastColumnCompare.CompareCsvFiles | code/task4_code1.py:3-29 | the three counters are the tally of the zipped pairs |
| LastColumnCompare.ComparePair | code/task4_code1.py:16-29 | one pass of the loop body raises the counter its comparison selects, or none for a malformed pair |
| LastColumnCompare.StepCountsOne | code/task4_code1.py:16-29 | a malformed pair changes nothing; a well-formed pair increments exactly the counter of its comparison |
| LastColumnCompare.TotalCountsWellFormed | code/task4_code1.py:15-29 | the counters add up to the number of well-formed pairs |
| LastColumnCompare.WellFormedCountBound | code/task4_code1.py:15-29 | the well-formed pairs number at most the pairs, and exactly as many iff every pair is well formed |
| LastColumnCompare.Compared | code/task4_code1.py:15-29 | a_bigger + b_bigger + equal <= min(rows_a, rows_b), with equality iff every pair is well formed |
| LastColumnCompare.SwapFiles | code/task4_code1.py:21-26 | swapping the files swaps a_bigger and b_bigger and keeps equal |
| LastColumnCompare.TallyPrefix | code/task4_code1.py:15 | rows beyond those zipped do not affect the tally |
| LastColumnCompare.ExtraRowsIgnored | code/task4_code1.py:15 | extra rows of the longer file are never compared |

## Left out

- Rendering with matplotlib, seaborn and plotly (figures, colours, `savefig`, `write_html`): side effects with no contract beyond the data they draw.
- File-system discovery and file I/O (`glob.glob`, `Path.mkdir`, `os.getcwd`, `to_csv`, `writer.writerows`): each file is an already-parsed value, a directory is a map from names to tables, and the output rows are the methods' results.
- CSV tokenising and quoting by `pd.read_csv` and `csv.reader`: a file is already a sequence of rows of cells.
- Console output (`print`) and the scripts' top-level `try`/`except` reporting: an exception is the `Failed`, `Err` or `None` result it would produce.
- `task4_code2.py`, an OpenAI chat-completion client with rate-limiting sleeps and file output: network glue around a library that is not part of this model.
- Standard deviations, `.sem()`, `.describe()`, `.round(2)` and the fifth-root annual growth (`task3_code2.py:144`): floating point, whereas the model computes means and percentages exactly over reals.
- Pandas NaN propagation: a NaN or infinite result is an absent value (`None`), not a value that flows on.
- The salary-progression, department-salary, promotion and heat-map analyses of `task3_code1.py`, `task3_code2.py` and `task3_code3.py` beyond the listed computations, and the group means of `task3_code3.py:27-42`: the same group-mean operation over other columns, feeding only charts.
- Non-ASCII Unicode digits matched by `\d`, and the whitespace and underscores that Python's `int()` accepts: digits are ASCII `0`-`9` with an optional sign.
- Performance grades stored as numbers: only text cells count as grades in the pivots and shares. `task2_code2.py:30` coerces grades to text (modelled by `Loader.CoerceRow`), but a numeric grade in the task1 pivots is not counted.
- SalaryTable.ReadSalaries: a record with more than 11 fields is excluded by a precondition; pandas would move the extra leading fields into the row index, and that index is not modelled.
- SalaryTable.Widen: text in a numeric column, which makes pandas raise on the subtraction, is modelled only as `Prepare` failing.
- SalaryTable.BracketClosedForm: the `pd.cut` interval is represented by its bin index 0..5, not by an Interval object.
- SalaryAnalysis.SalaryGrowth: the pandas groupby index and `pct_change`'s padding of missing values are not modelled. A year without a salary makes the whole series undefined. pandas would drop or pad that year and then fail at, or plot NaN for, the lookup of `YEARS[1:]`.
- DollarExtract.ExtractNumbers: the debug print of each extracted number is not modelled.
- GroupStats.Numbers: text cells in a metric column are skipped, so a group mean averages the numeric cells only. On a column that holds any text pandas stores objects and `mean()` raises `TypeError`; the model does not raise. The loaded columns read by the means (task metrics, `Starting_Salary`) are numeric in the data, so the two agree there.
- SalaryAnalysis.Departments: only text cells are department keys. `groupby('Department')` and `isin` at `task3_code2.py:65-66` also group and keep numeric department values (a column read as all numbers); the model ignores them.
- SalaryAnalysis.MainDepartments: a numeric department is never picked, whereas `nlargest(8)` would pick it; two rows with department `3` give no main department, where pandas gives `[3]`.
- SalaryAnalysis.DepartmentRows: a row whose department is numeric is never kept, whereas `isin` keeps it when that department is picked.
- TaskMetrics.MirroredBars: a bar's x positions are not modelled. The source draws the female bars at the male years (`years = male_pct.index`, `task1_code2.py:74` and `86`). If a group's male and female tables list different years of the same number, the female bars land at the wrong years. If the numbers of years differ, `plt.bar` raises, and that aborts `analyze_gender_differences` (`task1_code2.py:173`) before the summary and the group difference (`task1_code2.py:178-188`). The model draws each female row at its own year and never raises.
- Loader.CoerceRow: `astype(str)` is modelled by `Loader.AsText`, which prints an integer grade as its digits (`3`). When a Performance column holds numbers and NaN, pandas stores it as float64 and prints `3.0`; the model prints `3`. Only the name of a numeric grade differs; text grades and the count of rows per grade are unaffected.
