/**
 * The aggregations of task1_code1.py, task1_code2.py, task2_code1.py and task2_code2.py over the
 * combined table: group means of the task metrics, the Experimental-minus-Control difference, the
 * closed radar trace, row-normalised Performance distributions with their stacked bars, the grade-A
 * share and the per-grade comparison.
 */
module TaskMetrics {
  import opened Wrappers
  import opened FilenameMeta
  import opened Table
  import opened GroupStats
  import opened Stats
  import opened TextOrder
  import opened Builtins
  import Loader

  const TaskMetricColumns: seq<string> := ["Low_Value_Tasks", "High_Value_Tasks", "Leadership_Tasks"]
  const PerformanceColumn: string := Loader.PerformanceColumn

  // ---------------------------------------------------------------------------------------------
  // Group means and the Experimental-minus-Control difference

  /** `exp_control_diff` at (gender, year): Experimental mean minus Control mean; NaN if either group is empty. */
  function MeanDifference(rows: seq<Row>, gender: Gender, year: nat, metric: string): Option<real> {
    var e := GroupMean(rows, Key(Some(Experimental), Some(gender), Some(year)), metric);
    var c := GroupMean(rows, Key(Some(Control), Some(gender), Some(year)), metric);
    if e.Some? && c.Some? then Some(e.value - c.value) else None
  }

  /**
   * The difference is defined exactly when both groups have a numeric row, and is then the metric
   * summed over the Experimental rows divided by their count, minus the same for the Control rows.
   */
  lemma MeanDifferenceValue(rows: seq<Row>, gender: Gender, year: nat, metric: string)
    ensures var d := MeanDifference(rows, gender, year, metric);
            var exp, ctl := Key(Some(Experimental), Some(gender), Some(year)), Key(Some(Control), Some(gender), Some(year));
            && (d.Some? <==> MatchCount(rows, exp, metric) > 0 && MatchCount(rows, ctl, metric) > 0)
            && (d.Some? ==> d.value == MatchSum(rows, exp, metric) / MatchCount(rows, exp, metric) as real
                                      - MatchSum(rows, ctl, metric) / MatchCount(rows, ctl, metric) as real)
  {
    GroupMeanValue(rows, Key(Some(Experimental), Some(gender), Some(year)), metric);
    GroupMeanValue(rows, Key(Some(Control), Some(gender), Some(year)), metric);
  }

  /**
   * If every Experimental value at (gender, year) is at least `v` and every Control value at most
   * `v`, the reported difference is not negative ("positive values indicate higher in Experimental").
   */
  lemma MeanDifferenceSign(rows: seq<Row>, gender: Gender, year: nat, metric: string, v: real, big: real)
    requires forall r :: r in rows && Matches(r, Key(Some(Experimental), Some(gender), Some(year))) && Cell(r, metric).Num?
               ==> v <= Cell(r, metric).n as real <= big
    requires forall r :: r in rows && Matches(r, Key(Some(Control), Some(gender), Some(year))) && Cell(r, metric).Num?
               ==> -big <= Cell(r, metric).n as real <= v
    ensures MeanDifference(rows, gender, year, metric).Some? ==> MeanDifference(rows, gender, year, metric).value >= 0.0
  {
    GroupMeanOfMatchingRows(rows, Key(Some(Experimental), Some(gender), Some(year)), metric, v, big);
    GroupMeanOfMatchingRows(rows, Key(Some(Control), Some(gender), Some(year)), metric, -big, v);
  }

  /**
   * One trace of `create_radar_chart`: the three metric means of (group, gender), closed by
   * repeating the first; `None` is the KeyError of `.loc` on a combination with no rows.
   */
  function RadarTrace(rows: seq<Row>, group: Group, gender: Gender): (r: Option<seq<Option<real>>>)
    ensures r.None? <==> SelectKey(rows, Key(Some(group), Some(gender), None)) == []
    ensures r.Some? ==> |r.value| == |TaskMetricColumns| + 1 && r.value[|TaskMetricColumns|] == r.value[0]
    ensures r.Some? ==> forall i :: 0 <= i < |TaskMetricColumns| ==>
              r.value[i] == GroupMean(rows, Key(Some(group), Some(gender), None), TaskMetricColumns[i])
  {
    var key := Key(Some(group), Some(gender), None);
    if SelectKey(rows, key) == [] then None
    else
      var values := seq(|TaskMetricColumns|, i requires 0 <= i < |TaskMetricColumns| => GroupMean(rows, key, TaskMetricColumns[i]));
      Some(values + [values[0]])
  }

  /** The angular labels of every radar trace: the metric names closed the same way. */
  function RadarTheta(): (t: seq<string>)
    ensures |t| == |TaskMetricColumns| + 1 && t[|TaskMetricColumns|] == t[0]
    ensures t[..|TaskMetricColumns|] == TaskMetricColumns
  {
    TaskMetricColumns + [TaskMetricColumns[0]]
  }

  // ---------------------------------------------------------------------------------------------
  // Performance grade distributions

  /** The text grades in the Performance column, in row order (NaN cells are not grades). */
  function Grades(rows: seq<Row>): seq<string> {
    Texts(rows, PerformanceColumn)
  }

  /** How many of xs lie in s. */
  function CountIn(xs: seq<string>, s: set<string>): nat {
    if xs == [] then 0 else CountIn(xs[..|xs| - 1], s) + (if xs[|xs| - 1] in s then 1 else 0)
  }

  /** `size()` per grade column: the count of each of `columns` among the grades. */
  function GradeCounts(gs: seq<string>, columns: seq<string>): (cs: seq<nat>)
    ensures |cs| == |columns|
  {
    if columns == [] then [] else GradeCounts(gs, columns[..|columns| - 1]) + [CountOf(gs, columns[|columns| - 1])]
  }

  lemma {:induction false} CountInAddOne(xs: seq<string>, s: set<string>, c: string)
    requires c !in s
    ensures CountIn(xs, s + {c}) == CountIn(xs, s) + CountOf(xs, c)
  {
    if xs != [] {
      CountInAddOne(xs[..|xs| - 1], s, c);
    }
  }

  lemma {:induction false} CountInNothing(xs: seq<string>)
    ensures CountIn(xs, {}) == 0
  {
    if xs != [] {
      CountInNothing(xs[..|xs| - 1]);
    }
  }

  lemma {:induction false} CountInAll(xs: seq<string>, s: set<string>)
    requires forall x :: x in xs ==> x in s
    ensures CountIn(xs, s) == |xs|
  {
    if xs != [] {
      CountInAll(xs[..|xs| - 1], s);
    }
  }

  /** The set of the elements of a sequence. */
  function Members(xs: seq<string>): (s: set<string>)
    ensures forall x :: x in s <==> x in xs
  {
    if xs == [] then {} else Members(xs[..|xs| - 1]) + {xs[|xs| - 1]}
  }

  lemma GradeCountsLast(gs: seq<string>, columns: seq<string>)
    requires columns != []
    ensures SumNat(GradeCounts(gs, columns)) == SumNat(GradeCounts(gs, columns[..|columns| - 1])) + CountOf(gs, columns[|columns| - 1])
  {
    var cs := GradeCounts(gs, columns);
    assert cs[..|cs| - 1] == GradeCounts(gs, columns[..|columns| - 1]);
  }

  lemma MembersLast(columns: seq<string>)
    requires columns != []
    ensures Members(columns) == Members(columns[..|columns| - 1]) + {columns[|columns| - 1]}
  {
  }

  lemma LastIsNew(columns: seq<string>)
    requires columns != []
    requires forall i, j :: 0 <= i < j < |columns| ==> columns[i] != columns[j]
    ensures columns[|columns| - 1] !in Members(columns[..|columns| - 1])
  {
    var init := columns[..|columns| - 1];
    forall i | 0 <= i < |init| ensures init[i] != columns[|columns| - 1] {
      assert init[i] == columns[i];
    }
  }

  /** Over distinct columns, the grade counts add up to the number of grades that fall in a column. */
  lemma {:induction false} GradeCountsTotal(gs: seq<string>, columns: seq<string>)
    requires forall i, j :: 0 <= i < j < |columns| ==> columns[i] != columns[j]
    ensures SumNat(GradeCounts(gs, columns)) == CountIn(gs, Members(columns))
  {
    if columns == [] {
      CountInNothing(gs);
    } else {
      var init := columns[..|columns| - 1];
      var c := columns[|columns| - 1];
      GradeCountsTotal(gs, init);
      LastIsNew(columns);
      GradeCountsLast(gs, columns);
      MembersLast(columns);
      CountInAddOne(gs, Members(init), c);
    }
  }

  /**
   * Counted over the grade columns of an enclosing selection, the counts of a sub-selection account
   * for every one of its grades.
   */
  lemma CoveredCountsTotal(rows: seq<Row>, key: Key, outer: Key)
    requires Refines(key, outer)
    ensures SumNat(GradeCounts(Grades(SelectKey(rows, key)), GradeColumns(rows, outer))) == |Grades(SelectKey(rows, key))|
  {
    var gs := Grades(SelectKey(rows, key));
    var columns := GradeColumns(rows, outer);
    SortedIsDistinct(columns);
    GradeCountsTotal(gs, columns);
    forall g | g in gs ensures g in Members(columns) {
      var r :| r in SelectKey(rows, key) && Cell(r, PerformanceColumn) == Text(g);
      assert r in SelectKey(rows, outer);
    }
    CountInAll(gs, Members(columns));
  }

  /** One row of a row-normalised grade table: the share of each grade column among the rows matching `key`. */
  function Distribution(rows: seq<Row>, key: Key, columns: seq<string>): Option<seq<real>> {
    Shares(GradeCounts(Grades(SelectKey(rows, key)), columns))
  }

  /** The grade columns pandas builds from the rows matching `key`: their distinct grades, sorted. */
  function GradeColumns(rows: seq<Row>, key: Key): seq<string> {
    SortedUnique(Grades(SelectKey(rows, key)))
  }

  /** The key that constrains nothing selects the whole table, in order. */
  lemma SelectKeyEverything(rows: seq<Row>)
    ensures SelectKey(rows, Key(None, None, None)) == rows
  {
    SelectEverything(rows, r => Matches(r, Key(None, None, None)));
  }

  /** A key that fixes everything `outer` fixes (and maybe more) selects a subset of outer's rows. */
  predicate Refines(inner: Key, outer: Key) {
    && (outer.group.Some? ==> inner.group == outer.group)
    && (outer.gender.Some? ==> inner.gender == outer.gender)
    && (outer.year.Some? ==> inner.year == outer.year)
  }

  /**
   * A row of a table normalised over grade columns taken from an enclosing selection (the pivot of
   * one Group_Type, the unstacked counts of one group and gender, the crosstab over the whole table):
   * when the row has a grade at all, its percentages are each in [0, 100] and add up to exactly 100.
   */
  lemma DistributionSumsTo100(rows: seq<Row>, key: Key, outer: Key)
    requires Refines(key, outer)
    requires Grades(SelectKey(rows, key)) != []
    ensures Distribution(rows, key, GradeColumns(rows, outer)).Some?
    ensures Sum(Distribution(rows, key, GradeColumns(rows, outer)).value) == 100.0
    ensures forall i :: 0 <= i < |GradeColumns(rows, outer)| ==>
              0.0 <= Distribution(rows, key, GradeColumns(rows, outer)).value[i] <= 100.0
  {
    CoveredCountsTotal(rows, key, outer);
    var counts := GradeCounts(Grades(SelectKey(rows, key)), GradeColumns(rows, outer));
    SharesSumTo100(counts);
    SharesBounded(counts);
  }

  /**
   * A row normalised over the grade columns of an enclosing selection is defined exactly when the
   * selection has a grade, and then holds one entry per column: the percentage of the selection's
   * grades equal to that column.
   */
  predicate IsGradeDistribution(d: Option<seq<real>>, gs: seq<string>, columns: seq<string>) {
    && (d.Some? <==> gs != [])
    && (d.Some? ==>
          && |d.value| == |columns|
          && forall i :: 0 <= i < |columns| ==> d.value[i] == PercentOf(CountOf(gs, columns[i]), |gs|))
  }

  lemma CoveredDistribution(rows: seq<Row>, key: Key, outer: Key)
    requires Refines(key, outer)
    ensures IsGradeDistribution(Distribution(rows, key, GradeColumns(rows, outer)), Grades(SelectKey(rows, key)), GradeColumns(rows, outer))
  {
    var gs := Grades(SelectKey(rows, key));
    var columns := GradeColumns(rows, outer);
    var counts := GradeCounts(gs, columns);
    CoveredCountsTotal(rows, key, outer);
    if gs != [] {
      forall i | 0 <= i < |columns| ensures Shares(counts).value[i] == PercentOf(CountOf(gs, columns[i]), |gs|) {
        GradeCountsAt(gs, columns, i);
        SharesAt(counts, i);
      }
    }
  }

  /** task1_code1.py:97-105: the percentage row of (gender, year) in the pivot of one Group_Type. */
  function PerformancePivotRow(rows: seq<Row>, group: Group, gender: Gender, year: nat): (d: Option<seq<real>>)
    ensures IsGradeDistribution(d, Grades(SelectKey(rows, Key(Some(group), Some(gender), Some(year)))),
                                GradeColumns(rows, Key(Some(group), None, None)))
  {
    CoveredDistribution(rows, Key(Some(group), Some(gender), Some(year)), Key(Some(group), None, None));
    Distribution(rows, Key(Some(group), Some(gender), Some(year)), GradeColumns(rows, Key(Some(group), None, None)))
  }

  /** task1_code2.py:66-71: the percentage row of one year in the male (or female) table of one group. */
  function MirrorRow(rows: seq<Row>, group: Group, gender: Gender, year: nat): (d: Option<seq<real>>)
    ensures IsGradeDistribution(d, Grades(SelectKey(rows, Key(Some(group), Some(gender), Some(year)))),
                                GradeColumns(rows, Key(Some(group), Some(gender), None)))
  {
    CoveredDistribution(rows, Key(Some(group), Some(gender), Some(year)), Key(Some(group), Some(gender), None));
    Distribution(rows, Key(Some(group), Some(gender), Some(year)), GradeColumns(rows, Key(Some(group), Some(gender), None)))
  }

  /** task2_code2.py:98-102: the (gender, group) row of `crosstab(..., normalize='index') * 100`. */
  function CrosstabRow(rows: seq<Row>, gender: Gender, group: Group): (d: Option<seq<real>>)
    ensures IsGradeDistribution(d, Grades(SelectKey(rows, Key(Some(group), Some(gender), None))),
                                GradeColumns(rows, Key(None, None, None)))
  {
    CoveredDistribution(rows, Key(Some(group), Some(gender), None), Key(None, None, None));
    Distribution(rows, Key(Some(group), Some(gender), None), GradeColumns(rows, Key(None, None, None)))
  }

  lemma PerformancePivotRowSumsTo100(rows: seq<Row>, group: Group, gender: Gender, year: nat)
    requires Grades(SelectKey(rows, Key(Some(group), Some(gender), Some(year)))) != []
    ensures PerformancePivotRow(rows, group, gender, year).Some?
    ensures Sum(PerformancePivotRow(rows, group, gender, year).value) == 100.0
  {
    DistributionSumsTo100(rows, Key(Some(group), Some(gender), Some(year)), Key(Some(group), None, None));
  }

  lemma CrosstabRowSumsTo100(rows: seq<Row>, gender: Gender, group: Group)
    requires Grades(SelectKey(rows, Key(Some(group), Some(gender), None))) != []
    ensures CrosstabRow(rows, gender, group).Some?
    ensures Sum(CrosstabRow(rows, gender, group).value) == 100.0
  {
    DistributionSumsTo100(rows, Key(Some(group), Some(gender), None), Key(None, None, None));
  }

  // ---------------------------------------------------------------------------------------------
  // Stacked and mirrored bars (task1_code2.py:80-87)

  datatype Bar = Bar(bottom: real, height: real)

  /**
   * Male bars: grade j is drawn with height `pct[grade]` on top of `pct.iloc[:, :j].sum(axis=1)`, so
   * the stack starts at 0 and each bar starts where the previous one ends.
   */
  function StackedBars(shares: seq<real>): (bars: seq<Bar>)
    ensures |bars| == |shares|
    ensures forall j :: 0 <= j < |shares| ==> bars[j].height == shares[j]
    ensures |shares| > 0 ==> bars[0].bottom == 0.0
    ensures forall j :: 0 < j < |shares| ==> bars[j - 1].bottom + bars[j - 1].height == bars[j].bottom
  {
    assert shares[..0] == [];
    assert forall j :: 0 < j < |shares| ==> Sum(shares[..j - 1]) + shares[j - 1] == Sum(shares[..j]) by {
      forall j | 0 < j < |shares| ensures Sum(shares[..j - 1]) + shares[j - 1] == Sum(shares[..j]) {
        SumPrefix(shares, j - 1);
      }
    }
    seq(|shares|, j requires 0 <= j < |shares| => Bar(Sum(shares[..j]), shares[j]))
  }

  /**
   * Female bars: the male formula with both height and bottom negated, zipped with the colours of
   * the male grade columns, so only the first `colors` female grades are drawn (lines 76 and 84).
   */
  function MirroredBars(shares: seq<real>, colors: nat): (bars: seq<Bar>)
    ensures |bars| == Min(|shares|, colors)
    ensures forall j :: 0 <= j < |bars| ==>
              bars[j] == Bar(-StackedBars(shares)[j].bottom, -StackedBars(shares)[j].height)
  {
    seq(Min(|shares|, colors), j requires 0 <= j < Min(|shares|, colors) => Bar(-Sum(shares[..j]), -shares[j]))
  }

  /** `len(male_pct.columns)`: one colour per grade column of the group's male table. */
  function MirrorColors(rows: seq<Row>, group: Group): nat {
    |GradeColumns(rows, Key(Some(group), Some(Male), None))|
  }

  /** The female bars of one year: every female grade when the women have no more grades than the men. */
  lemma FemaleBarsComplete(rows: seq<Row>, group: Group, year: nat)
    requires MirrorRow(rows, group, Female, year).Some?
    requires |GradeColumns(rows, Key(Some(group), Some(Female), None))| <= MirrorColors(rows, group)
    ensures var shares := MirrorRow(rows, group, Female, year).value;
            |MirroredBars(shares, MirrorColors(rows, group))| == |shares|
  {
  }

  /** The male stack starts at 0 and its last bar ends at the row total (100 for a percentage row). */
  lemma StackedBarsSpan(shares: seq<real>)
    requires |shares| > 0
    ensures StackedBars(shares)[0].bottom == 0.0
    ensures StackedBars(shares)[|shares| - 1].bottom + StackedBars(shares)[|shares| - 1].height == Sum(shares)
  {
    assert shares[..0] == [];
    assert StackedBars(shares)[|shares| - 1] == Bar(Sum(shares[..|shares| - 1]), shares[|shares| - 1]);
  }

  /** For a year with graded rows, the male bars of the mirror chart fill exactly 0..100. */
  lemma MirrorStackReaches100(rows: seq<Row>, group: Group, gender: Gender, year: nat)
    requires Grades(SelectKey(rows, Key(Some(group), Some(gender), Some(year)))) != []
    ensures MirrorRow(rows, group, gender, year).Some?
    ensures var shares := MirrorRow(rows, group, gender, year).value;
            |shares| > 0 &&
            StackedBars(shares)[|shares| - 1].bottom + StackedBars(shares)[|shares| - 1].height == 100.0
  {
    var key := Key(Some(group), Some(gender), Some(year));
    DistributionSumsTo100(rows, key, Key(Some(group), Some(gender), None));
    var shares := MirrorRow(rows, group, gender, year).value;
    StackedBarsSpan(shares);
  }

  // ---------------------------------------------------------------------------------------------
  // Grade shares of task2_code2.py

  /** `(x['Performance'] == grade).sum()`: how many rows carry exactly that grade. */
  function GradeCount(rows: seq<Row>, grade: string): (c: nat)
    ensures c <= |rows|
  {
    GradeCountRows(rows, grade);
    CountOf(Grades(rows), grade)
  }

  /** The count of a grade is the number of rows `df[df['Performance'] == grade]` keeps. */
  lemma GradeCountRows(rows: seq<Row>, grade: string)
    ensures CountOf(Grades(rows), grade) == |Select(rows, r => Cell(r, PerformanceColumn) == Text(grade))|
  {
    TextCount(rows, PerformanceColumn, grade);
  }

  /** `(x['Performance'] == grade).mean() * 100`: NaN for no rows. */
  function GradeShare(rows: seq<Row>, grade: string): (r: Option<real>)
    ensures r.None? <==> rows == []
  {
    if rows == [] then None else Some(PercentOf(GradeCount(rows, grade), |rows|))
  }

  /** The share of a grade is a percentage in [0, 100]. */
  lemma GradeShareBounds(rows: seq<Row>, grade: string)
    ensures rows != [] ==> 0.0 <= GradeShare(rows, grade).value <= 100.0
  {
    if rows != [] {
      PercentOfBounds(GradeCount(rows, grade), |rows|);
    }
  }

  /** The share of a grade counts that grade's rows per hundred rows. */
  lemma GradeSharePerHundred(rows: seq<Row>, grade: string)
    ensures rows != [] ==> GradeShare(rows, grade).value * |rows| as real == 100.0 * GradeCount(rows, grade) as real
  {
    if rows != [] {
      var c, n := GradeCount(rows, grade), |rows|;
      assert GradeShare(rows, grade).value == PercentOf(c, n);
      PercentOfWhole(c, n);
    }
  }

  /**
   * The grade-A trend point of (gender, group) at one year (task2_code2.py:83-85): NaN when that
   * subset is empty, otherwise the share of its rows graded "A" (GradeSharePerHundred), in [0, 100].
   */
  function GradeATrend(rows: seq<Row>, gender: Gender, group: Group, year: nat): (p: Option<real>)
    ensures var subset := SelectKey(rows, Key(Some(group), Some(gender), Some(year)));
            && (p.Some? <==> subset != [])
            && (p.Some? ==> 0.0 <= p.value <= 100.0)
            && (p.Some? ==> p == GradeShare(subset, "A"))
  {
    var subset := SelectKey(rows, Key(Some(group), Some(gender), Some(year)));
    GradeShareBounds(subset, "A");
    GradeShare(subset, "A")
  }

  /** The (gender, group) subsets of the grade comparison, in loop order. */
  const ComparisonGroups: seq<(Gender, Group)> :=
    [(Male, Experimental), (Male, Control), (Female, Experimental), (Female, Control)]

  function ComparisonLabel(gender: Gender, group: Group): string {
    GenderName(gender) + " (" + GroupName(group) + ")"
  }

  function ComparisonSubset(rows: seq<Row>, k: nat): seq<Row>
    requires k < |ComparisonGroups|
  {
    SelectKey(rows, Key(Some(ComparisonGroups[k].1), Some(ComparisonGroups[k].0), None))
  }

  /** The labels of the first k comparison subsets, e.g. "Male (Experimental)". */
  function LabelsUpTo(k: nat): (ls: seq<string>)
    requires k <= |ComparisonGroups|
    ensures |ls| == k
  {
    if k == 0 then [] else LabelsUpTo(k - 1) + [ComparisonLabel(ComparisonGroups[k - 1].0, ComparisonGroups[k - 1].1)]
  }

  /** The share of one grade in each of the first k comparison subsets. */
  function SharesUpTo(rows: seq<Row>, grade: string, k: nat): (ps: seq<Option<real>>)
    requires k <= |ComparisonGroups|
    ensures |ps| == k
  {
    if k == 0 then [] else SharesUpTo(rows, grade, k - 1) + [GradeShare(ComparisonSubset(rows, k - 1), grade)]
  }

  /** The x-axis labels of each grade's bars. */
  function ComparisonLabels(): seq<string> {
    LabelsUpTo(|ComparisonGroups|)
  }

  /** The share of one grade in each comparison subset. */
  function GradeRow(rows: seq<Row>, grade: string): seq<Option<real>> {
    SharesUpTo(rows, grade, |ComparisonGroups|)
  }

  /** Bar k of a grade is that grade's share in comparison subset k, labelled with its gender and group. */
  lemma {:induction false} GradeRowAt(rows: seq<Row>, grade: string, k: nat, n: nat)
    requires k < n <= |ComparisonGroups|
    ensures SharesUpTo(rows, grade, n)[k] == GradeShare(ComparisonSubset(rows, k), grade)
    ensures LabelsUpTo(n)[k] == ComparisonLabel(ComparisonGroups[k].0, ComparisonGroups[k].1)
  {
    if k < n - 1 {
      GradeRowAt(rows, grade, k, n - 1);
    }
  }

  datatype GradeBars = GradeBars(grade: string, labels: seq<string>, percentages: seq<Option<real>>)

  /** task2_code2.py:118-127: for each grade of `sorted(unique)`, its share in each (gender, group). */
  method GradeComparison(rows: seq<Row>) returns (bars: seq<GradeBars>)
    ensures |bars| == |GradeColumns(rows, Key(None, None, None))|
    ensures forall i :: 0 <= i < |bars| ==>
              var grade := GradeColumns(rows, Key(None, None, None))[i];
              bars[i] == GradeBars(grade, ComparisonLabels(), GradeRow(rows, grade))
  {
    var uniqueGrades := SortedUnique(Grades(rows));
    SelectKeyEverything(rows);
    bars := [];
    for i := 0 to |uniqueGrades|
      invariant |bars| == i
      invariant forall i' :: 0 <= i' < i ==>
                  bars[i'] == GradeBars(uniqueGrades[i'], ComparisonLabels(), GradeRow(rows, uniqueGrades[i']))
    {
      var labels, gradeData := GradeBarsOf(rows, uniqueGrades[i]);
      bars := bars + [GradeBars(uniqueGrades[i], labels, gradeData)];
    }
  }

  /** The inner loop of the grade comparison: one bar per (gender, group) for a single grade. */
  method GradeBarsOf(rows: seq<Row>, grade: string) returns (labels: seq<string>, gradeData: seq<Option<real>>)
    ensures labels == ComparisonLabels()
    ensures gradeData == GradeRow(rows, grade)
  {
    gradeData := [];
    labels := [];
    for k := 0 to |ComparisonGroups|
      invariant gradeData == SharesUpTo(rows, grade, k)
      invariant labels == LabelsUpTo(k)
    {
      var (gender, group) := ComparisonGroups[k];
      var subset := SelectKey(rows, Key(Some(group), Some(gender), None));
      gradeData := gradeData + [GradeShare(subset, grade)];
      labels := labels + [ComparisonLabel(gender, group)];
    }
  }

  /** The shares of every grade column within one subset. */
  function GradeShareRow(subset: seq<Row>, columns: seq<string>): (ps: seq<real>)
    requires subset != []
    ensures |ps| == |columns|
  {
    seq(|columns|, j requires 0 <= j < |columns| => GradeShare(subset, columns[j]).value)
  }

  /**
   * When the grade columns cover every grade of a subset, its grade shares are exactly the
   * row-normalised counts, so they add up to 100.
   */
  lemma CoveredGradeShares(subset: seq<Row>, columns: seq<string>)
    requires subset != []
    requires SumNat(GradeCounts(Grades(subset), columns)) == |subset|
    ensures GradeShareRow(subset, columns) == Shares(GradeCounts(Grades(subset), columns)).value
    ensures Sum(GradeShareRow(subset, columns)) == 100.0
  {
    var counts := GradeCounts(Grades(subset), columns);
    var shares := GradeShareRow(subset, columns);
    SharesSumTo100(counts);
    forall j | 0 <= j < |columns| ensures shares[j] == Shares(counts).value[j] {
      ShareIsGradeShare(subset, columns, j);
    }
  }

  /**
   * Once Performance is text on every row (as the coercing loader guarantees), the shares of all
   * grades of `sorted(unique)` within a non-empty (gender, group) subset add up to exactly 100.
   */
  lemma GradeSharesSumTo100(rows: seq<Row>, gender: Gender, group: Group)
    requires forall r :: r in rows ==> Cell(r, PerformanceColumn).Text?
    requires SelectKey(rows, Key(Some(group), Some(gender), None)) != []
    ensures Sum(GradeShareRow(SelectKey(rows, Key(Some(group), Some(gender), None)), GradeColumns(rows, Key(None, None, None)))) == 100.0
  {
    var key := Key(Some(group), Some(gender), None);
    var subset := SelectKey(rows, key);
    assert |Grades(subset)| == |subset|;
    CoveredCountsTotal(rows, key, Key(None, None, None));
    CoveredGradeShares(subset, GradeColumns(rows, Key(None, None, None)));
  }

  lemma {:induction false} GradeCountsAt(gs: seq<string>, columns: seq<string>, j: nat)
    requires j < |columns|
    ensures GradeCounts(gs, columns)[j] == CountOf(gs, columns[j])
  {
    if j < |columns| - 1 {
      GradeCountsAt(gs, columns[..|columns| - 1], j);
    }
  }

  /**
   * When the grade columns cover every grade of a subset, the share `(x == grade).mean() * 100` of
   * task2_code2.py is the same number as that grade's entry in the row-normalised count table.
   */
  lemma ShareIsGradeShare(subset: seq<Row>, columns: seq<string>, j: nat)
    requires subset != [] && j < |columns|
    requires SumNat(GradeCounts(Grades(subset), columns)) == |subset|
    ensures GradeShare(subset, columns[j]).value == Shares(GradeCounts(Grades(subset), columns)).value[j]
  {
    var counts := GradeCounts(Grades(subset), columns);
    GradeCountsAt(Grades(subset), columns, j);
    SharesAt(counts, j);
  }
}
