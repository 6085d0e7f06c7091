/**
 * The aggregations of task3_code1.py and task3_code2.py over the loaded salary tables: the year
 * labels, the position histogram of the first and last year, the year-on-year salary growth, the
 * eight largest departments, and the total growth per gender.
 */
module SalaryAnalysis {
  import opened Wrappers
  import opened Decimal
  import opened FilenameMeta
  import opened Table
  import opened GroupStats
  import opened Stats
  import opened TextOrder
  import opened Ranking
  import opened Builtins
  import SalaryLoad

  /** `YEARS`. */
  const Years: seq<nat> := [0, 2, 4, 6, 8, 10]

  const SalaryColumn: string := "Starting_Salary"
  const PositionColumn: string := "Position"
  const DepartmentColumn: string := "Department"

  // ---------------------------------------------------------------------------------------------
  // Years and their labels

  const YearLabelPrefix: string := "Year "

  /** `f'Year {year}'`. */
  function YearLabel(year: nat): string {
    YearLabelPrefix + Show(year)
  }

  /** `YEAR_LABELS`: one label per year of YEARS, in the same order. */
  function YearLabels(): (ls: seq<string>)
    ensures |ls| == |Years|
  {
    seq(|Years|, i requires 0 <= i < |Years| => YearLabel(Years[i]))
  }

  /** A label is "Year " followed by the decimal digits of its year, which read back as that year. */
  lemma YearLabelRoundTrip(year: nat)
    ensures |YearLabel(year)| > |YearLabelPrefix| && YearLabel(year)[..|YearLabelPrefix|] == YearLabelPrefix
    ensures AllDigits(YearLabel(year)[|YearLabelPrefix|..]) && Decimal.Value(YearLabel(year)[|YearLabelPrefix|..]) == year
  {
    assert YearLabel(year)[|YearLabelPrefix|..] == Show(year);
    ValueShow(year);
  }

  /** Different years get different labels, so the tick labels tell the years apart. */
  lemma YearLabelsDistinct()
    ensures forall i, j :: 0 <= i < j < |Years| ==> YearLabels()[i] != YearLabels()[j]
  {
    forall i, j | 0 <= i < j < |Years| ensures YearLabels()[i] != YearLabels()[j] {
      YearLabelRoundTrip(Years[i]);
      YearLabelRoundTrip(Years[j]);
    }
  }

  function MinOf(xs: seq<nat>): (m: nat)
    requires xs != []
    ensures m in xs && forall x :: x in xs ==> m <= x
  {
    if |xs| == 1 then xs[0]
    else
      var rest := MinOf(xs[1..]);
      assert xs == [xs[0]] + xs[1..];
      if xs[0] <= rest then xs[0] else rest
  }

  function MaxOf(xs: seq<nat>): (m: nat)
    requires xs != []
    ensures m in xs && forall x :: x in xs ==> x <= m
  {
    if |xs| == 1 then xs[0]
    else
      var rest := MaxOf(xs[1..]);
      assert xs == [xs[0]] + xs[1..];
      if xs[0] >= rest then xs[0] else rest
  }

  /** Each element is smaller than the next. */
  predicate Ascending(xs: seq<nat>) {
    forall i :: 0 <= i < |xs| - 1 ==> xs[i] < xs[i + 1]
  }

  /** Of an ascending sequence, `min` is the first element and `max` the last. */
  lemma {:induction false} AscendingEnds(xs: seq<nat>)
    requires xs != [] && Ascending(xs)
    ensures MinOf(xs) == xs[0] && MaxOf(xs) == xs[|xs| - 1]
  {
    if |xs| > 1 {
      assert Ascending(xs[1..]) by {
        forall i | 0 <= i < |xs[1..]| - 1 ensures xs[1..][i] < xs[1..][i + 1] {
          assert xs[1..][i] == xs[i + 1] && xs[1..][i + 1] == xs[i + 2];
        }
      }
      AscendingEnds(xs[1..]);
      assert xs[0] < xs[1] == xs[1..][0];
    }
  }

  /** `first_year = min(YEARS)` and `last_year = max(YEARS)` are years 0 and 10. */
  lemma ComparisonYears()
    ensures MinOf(Years) == 0 && MaxOf(Years) == 10
  {
    AscendingEnds(Years);
  }

  // ---------------------------------------------------------------------------------------------
  // Position histogram (task3_code1.py:78-84)

  /** `range(1, 6)`: the position levels every histogram shows. */
  const Levels: seq<int> := [1, 2, 3, 4, 5]

  /** How many rows hold exactly `level` in the Position column. */
  function LevelCount(rows: seq<Row>, level: int): nat {
    if rows == [] then 0
    else LevelCount(rows[..|rows| - 1], level) + (if Cell(rows[|rows| - 1], PositionColumn) == Num(level) then 1 else 0)
  }

  /** The Position of a row is one of the five levels. */
  predicate HasLevel(r: Row) {
    Cell(r, PositionColumn).Num? && 1 <= Cell(r, PositionColumn).n <= 5
  }

  /** How many rows have a position among the five levels. */
  function LevelledCount(rows: seq<Row>): nat {
    if rows == [] then 0 else LevelledCount(rows[..|rows| - 1]) + (if HasLevel(rows[|rows| - 1]) then 1 else 0)
  }

  /** `value_counts().sort_index().reindex(range(1, 6)).fillna(0)` over the rows of one year. */
  function PositionHistogram(rows: seq<Row>, year: nat): (h: seq<nat>)
    ensures |h| == |Levels|
  {
    var inYear := SelectKey(rows, Key(None, None, Some(year)));
    seq(|Levels|, i requires 0 <= i < |Levels| => LevelCount(inYear, Levels[i]))
  }

  /** A level that no row holds shows as 0, and a level shows as 0 only when no row holds it. */
  lemma {:induction false} LevelCountZero(rows: seq<Row>, level: int)
    ensures LevelCount(rows, level) == 0 <==> forall r :: r in rows ==> Cell(r, PositionColumn) != Num(level)
  {
    if rows != [] {
      LevelCountZero(rows[..|rows| - 1], level);
      assert rows == rows[..|rows| - 1] + [rows[|rows| - 1]];
    }
  }

  lemma {:induction false} LevelCountsAddUp(rows: seq<Row>)
    ensures LevelCount(rows, 1) + LevelCount(rows, 2) + LevelCount(rows, 3) + LevelCount(rows, 4) + LevelCount(rows, 5)
            == LevelledCount(rows)
  {
    if rows != [] {
      LevelCountsAddUp(rows[..|rows| - 1]);
    }
  }

  lemma {:induction false} LevelledCountAtMostLength(rows: seq<Row>)
    ensures LevelledCount(rows) <= |rows|
  {
    if rows != [] {
      LevelledCountAtMostLength(rows[..|rows| - 1]);
    }
  }

  lemma SumNatOfFive(h: seq<nat>)
    requires |h| == 5
    ensures SumNat(h) == h[0] + h[1] + h[2] + h[3] + h[4]
  {
    assert h[..5] == h;
    assert h[..4][..3] == h[..3];
    assert h[..3][..2] == h[..2];
    assert h[..2][..1] == h[..1];
    assert h[..1][..0] == [];
    assert SumNat(h[..1]) == h[0];
    assert SumNat(h[..2]) == h[0] + h[1];
    assert SumNat(h[..3]) == h[0] + h[1] + h[2];
    assert SumNat(h[..4]) == h[0] + h[1] + h[2] + h[3];
  }

  /**
   * The histogram counts every row of the year whose position is one of the five levels, and only
   * those: positions outside 1..5 (and NaN) are dropped by the reindex.
   */
  lemma PositionHistogramTotal(rows: seq<Row>, year: nat)
    ensures SumNat(PositionHistogram(rows, year)) == LevelledCount(SelectKey(rows, Key(None, None, Some(year))))
    ensures SumNat(PositionHistogram(rows, year)) <= |SelectKey(rows, Key(None, None, Some(year)))|
  {
    var inYear := SelectKey(rows, Key(None, None, Some(year)));
    SumNatOfFive(PositionHistogram(rows, year));
    LevelCountsAddUp(inYear);
    LevelledCountAtMostLength(inYear);
  }

  // ---------------------------------------------------------------------------------------------
  // Salary growth rate (task3_code1.py:146-155)

  /** `groupby('Year')['Starting_Salary'].mean()` at each year of YEARS. */
  function YearMeans(rows: seq<Row>): (ms: seq<Option<real>>)
    ensures |ms| == |Years|
  {
    seq(|Years|, i requires 0 <= i < |Years| => GroupMean(rows, Key(None, None, Some(Years[i])), SalaryColumn))
  }

  /** The mean of year i is NaN when no row of that year has a salary, else their total over their count. */
  lemma YearMeansAt(rows: seq<Row>, i: nat)
    requires i < |Years|
    ensures var key := Key(None, None, Some(Years[i]));
            && (YearMeans(rows)[i].Some? <==> MatchCount(rows, key, SalaryColumn) > 0)
            && (YearMeans(rows)[i].Some? ==>
                  YearMeans(rows)[i].value == MatchSum(rows, key, SalaryColumn) / MatchCount(rows, key, SalaryColumn) as real)
  {
    GroupMeanValue(rows, Key(None, None, Some(Years[i])), SalaryColumn);
  }

  predicate AllDefined(ms: seq<Option<real>>) {
    forall i :: 0 <= i < |ms| ==> ms[i].Some?
  }

  function Values(ms: seq<Option<real>>): (vs: seq<real>)
    requires AllDefined(ms)
    ensures |vs| == |ms|
  {
    seq(|ms|, i requires 0 <= i < |ms| => ms[i].value)
  }

  /**
   * `pct_change()` of a series of yearly means, read at every year after the first; `None` when
   * some year has no mean (its lookup fails).
   */
  function Growth(ms: seq<Option<real>>): (g: Option<seq<Option<real>>>)
    requires ms != []
    ensures g.None? <==> !AllDefined(ms)
    ensures g.Some? ==> |g.value| == |ms| - 1
  {
    if AllDefined(ms) then Some(PctChange(Values(ms))[1..]) else None
  }

  /** The growth into year i is the mean of year i over the mean of year i-1, minus 1; undefined (inf) after a zero mean. */
  lemma GrowthAt(ms: seq<Option<real>>, i: nat)
    requires AllDefined(ms) && 1 <= i < |ms|
    ensures Growth(ms).value[i - 1] == if ms[i - 1].value == 0.0 then None else Some(ms[i].value / ms[i - 1].value - 1.0)
  {
    var vs := Values(ms);
    assert vs[i - 1] == ms[i - 1].value && vs[i] == ms[i].value;
    assert Growth(ms).value[i - 1] == PctChange(vs)[i];
  }

  /** `salary.pct_change()[YEARS[1:]]` over the salary means of YEARS. */
  function SalaryGrowth(rows: seq<Row>): (g: Option<seq<Option<real>>>)
    ensures g.None? <==> !AllDefined(YearMeans(rows))
    ensures g.Some? ==> |g.value| == |Years| - 1
  {
    Growth(YearMeans(rows))
  }

  /** The growth plotted at YEARS[i] compares the salary means of YEARS[i] and YEARS[i-1]. */
  lemma SalaryGrowthAt(rows: seq<Row>, i: nat)
    requires SalaryGrowth(rows).Some? && 1 <= i < |Years|
    ensures var ms := YearMeans(rows);
            SalaryGrowth(rows).value[i - 1] ==
              if ms[i - 1].value == 0.0 then None else Some(ms[i].value / ms[i - 1].value - 1.0)
  {
    GrowthAt(YearMeans(rows), i);
  }

  /** Compounding the Year 0 mean by every growth rate gives back the Year 10 mean. */
  lemma SalaryGrowthCompounds(rows: seq<Row>)
    requires AllDefined(YearMeans(rows))
    requires forall i :: 0 <= i < |Years| - 1 ==> YearMeans(rows)[i].value != 0.0
    ensures Compound(YearMeans(rows)[0].value, Rates(PctChange(Values(YearMeans(rows))))) == YearMeans(rows)[|Years| - 1].value
  {
    PctChangeCompounds(Values(YearMeans(rows)));
  }

  // ---------------------------------------------------------------------------------------------
  // Main departments (task3_code2.py:65-66)

  /** `groupby('Department')`: the department names, in ascending order, each once. */
  function Departments(rows: seq<Row>): (ds: seq<string>)
    ensures StrictlySorted(ds)
    ensures forall d :: d in ds <==> exists r :: r in rows && Cell(r, DepartmentColumn) == Text(d)
  {
    SortedUnique(Texts(rows, DepartmentColumn))
  }

  /** `size()` of one department's group: how many rows name it. */
  function DepartmentSize(rows: seq<Row>, d: string): nat {
    CountOf(Texts(rows, DepartmentColumn), d)
  }

  function DepartmentSizes(rows: seq<Row>): (cs: seq<nat>)
    ensures |cs| == |Departments(rows)|
  {
    var ds := Departments(rows);
    seq(|ds|, i requires 0 <= i < |ds| => DepartmentSize(rows, ds[i]))
  }

  /** `groupby('Department').size().nlargest(8).index`. */
  function MainDepartments(rows: seq<Row>): (m: seq<string>)
    ensures |m| == Min(8, |Departments(rows)|)
    ensures forall d :: d in m ==> d in Departments(rows)
  {
    var ds := Departments(rows);
    var picked := NLargest(DepartmentSizes(rows), 8);
    seq(|picked|, a requires 0 <= a < |picked| => ds[picked[a]])
  }

  /** A picked department outranks a department left out: more rows, or as many and an earlier name. */
  lemma PickedOutranks(rows: seq<Row>, d: string, e: string)
    requires d in MainDepartments(rows) && e in Departments(rows) && e !in MainDepartments(rows)
    ensures DepartmentSize(rows, d) > DepartmentSize(rows, e) || (DepartmentSize(rows, d) == DepartmentSize(rows, e) && Less(d, e))
  {
    var ds := Departments(rows);
    var cs := DepartmentSizes(rows);
    var picked := NLargest(cs, 8);
    var m := MainDepartments(rows);
    var a :| 0 <= a < |m| && m[a] == d;
    var j :| 0 <= j < |ds| && ds[j] == e;
    assert forall b :: 0 <= b < |picked| ==> m[b] == ds[picked[b]];
    assert j !in picked;
    NLargestSelects(cs, 8);
    assert RanksBefore(cs, picked[a], j);
  }

  /** No department is picked twice. */
  lemma MainDepartmentsDistinct(rows: seq<Row>)
    ensures forall a, b :: 0 <= a < b < |MainDepartments(rows)| ==> MainDepartments(rows)[a] != MainDepartments(rows)[b]
  {
    var ds := Departments(rows);
    var picked := NLargest(DepartmentSizes(rows), 8);
    var m := MainDepartments(rows);
    NLargestDistinct(DepartmentSizes(rows), 8);
    SortedIsDistinct(ds);
    forall a, b | 0 <= a < b < |m| ensures m[a] != m[b] {
      assert m[a] == ds[picked[a]] && m[b] == ds[picked[b]];
    }
  }

  /**
   * A picked department has at least as many rows as any department left out; on a tie the
   * picked one comes first in name order.
   */
  lemma MainDepartmentsRanked(rows: seq<Row>)
    ensures forall d, e :: d in MainDepartments(rows) && e in Departments(rows) && e !in MainDepartments(rows) ==>
              DepartmentSize(rows, d) > DepartmentSize(rows, e) ||
              (DepartmentSize(rows, d) == DepartmentSize(rows, e) && Less(d, e))
  {
    forall d, e | d in MainDepartments(rows) && e in Departments(rows) && e !in MainDepartments(rows) {
      PickedOutranks(rows, d, e);
    }
  }

  /** `data[data['Department'].isin(main_departments)]`: exactly the rows of a main department, in order. */
  function DepartmentRows(rows: seq<Row>): (s: seq<Row>)
    ensures |s| <= |rows|
    ensures forall r :: r in s <==> r in rows && exists d :: d in MainDepartments(rows) && Cell(r, DepartmentColumn) == Text(d)
    ensures forall r :: multiset(s)[r] ==
              if exists d :: d in MainDepartments(rows) && Cell(r, DepartmentColumn) == Text(d) then multiset(rows)[r] else 0
  {
    var m := MainDepartments(rows);
    Select(rows, r => Cell(r, DepartmentColumn).Text? && Cell(r, DepartmentColumn).s in m)
  }

  /** The filter keeps the table's order: the kept rows before position k precede those after it. */
  lemma DepartmentRowsOrder(rows: seq<Row>, k: nat)
    requires k <= |rows|
    ensures var m := MainDepartments(rows);
            var p := r => Cell(r, DepartmentColumn).Text? && Cell(r, DepartmentColumn).s in m;
            DepartmentRows(rows) == Select(rows[..k], p) + Select(rows[k..], p)
  {
    var m := MainDepartments(rows);
    assert rows == rows[..k] + rows[k..];
    SelectAppend(rows[..k], rows[k..], r => Cell(r, DepartmentColumn).Text? && Cell(r, DepartmentColumn).s in m);
  }

  // ---------------------------------------------------------------------------------------------
  // Total growth (task3_code2.py:139-147)

  /** Mean Starting_Salary of one gender in one year. */
  function SalaryMean(rows: seq<Row>, gender: Gender, year: nat): Option<real> {
    GroupMean(rows, Key(None, Some(gender), Some(year)), SalaryColumn)
  }

  /**
   * `(end_salary / start_salary - 1) * 100`; `None` where pandas yields NaN or inf: a missing mean
   * or a zero start. Growing the start by the result gives back the end.
   */
  function GrowthPercent(start: Option<real>, end: Option<real>): (g: Option<real>)
    ensures g.Some? <==> start.Some? && end.Some? && start.value != 0.0
    ensures g.Some? ==> start.value * (1.0 + g.value / 100.0) == end.value
  {
    if start.None? || end.None? || start.value == 0.0 then None
    else
      PercentChangeCompounds(start.value, end.value);
      Some((end.value / start.value - 1.0) * 100.0)
  }

  /** The total growth of one gender, from its Year 0 mean salary to its Year 10 mean salary. */
  function TotalGrowth(rows: seq<Row>, gender: Gender): Option<real> {
    GrowthPercent(SalaryMean(rows, gender, 0), SalaryMean(rows, gender, 10))
  }

  /** The total growth is defined exactly when both years have salaries for the gender and the start is not zero. */
  lemma TotalGrowthDefined(rows: seq<Row>, gender: Gender)
    ensures TotalGrowth(rows, gender).Some? <==>
              (exists r :: r in rows && Matches(r, Key(None, Some(gender), Some(0))) && Cell(r, SalaryColumn).Num?) &&
              (exists r :: r in rows && Matches(r, Key(None, Some(gender), Some(10))) && Cell(r, SalaryColumn).Num?) &&
              SalaryMean(rows, gender, 0).value != 0.0
  {
    GroupMeanDefined(rows, Key(None, Some(gender), Some(0)), SalaryColumn);
    GroupMeanDefined(rows, Key(None, Some(gender), Some(10)), SalaryColumn);
  }

  /**
   * Start and end are the literal years 0 and 10: a table loaded without year 0 has no start
   * salary, so its total growth is undefined whatever other years it holds.
   */
  lemma GrowthNeedsYearZero(dir: SalaryLoad.Directory, years: seq<nat>, gender: Gender)
    requires SalaryLoad.CombinedData(dir, years).Ok? && 0 !in years
    ensures TotalGrowth(SalaryLoad.CombinedData(dir, years).value.rows, gender).None?
  {
    var rows := SalaryLoad.CombinedData(dir, years).value.rows;
    SalaryLoad.CombinedDataYears(dir, years);
    GroupMeanDefined(rows, Key(None, Some(gender), Some(0)), SalaryColumn);
  }

  /** `calculate_growth_rates`: the summary's total growth column, one entry per gender. */
  method CalculateGrowthRates(rows: seq<Row>) returns (summary: map<Gender, Option<real>>)
    ensures summary.Keys == {Male, Female}
    ensures forall g :: g in summary ==> summary[g] == TotalGrowth(rows, g)
  {
    var genders := [Male, Female];
    summary := map[];
    var i := 0;
    while i < |genders|
      invariant 0 <= i <= |genders|
      invariant forall g :: g in summary <==> g in genders[..i]
      invariant forall g :: g in summary ==> summary[g] == TotalGrowth(rows, g)
    {
      var gender := genders[i];
      summary := summary[gender := TotalGrowth(rows, gender)];
      i := i + 1;
    }
    assert genders[..i] == genders;
  }
}
