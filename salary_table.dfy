/**
 * task3_code3.py: two salary files read positionally under a fixed list of eleven column names,
 * their Gender overwritten, concatenated female first, then widened by the growth columns and the
 * starting-salary bracket, and finally melted into one row per (employee, growth column).
 */
module SalaryTable {
  import opened Wrappers
  import opened FilenameMeta
  import opened Table

  /** `columns`: the names given to the fields of every record, by position. */
  const Columns: seq<string> :=
    ["Name", "Gender", "Department", "Age", "Position", "Starting Salary", "age 24", "age 26", "age 28", "age 30", "age 32"]

  const StartColumn: string := "Starting Salary"
  const AgeColumns: seq<string> := ["age 24", "age 26", "age 28", "age 30", "age 32"]
  const GrowthColumns: seq<string> := ["Growth 24", "Growth 26", "Growth 28", "Growth 30", "Growth 32"]
  const TotalGrowthColumn: string := "Total Growth"
  const RangeColumn: string := "Starting Salary Range"
  const IntervalColumn: string := "Age Interval"
  const SalaryGrowthColumn: string := "Salary Growth"

  /** The `pd.cut` bin edges. */
  const Bins: seq<int> := [0, 2000, 4000, 6000, 8000, 10000, 12000]

  /** The columns that the script subtracts from or cuts. */
  const NumericColumns: seq<string> := ["Starting Salary", "age 24", "age 26", "age 28", "age 30", "age 32"]

  /** One tokenised CSV line. */
  type Record = seq<Value>

  function Field(rec: Record, k: nat): Value {
    if k < |rec| then rec[k] else Null
  }

  function ColumnSet(): set<string> {
    set k | 0 <= k < |Columns| :: Columns[k]
  }

  /** A record named positionally: field k goes to Columns[k], and a short record leaves NaN in the rest. */
  function RecordRow(rec: Record): (r: Row)
    ensures r.Keys == ColumnSet()
    ensures forall k :: 0 <= k < |Columns| ==> r[Columns[k]] == Field(rec, k)
  {
    map k | 0 <= k < |Columns| :: Columns[k] := Field(rec, k)
  }

  predicate FitsColumns(lines: seq<Record>) {
    forall k :: 0 <= k < |lines| ==> |lines[k]| <= |Columns|
  }

  /**
   * `pd.read_csv(path, names=columns, header=0)`: the first line is the file's own header and is
   * dropped; every further line becomes a row. A file without any line is pandas' EmptyDataError.
   */
  function ReadSalaries(lines: seq<Record>): (f: Option<Frame>)
    requires FitsColumns(lines)
    ensures f.None? <==> lines == []
    ensures f.Some? ==> WellFormed(f.value) && f.value.columns == ColumnSet() && |f.value.rows| == |lines| - 1
    ensures f.Some? ==> forall i, k :: 0 <= i < |f.value.rows| && 0 <= k < |Columns| ==>
              Cell(f.value.rows[i], Columns[k]) == Field(lines[i + 1], k)
  {
    if lines == [] then None
    else Some(Frame(ColumnSet(), seq(|lines| - 1, i requires 0 <= i < |lines| - 1 => RecordRow(lines[i + 1]))))
  }

  /** `df['Gender'] = name`: every row's Gender replaced, whatever the file held. */
  function WithGender(f: Frame, g: Gender): (h: Frame)
    ensures h.columns == f.columns + {GenderColumn} && |h.rows| == |f.rows|
  {
    Frame(f.columns + {GenderColumn}, seq(|f.rows|, i requires 0 <= i < |f.rows| => f.rows[i][GenderColumn := Text(GenderName(g))]))
  }

  /** A row that already has exactly the target columns is left as it is by the NaN widening of `concat`. */
  lemma FillComplete(r: Row, cols: set<string>)
    requires r.Keys == cols
    ensures Fill(r, cols) == r
  {
  }

  /** Both files read, each gender overwritten, `pd.concat([female_data, male_data], ignore_index=True)`. */
  function Combined(femaleLines: seq<Record>, maleLines: seq<Record>): (c: Option<Frame>)
    requires FitsColumns(femaleLines) && FitsColumns(maleLines)
    ensures c.None? <==> femaleLines == [] || maleLines == []
  {
    match (ReadSalaries(femaleLines), ReadSalaries(maleLines))
    case (Some(female), Some(male)) => Concat([WithGender(female, Female), WithGender(male, Male)])
    case _ => None
  }

  /** Row i of a file's frame, as it lands in the combined table: its fields by position, Gender overwritten. */
  predicate FileRow(r: Row, lines: seq<Record>, i: nat, g: Gender)
    requires i + 1 < |lines|
  {
    && Cell(r, GenderColumn) == Text(GenderName(g))
    && forall k :: 0 <= k < |Columns| && Columns[k] != GenderColumn ==> Cell(r, Columns[k]) == Field(lines[i + 1], k)
  }

  lemma WithGenderRow(lines: seq<Record>, g: Gender, i: nat)
    requires FitsColumns(lines) && lines != [] && i + 1 < |lines|
    ensures var h := WithGender(ReadSalaries(lines).value, g);
            h.rows[i].Keys == ColumnSet() && FileRow(h.rows[i], lines, i, g)
  {
    var f := ReadSalaries(lines).value;
    assert GenderColumn == Columns[1];
    assert f.rows[i].Keys == ColumnSet();
  }

  function GenderedRows(lines: seq<Record>, g: Gender): seq<Row>
    requires FitsColumns(lines) && lines != []
  {
    WithGender(ReadSalaries(lines).value, g).rows
  }

  /** `concat` of the two gendered frames adds no cells: their rows already carry all eleven columns. */
  lemma CombinedIsStacked(femaleLines: seq<Record>, maleLines: seq<Record>)
    requires FitsColumns(femaleLines) && FitsColumns(maleLines)
    requires femaleLines != [] && maleLines != []
    ensures Combined(femaleLines, maleLines).value.rows == GenderedRows(femaleLines, Female) + GenderedRows(maleLines, Male)
  {
    var female := WithGender(ReadSalaries(femaleLines).value, Female);
    var male := WithGender(ReadSalaries(maleLines).value, Male);
    var fs := [female, male];
    assert GenderColumn == Columns[1];
    assert female.columns == ColumnSet() && male.columns == ColumnSet();
    assert Stack([female]) == female.rows by {
      assert [female][..0] == [];
    }
    assert fs[..1] == [female];
    assert Stack(fs) == female.rows + male.rows;
    assert AllColumns([female]) == ColumnSet() by {
      assert [female][..0] == [];
    }
    assert AllColumns(fs) == ColumnSet();
    var stacked := female.rows + male.rows;
    var rows := Concat(fs).value.rows;
    assert |rows| == |stacked|;
    forall k | 0 <= k < |rows| ensures rows[k] == stacked[k] {
      if k < |female.rows| {
        WithGenderRow(femaleLines, Female, k);
      } else {
        WithGenderRow(maleLines, Male, k - |female.rows|);
      }
      FillComplete(stacked[k], ColumnSet());
    }
  }

  /** The first rows of the combined table are the female file's rows, tagged Female. */
  lemma CombinedFemaleRows(femaleLines: seq<Record>, maleLines: seq<Record>)
    requires FitsColumns(femaleLines) && FitsColumns(maleLines)
    requires femaleLines != [] && maleLines != []
    ensures var rows := Combined(femaleLines, maleLines).value.rows;
            && |rows| == (|femaleLines| - 1) + (|maleLines| - 1)
            && forall i :: 0 <= i < |femaleLines| - 1 ==> FileRow(rows[i], femaleLines, i, Female)
  {
    CombinedIsStacked(femaleLines, maleLines);
    var rows := Combined(femaleLines, maleLines).value.rows;
    forall i | 0 <= i < |femaleLines| - 1 ensures FileRow(rows[i], femaleLines, i, Female) {
      WithGenderRow(femaleLines, Female, i);
    }
  }

  /** Row j of the combined table, past the female rows, is male row j - nf. */
  lemma CombinedMaleRow(femaleLines: seq<Record>, maleLines: seq<Record>, j: nat)
    requires FitsColumns(femaleLines) && FitsColumns(maleLines)
    requires femaleLines != [] && maleLines != []
    requires |femaleLines| - 1 <= j < (|femaleLines| - 1) + (|maleLines| - 1)
    ensures var rows := Combined(femaleLines, maleLines).value.rows;
            j < |rows| && FileRow(rows[j], maleLines, j - (|femaleLines| - 1), Male)
  {
    var female := GenderedRows(femaleLines, Female);
    var male := GenderedRows(maleLines, Male);
    var rows := Combined(femaleLines, maleLines).value.rows;
    var k := j - (|femaleLines| - 1);
    assert |female| == |femaleLines| - 1 && |male| == |maleLines| - 1;
    CombinedIsStacked(femaleLines, maleLines);
    StackedAt(rows, female, male, j);
    WithGenderRow(maleLines, Male, k);
    assert FileRow(male[k], maleLines, k, Male);
  }

  /** Past the first part, row j of a stack is row j - |first| of the second part. */
  lemma StackedAt(rows: seq<Row>, first: seq<Row>, second: seq<Row>, j: nat)
    requires rows == first + second && |first| <= j < |rows|
    ensures rows[j] == second[j - |first|]
  {
  }

  /** After them come the male file's rows, tagged Male. */
  lemma CombinedMaleRows(femaleLines: seq<Record>, maleLines: seq<Record>)
    requires FitsColumns(femaleLines) && FitsColumns(maleLines)
    requires femaleLines != [] && maleLines != []
    ensures var rows := Combined(femaleLines, maleLines).value.rows;
            var nf := |femaleLines| - 1;
            && |rows| == nf + (|maleLines| - 1)
            && forall j :: nf <= j < |rows| ==> FileRow(rows[j], maleLines, j - nf, Male)
  {
    var rows := Combined(femaleLines, maleLines).value.rows;
    var nf := |femaleLines| - 1;
    assert |rows| == nf + (|maleLines| - 1) by {
      CombinedIsStacked(femaleLines, maleLines);
    }
    forall j | nf <= j < |rows| ensures FileRow(rows[j], maleLines, j - nf, Male) {
      CombinedMaleRow(femaleLines, maleLines, j);
    }
  }

  // ---------------------------------------------------------------------------------------------
  // Derived columns

  /** Column subtraction on one row: NaN when either side is NaN. */
  function Diff(x: Value, y: Value): Value
    requires !x.Text? && !y.Text?
  {
    if x.Num? && y.Num? then Num(x.n - y.n) else Null
  }

  /**
   * `pd.cut` with `edges`, searched from bin k on: the first right-closed bin (edges[j], edges[j+1]]
   * that holds x, `None` (NaN) when no bin does.
   */
  function CutFrom(edges: seq<int>, x: int, k: nat): (b: Option<nat>)
    decreases |edges| - k
    ensures b.Some? ==> k <= b.value && b.value + 1 < |edges| && edges[b.value] < x <= edges[b.value + 1]
    ensures b.None? ==> forall j :: k <= j && j + 1 < |edges| ==> !(edges[j] < x <= edges[j + 1])
  {
    if k + 1 >= |edges| then None
    else if edges[k] < x <= edges[k + 1] then Some(k)
    else CutFrom(edges, x, k + 1)
  }

  /** The salary bracket of x, numbered 0..5 for (0, 2000], ..., (10000, 12000]. */
  function Bracket(x: int): Option<nat> {
    CutFrom(Bins, x, 0)
  }

  /**
   * The brackets are right-closed: x falls in bracket k exactly when 2000k < x <= 2000(k+1), and
   * salaries at or below 0 or above 12000 fall in none.
   */
  lemma BracketClosedForm(x: int)
    ensures Bracket(x) == if 0 < x <= 12000 then Some((x - 1) / 2000) else None
  {
    assert forall j :: 0 <= j < |Bins| ==> Bins[j] == 2000 * j;
    var b := Bracket(x);
    if 0 < x <= 12000 {
      var k := (x - 1) / 2000;
      assert Bins[k] < x <= Bins[k + 1];
      assert b.Some?;
      var v := b.value;
      assert Bins[v] < x <= Bins[v + 1];
      assert v == k;
    }
  }

  function BracketCell(v: Value): Value
    requires !v.Text?
  {
    if v.Num? && Bracket(v.n).Some? then Num(Bracket(v.n).value) else Null
  }

  /** No cell of a subtracted or cut column holds text (pandas raises a TypeError on text there). */
  predicate NumericCells(rows: seq<Row>) {
    forall i, c :: 0 <= i < |rows| && c in NumericColumns ==> !Cell(rows[i], c).Text?
  }

  function DerivedSet(): set<string> {
    {"Total Growth", "Starting Salary Range", "Growth 24", "Growth 26", "Growth 28", "Growth 30", "Growth 32"}
  }

  /** The columns added to one row: Growth 24 to Growth 32, the salary bracket and Total Growth. */
  function Widen(r: Row): (w: Row)
    requires forall c :: c in NumericColumns ==> !Cell(r, c).Text?
    ensures w.Keys == r.Keys + DerivedSet()
  {
    var start := Cell(r, StartColumn);
    r["Growth 24" := Diff(Cell(r, "age 24"), start)]
     ["Growth 26" := Diff(Cell(r, "age 26"), start)]
     ["Growth 28" := Diff(Cell(r, "age 28"), start)]
     ["Growth 30" := Diff(Cell(r, "age 30"), start)]
     ["Growth 32" := Diff(Cell(r, "age 32"), start)]
     [RangeColumn := BracketCell(start)]
     [TotalGrowthColumn := Diff(Cell(r, "age 32"), start)]
  }

  /** The eleven read columns are untouched by the widening. */
  lemma WidenKeeps(r: Row)
    requires forall c :: c in NumericColumns ==> !Cell(r, c).Text?
    ensures forall c :: c !in DerivedSet() ==> Cell(Widen(r), c) == Cell(r, c)
  {
  }

  lemma ReadColumnsNotDerived()
    ensures forall k :: 0 <= k < |Columns| ==> Columns[k] !in DerivedSet()
  {
  }

  /** Growth column v is age column v minus the starting salary. */
  lemma WidenGrowth(r: Row, v: nat)
    requires forall c :: c in NumericColumns ==> !Cell(r, c).Text?
    requires v < |GrowthColumns|
    ensures Cell(Widen(r), GrowthColumns[v]) == Diff(Cell(r, AgeColumns[v]), Cell(r, StartColumn))
  {
    assert AgeColumns[v] in NumericColumns;
  }

  /**
   * Total Growth is age 32 minus the starting salary, the same value as Growth 32, and the bracket
   * column holds the bracket of the starting salary.
   */
  lemma WidenTotal(r: Row)
    requires forall c :: c in NumericColumns ==> !Cell(r, c).Text?
    ensures Cell(Widen(r), TotalGrowthColumn) == Diff(Cell(r, "age 32"), Cell(r, StartColumn))
    ensures Cell(Widen(r), TotalGrowthColumn) == Cell(Widen(r), "Growth 32")
    ensures Cell(Widen(r), RangeColumn) == BracketCell(Cell(r, StartColumn))
  {
  }

  /**
   * combined_data after lines 23, 33 and 94-98; `None` when a file is empty or a subtracted or cut
   * column holds text, where the script stops with an exception.
   */
  function Prepare(femaleLines: seq<Record>, maleLines: seq<Record>): (p: Option<Frame>)
    requires FitsColumns(femaleLines) && FitsColumns(maleLines)
    ensures p.None? <==> femaleLines == [] || maleLines == [] || !NumericCells(Combined(femaleLines, maleLines).value.rows)
    ensures p.Some? ==> |p.value.rows| == |Combined(femaleLines, maleLines).value.rows|
  {
    match Combined(femaleLines, maleLines)
    case None => None
    case Some(c) =>
      if !NumericCells(c.rows) then None
      else
        var rows := c.rows;
        Some(Frame(c.columns + DerivedSet(), seq(|rows|, i requires 0 <= i < |rows| => Widen(rows[i]))))
  }

  /** A row of the finished table is the combined row at the same place, widened. */
  lemma PreparedRow(femaleLines: seq<Record>, maleLines: seq<Record>, i: nat)
    requires FitsColumns(femaleLines) && FitsColumns(maleLines)
    requires Prepare(femaleLines, maleLines).Some? && i < |Prepare(femaleLines, maleLines).value.rows|
    ensures var c := Combined(femaleLines, maleLines).value.rows;
            && (forall c' :: c' in NumericColumns ==> !Cell(c[i], c').Text?)
            && Prepare(femaleLines, maleLines).value.rows[i] == Widen(c[i])
  {
    var c := Combined(femaleLines, maleLines).value.rows;
    assert forall col :: col in NumericColumns ==> !Cell(c[i], col).Text?;
  }

  /**
   * Every row of the finished table is row i of the female file (or of the male file, after all
   * female rows), and its Total Growth equals its Growth 32.
   */
  lemma PreparedRows(femaleLines: seq<Record>, maleLines: seq<Record>)
    requires FitsColumns(femaleLines) && FitsColumns(maleLines)
    requires Prepare(femaleLines, maleLines).Some?
    ensures var rows := Prepare(femaleLines, maleLines).value.rows;
            var nf := |femaleLines| - 1;
            && |rows| == nf + (|maleLines| - 1)
            && (forall i :: 0 <= i < nf ==> FileRow(rows[i], femaleLines, i, Female))
            && (forall j :: nf <= j < |rows| ==> FileRow(rows[j], maleLines, j - nf, Male))
            && (forall i :: 0 <= i < |rows| ==> Cell(rows[i], TotalGrowthColumn) == Cell(rows[i], "Growth 32"))
  {
    var c := Combined(femaleLines, maleLines).value.rows;
    var rows := Prepare(femaleLines, maleLines).value.rows;
    var nf := |femaleLines| - 1;
    CombinedFemaleRows(femaleLines, maleLines);
    CombinedMaleRows(femaleLines, maleLines);
    ReadColumnsNotDerived();
    forall i | 0 <= i < |rows|
      ensures forall k :: 0 <= k < |Columns| ==> Cell(rows[i], Columns[k]) == Cell(c[i], Columns[k])
      ensures Cell(rows[i], TotalGrowthColumn) == Cell(rows[i], "Growth 32")
    {
      PreparedRow(femaleLines, maleLines, i);
      WidenKeeps(c[i]);
      WidenTotal(c[i]);
    }
    assert GenderColumn == Columns[1];
  }

  // ---------------------------------------------------------------------------------------------
  // Melt (task3_code3.py:101-102)

  /** The long-format row for one employee and growth column v. */
  function MeltRow(r: Row, v: nat): Row
    requires v < |GrowthColumns|
  {
    map[GenderColumn := Cell(r, GenderColumn), IntervalColumn := Text(GrowthColumns[v]), SalaryGrowthColumn := Cell(r, GrowthColumns[v])]
  }

  lemma DivBound(k: nat, n: nat)
    requires k < |GrowthColumns| * n
    ensures n > 0 && k / n < |GrowthColumns| && k % n < n && k == (k / n) * n + k % n
  {
  }

  /** The melted row at position k: employee k mod n, growth column k div n. */
  function MeltEntry(rows: seq<Row>, k: nat): Row
    requires k < |GrowthColumns| * |rows|
  {
    DivBound(k, |rows|);
    MeltRow(rows[k % |rows|], k / |rows|)
  }

  /**
   * `pd.melt(combined_data, id_vars=['Gender'], value_vars=[Growth 24 .. Growth 32], ...)`: the
   * column of Growth 24 for all employees, then that of Growth 26, and so on.
   */
  function Melt(rows: seq<Row>): (m: seq<Row>)
    ensures |m| == |GrowthColumns| * |rows|
  {
    seq(|GrowthColumns| * |rows|, k requires 0 <= k < |GrowthColumns| * |rows| => MeltEntry(rows, k))
  }

  lemma MulSign(a: int, n: nat)
    ensures a >= 1 ==> a * n >= n
    ensures a <= -1 ==> a * n + n <= 0
  {
    if a >= 1 {
      assert a * n == (a - 1) * n + n;
    } else if a <= -1 {
      assert a * n + n == (a + 1) * n;
    }
  }

  /** Position v * n + i splits back into block v and offset i. */
  lemma BlockOffset(v: nat, n: nat, i: nat)
    requires i < n
    ensures (v * n + i) / n == v && (v * n + i) % n == i
  {
    var k := v * n + i;
    var q, r := k / n, k % n;
    assert k == q * n + r;
    assert (q - v) * n == i - r;
    MulSign(q - v, n);
  }

  /**
   * The melted table has five rows per employee; the row for growth column v and employee i sits
   * at v * n + i and carries that employee's Gender, the column's name and the column's value.
   */
  lemma MeltAt(rows: seq<Row>, v: nat, i: nat)
    requires v < |GrowthColumns| && i < |rows|
    ensures v * |rows| + i < |Melt(rows)|
    ensures Melt(rows)[v * |rows| + i] ==
              map[GenderColumn := Cell(rows[i], GenderColumn), IntervalColumn := Text(GrowthColumns[v]),
                  SalaryGrowthColumn := Cell(rows[i], GrowthColumns[v])]
  {
    var n := |rows|;
    assert v * n + i < (v + 1) * n <= |GrowthColumns| * n;
    BlockOffset(v, n, i);
  }

  /** Every melted row is the row of one growth column and one employee. */
  lemma MeltOrigin(rows: seq<Row>, k: nat)
    requires k < |Melt(rows)|
    ensures exists v, i :: 0 <= v < |GrowthColumns| && 0 <= i < |rows| && k == v * |rows| + i && Melt(rows)[k] == MeltRow(rows[i], v)
  {
    DivBound(k, |rows|);
    var v, i := k / |rows|, k % |rows|;
    assert Melt(rows)[k] == MeltRow(rows[i], v);
  }

  /** Growth column v of prepared row i is age column v of combined row i minus its starting salary. */
  lemma PreparedGrowth(femaleLines: seq<Record>, maleLines: seq<Record>, v: nat, i: nat)
    requires FitsColumns(femaleLines) && FitsColumns(maleLines)
    requires Prepare(femaleLines, maleLines).Some?
    requires v < |GrowthColumns| && i < |Prepare(femaleLines, maleLines).value.rows|
    ensures var c := Combined(femaleLines, maleLines).value.rows[i];
            && (forall col :: col in NumericColumns ==> !Cell(c, col).Text?)
            && Cell(Prepare(femaleLines, maleLines).value.rows[i], GrowthColumns[v]) == Diff(Cell(c, AgeColumns[v]), Cell(c, StartColumn))
  {
    var c := Combined(femaleLines, maleLines).value.rows;
    PreparedRow(femaleLines, maleLines, i);
    WidenGrowth(c[i], v);
  }
}
