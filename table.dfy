/**
 * The in-memory table the scripts build with pandas: a frame is a set of column names and a
 * sequence of rows; a row maps column names to cells. `pd.concat` takes the union of the columns
 * and fills the cells a frame does not have with NaN (`Null` here).
 */
module Table {
  import opened Wrappers
  import opened FilenameMeta

  datatype Value = Null | Num(n: int) | Text(s: string)

  type Row = map<string, Value>

  datatype Frame = Frame(columns: set<string>, rows: seq<Row>)

  const YearColumn: string := "Year"
  const GroupColumn: string := "Group_Type"
  const GenderColumn: string := "Gender"

  /** Every row carries exactly the frame's columns, as in a pandas DataFrame. */
  predicate WellFormed(f: Frame) {
    forall i :: 0 <= i < |f.rows| ==> f.rows[i].Keys == f.columns
  }

  /** A cell, with an absent column read as NaN. */
  function Cell(r: Row, c: string): Value {
    if c in r then r[c] else Null
  }

  /** `df[col] = fn(row)` for every row: the column is added or overwritten, the others are untouched. */
  function Derive(f: Frame, col: string, fn: Row -> Value): (g: Frame)
    ensures g.columns == f.columns + {col} && |g.rows| == |f.rows|
    ensures forall i :: 0 <= i < |g.rows| ==> col in g.rows[i] && g.rows[i][col] == fn(f.rows[i])
    ensures forall i, c :: 0 <= i < |g.rows| && c in f.rows[i] && c != col ==> c in g.rows[i] && g.rows[i][c] == f.rows[i][c]
    ensures forall i :: 0 <= i < |g.rows| ==> g.rows[i].Keys == f.rows[i].Keys + {col}
    ensures WellFormed(f) ==> WellFormed(g)
  {
    Frame(f.columns + {col}, seq(|f.rows|, i requires 0 <= i < |f.rows| => f.rows[i][col := fn(f.rows[i])]))
  }

  /** `df[col] = v`: the same value on every row. */
  function SetColumn(f: Frame, col: string, v: Value): (g: Frame)
    ensures g.columns == f.columns + {col} && |g.rows| == |f.rows|
    ensures forall i :: 0 <= i < |g.rows| ==> col in g.rows[i] && g.rows[i][col] == v
    ensures forall i, c :: 0 <= i < |g.rows| && c in f.rows[i] && c != col ==> c in g.rows[i] && g.rows[i][c] == f.rows[i][c]
    ensures forall i :: 0 <= i < |g.rows| ==> g.rows[i].Keys == f.rows[i].Keys + {col}
    ensures WellFormed(f) ==> WellFormed(g)
  {
    Derive(f, col, _ => v)
  }

  /** A row widened to `cols`, NaN in the columns it lacks. */
  function Fill(r: Row, cols: set<string>): (r': Row)
    ensures r'.Keys == cols
    ensures forall c :: c in cols ==> r'[c] == Cell(r, c)
  {
    map c | c in cols :: Cell(r, c)
  }

  function AllColumns(fs: seq<Frame>): set<string> {
    if fs == [] then {} else AllColumns(fs[..|fs| - 1]) + fs[|fs| - 1].columns
  }

  /** The rows of all frames, frame after frame. */
  function Stack(fs: seq<Frame>): seq<Row> {
    if fs == [] then [] else Stack(fs[..|fs| - 1]) + fs[|fs| - 1].rows
  }

  function TotalRows(fs: seq<Frame>): nat {
    if fs == [] then 0 else TotalRows(fs[..|fs| - 1]) + |fs[|fs| - 1].rows|
  }

  /** `pd.concat(fs, ignore_index=True)`; `None` is pandas' "No objects to concatenate". */
  function Concat(fs: seq<Frame>): (r: Option<Frame>)
    ensures r.None? <==> fs == []
    ensures r.Some? ==> WellFormed(r.value) && r.value.columns == AllColumns(fs)
    ensures r.Some? ==> |r.value.rows| == |Stack(fs)|
  {
    if fs == [] then None
    else
      var cols := AllColumns(fs);
      var rows := Stack(fs);
      Some(Frame(cols, seq(|rows|, i requires 0 <= i < |rows| => Fill(rows[i], cols))))
  }

  lemma {:induction false} StackLength(fs: seq<Frame>)
    ensures |Stack(fs)| == TotalRows(fs)
  {
    if fs != [] {
      StackLength(fs[..|fs| - 1]);
    }
  }

  lemma {:induction false} StackAppend(fs: seq<Frame>, gs: seq<Frame>)
    ensures Stack(fs + gs) == Stack(fs) + Stack(gs)
    decreases |gs|
  {
    if gs == [] {
      assert fs + gs == fs;
    } else {
      var last := gs[|gs| - 1];
      assert (fs + gs)[..|fs + gs| - 1] == fs + gs[..|gs| - 1];
      StackAppend(fs, gs[..|gs| - 1]);
    }
  }

  /** Every stacked row is a row of one of the frames. */
  lemma {:induction false} StackMember(fs: seq<Frame>, r: Row)
    requires r in Stack(fs)
    ensures exists j :: 0 <= j < |fs| && r in fs[j].rows
  {
    var init := fs[..|fs| - 1];
    if r in Stack(init) {
      StackMember(init, r);
      var j :| 0 <= j < |init| && r in init[j].rows;
      assert fs[j] == init[j];
    } else {
      assert r in fs[|fs| - 1].rows;
    }
  }

  /** The concatenated table has as many rows as all parts together, and each row is a part's row widened to all columns. */
  lemma ConcatRows(fs: seq<Frame>)
    requires fs != []
    ensures |Concat(fs).value.rows| == TotalRows(fs)
    ensures forall k :: 0 <= k < |Concat(fs).value.rows| ==>
              exists j, i :: 0 <= j < |fs| && 0 <= i < |fs[j].rows| && Concat(fs).value.rows[k] == Fill(fs[j].rows[i], AllColumns(fs))
  {
    StackLength(fs);
    var t := Concat(fs).value;
    forall k | 0 <= k < |t.rows|
      ensures exists j, i :: 0 <= j < |fs| && 0 <= i < |fs[j].rows| && t.rows[k] == Fill(fs[j].rows[i], AllColumns(fs))
    {
      var r := Stack(fs)[k];
      StackMember(fs, r);
      var j :| 0 <= j < |fs| && r in fs[j].rows;
      var i :| 0 <= i < |fs[j].rows| && fs[j].rows[i] == r;
    }
  }

  /** Every part's columns are columns of the concatenation. */
  lemma {:induction false} ColumnsInAll(fs: seq<Frame>, j: nat)
    requires j < |fs|
    ensures fs[j].columns <= AllColumns(fs)
  {
    if j < |fs| - 1 {
      ColumnsInAll(fs[..|fs| - 1], j);
    }
  }

  /** A cell of the concatenated table, in a column of some part, is the cell of the row it came from. */
  lemma ConcatCells(fs: seq<Frame>, k: nat)
    requires fs != [] && k < |Concat(fs).value.rows|
    ensures exists j, i :: 0 <= j < |fs| && 0 <= i < |fs[j].rows| &&
              forall c :: c in AllColumns(fs) ==> Cell(Concat(fs).value.rows[k], c) == Cell(fs[j].rows[i], c)
  {
    ConcatRows(fs);
    var j, i :| 0 <= j < |fs| && 0 <= i < |fs[j].rows| && Concat(fs).value.rows[k] == Fill(fs[j].rows[i], AllColumns(fs));
  }

  /** A grouping key; `None` in a field means the key does not constrain that column. */
  datatype Key = Key(group: Option<Group>, gender: Option<Gender>, year: Option<nat>)

  /** The boolean mask `(df['Group_Type'] == g) & (df['Gender'] == s) & (df['Year'] == y)`. */
  predicate Matches(r: Row, key: Key) {
    && (key.group.Some? ==> Cell(r, GroupColumn) == Text(GroupName(key.group.value)))
    && (key.gender.Some? ==> Cell(r, GenderColumn) == Text(GenderName(key.gender.value)))
    && (key.year.Some? ==> Cell(r, YearColumn) == Num(key.year.value))
  }

  /** `df[mask]`: the rows satisfying p, in their original order. */
  function Select(rows: seq<Row>, p: Row -> bool): (s: seq<Row>)
    ensures |s| <= |rows|
    ensures forall r :: r in s <==> r in rows && p(r)
    ensures forall r :: multiset(s)[r] == if p(r) then multiset(rows)[r] else 0
  {
    if rows == [] then []
    else
      var init := Select(rows[..|rows| - 1], p);
      var last := rows[|rows| - 1];
      assert rows == rows[..|rows| - 1] + [last];
      if p(last) then init + [last] else init
  }

  lemma {:induction false} SelectEverything(rows: seq<Row>, p: Row -> bool)
    requires forall r :: r in rows ==> p(r)
    ensures Select(rows, p) == rows
  {
    if rows != [] {
      var init, last := rows[..|rows| - 1], rows[|rows| - 1];
      SelectEverything(init, p);
      assert last in rows && p(last);
      assert rows == init + [last];
    }
  }

  /** A single row is kept exactly when it satisfies p. */
  lemma SelectOne(r: Row, p: Row -> bool)
    ensures Select([r], p) == if p(r) then [r] else []
  {
    assert [r][..0] == [];
  }

  /** Selecting from a + b keeps a's rows before b's: the order of the table is preserved. */
  lemma {:induction false} SelectAppend(a: seq<Row>, b: seq<Row>, p: Row -> bool)
    ensures Select(a + b, p) == Select(a, p) + Select(b, p)
    decreases |b|
  {
    if b == [] {
      assert a + b == a;
    } else {
      var b' := b[..|b| - 1];
      assert (a + b)[..|a + b| - 1] == a + b';
      assert (a + b)[|a + b| - 1] == b[|b| - 1];
      SelectAppend(a, b', p);
    }
  }

  /** The rows matching a key, in their original order, each as often as it occurs. */
  function SelectKey(rows: seq<Row>, key: Key): (s: seq<Row>)
    ensures |s| <= |rows|
    ensures forall r :: r in s <==> r in rows && Matches(r, key)
    ensures forall r :: multiset(s)[r] == if Matches(r, key) then multiset(rows)[r] else 0
  {
    Select(rows, r => Matches(r, key))
  }

  lemma SelectKeyOne(r: Row, key: Key)
    ensures SelectKey([r], key) == if Matches(r, key) then [r] else []
  {
    SelectOne(r, r => Matches(r, key));
  }

  lemma SelectKeyAppend(a: seq<Row>, b: seq<Row>, key: Key)
    ensures SelectKey(a + b, key) == SelectKey(a, key) + SelectKey(b, key)
  {
    SelectAppend(a, b, r => Matches(r, key));
  }
}
