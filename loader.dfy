/**
 * `load_and_process_data` of task1_code1.py, task1_code2.py, task2_code1.py and task2_code2.py:
 * read every discovered CSV file, derive (group, gender, year) from its name, tag every row with them,
 * skip a file on any exception, and concatenate the frames that loaded.
 * Discovery (`glob.glob("*.csv")`) and `pd.read_csv` are outside the model: a file arrives as its name
 * and, when it can be read, its parsed frame.
 */
module Loader {
  import opened Wrappers
  import opened Decimal
  import opened FilenameMeta
  import opened Table

  datatype SourceFile = SourceFile(name: string, content: Option<Frame>)

  datatype LoadError =
    | NoCsvFiles               // task1_code1.py:21-22
    | NothingLoaded            // task1_code1.py:55-56
    | NoObjectsToConcatenate   // `pd.concat([])` in the loaders without an explicit check

  /** The combined table, and the names of the files the loop reported as failed, in order. */
  datatype Outcome = Loaded(table: Frame, failed: seq<string>) | Failed(error: LoadError)

  const PerformanceColumn: string := "Performance"

  /** `astype(str)` of one cell (integers only; NaN prints as "nan"). */
  function AsText(v: Value): string {
    match v
    case Null => "nan"
    case Num(n) => if n < 0 then "-" + Show(-n) else Show(n)
    case Text(s) => s
  }

  const TagColumns: set<string> := {YearColumn, GroupColumn, GenderColumn}

  /** One row after `df['Year'] = int(year); df['Group_Type'] = group_type; df['Gender'] = gender`. */
  function TagCells(r: Row, m: Meta): Row {
    r[YearColumn := Num(m.year)][GroupColumn := Text(GroupName(m.group))][GenderColumn := Text(GenderName(m.gender))]
  }

  /** The three column assignments on the whole frame: the tag columns are added, or overwritten, on every row. */
  function Tag(df: Frame, m: Meta): (t: Frame)
    ensures |t.rows| == |df.rows|
    ensures t.columns == df.columns + TagColumns
  {
    Frame(df.columns + TagColumns, seq(|df.rows|, i requires 0 <= i < |df.rows| => TagCells(df.rows[i], m)))
  }

  /** `df['Performance'] = df['Performance'].astype(str)`; `None` is the KeyError of a frame without that column. */
  function CoercePerformance(df: Frame): Option<Frame> {
    if PerformanceColumn in df.columns then
      Some(Derive(df, PerformanceColumn, r => Text(AsText(Cell(r, PerformanceColumn)))))
    else None
  }

  /**
   * One pass of the loop body: the tagged frame, or `None` when the body raises (unreadable file,
   * no year token in the name, or, when coercing, no Performance column).
   */
  function LoadOne(f: SourceFile, coerce: bool): Option<Frame> {
    match f.content
    case None => None
    case Some(df) =>
      match Parse(f.name)
      case None => None
      case Some(m) => if coerce then CoercePerformance(Tag(df, m)) else Some(Tag(df, m))
  }

  /** `all_data` after the loop: the frames of the files that loaded, in discovery order. */
  function LoadedFrames(files: seq<SourceFile>, coerce: bool): seq<Frame> {
    if files == [] then []
    else
      var init := LoadedFrames(files[..|files| - 1], coerce);
      match LoadOne(files[|files| - 1], coerce)
      case Some(g) => init + [g]
      case None => init
  }

  /** The names the loop reports in its `except` branch. */
  function FailedNames(files: seq<SourceFile>, coerce: bool): seq<string> {
    if files == [] then []
    else
      var init := FailedNames(files[..|files| - 1], coerce);
      var f := files[|files| - 1];
      if LoadOne(f, coerce).None? then init + [f.name] else init
  }

  /** The number of rows of the files that loaded. */
  function LoadedRowCount(files: seq<SourceFile>, coerce: bool): nat {
    if files == [] then 0
    else
      var f := files[|files| - 1];
      LoadedRowCount(files[..|files| - 1], coerce) + (if LoadOne(f, coerce).Some? then |f.content.value.rows| else 0)
  }

  /** The per-file loop shared by all four loaders. */
  method LoadFrames(files: seq<SourceFile>, coerce: bool) returns (allData: seq<Frame>, failed: seq<string>)
    ensures allData == LoadedFrames(files, coerce)
    ensures failed == FailedNames(files, coerce)
  {
    allData, failed := [], [];
    var i := 0;
    while i < |files|
      invariant 0 <= i <= |files|
      invariant allData == LoadedFrames(files[..i], coerce)
      invariant failed == FailedNames(files[..i], coerce)
    {
      var f := files[i];
      var loaded: Option<Frame> := None;
      if f.content.Some? {
        var meta := Parse(f.name);
        if meta.Some? {
          var df := Tag(f.content.value, meta.value);
          if !coerce {
            loaded := Some(df);
          } else if PerformanceColumn in df.columns {
            loaded := CoercePerformance(df);
          }
        }
      }
      if loaded.Some? {
        allData := allData + [loaded.value];
      } else {
        failed := failed + [f.name];
      }
      assert files[..i + 1][..i] == files[..i];
      i := i + 1;
    }
    assert files[..i] == files;
  }

  /** task1_code1.py: raise on an empty discovery list before reading, and again if nothing loaded. */
  method LoadAndProcessChecked(files: seq<SourceFile>) returns (r: Outcome)
    ensures files == [] ==> r == Failed(NoCsvFiles)
    ensures files != [] && LoadedFrames(files, false) == [] ==> r == Failed(NothingLoaded)
    ensures files != [] && LoadedFrames(files, false) != [] ==>
              r == Loaded(Concat(LoadedFrames(files, false)).value, FailedNames(files, false))
  {
    if files == [] {
      return Failed(NoCsvFiles);
    }
    var allData, failed := LoadFrames(files, false);
    if allData == [] {
      return Failed(NothingLoaded);
    }
    r := Loaded(Concat(allData).value, failed);
  }

  /**
   * task1_code2.py, task2_code1.py (coerce = false) and task2_code2.py (coerce = true): no explicit
   * check, so an empty `all_data` makes `pd.concat` raise.
   */
  method LoadAndConcat(files: seq<SourceFile>, coerce: bool) returns (r: Outcome)
    ensures LoadedFrames(files, coerce) == [] ==> r == Failed(NoObjectsToConcatenate)
    ensures LoadedFrames(files, coerce) != [] ==>
              r == Loaded(Concat(LoadedFrames(files, coerce)).value, FailedNames(files, coerce))
  {
    var allData, failed := LoadFrames(files, coerce);
    match Concat(allData)
    case None => r := Failed(NoObjectsToConcatenate);
    case Some(t) => r := Loaded(t, failed);
  }

  // ---------------------------------------------------------------------------------------------
  // Properties of the loaded table

  /** A file whose name has no `第<digits>年` token never loads, whatever its content. */
  lemma NoYearTokenFails(f: SourceFile, coerce: bool)
    requires !HasYearToken(f.name)
    ensures LoadOne(f, coerce).None?
  {
  }

  /** The loop over a + b keeps what the loop over a keeps, then what the loop over b keeps. */
  lemma {:induction false} LoadedFramesAppend(a: seq<SourceFile>, b: seq<SourceFile>, coerce: bool)
    ensures LoadedFrames(a + b, coerce) == LoadedFrames(a, coerce) + LoadedFrames(b, coerce)
    decreases |b|
  {
    if b == [] {
      assert a + b == a;
    } else {
      assert (a + b)[..|a + b| - 1] == a + b[..|b| - 1];
      LoadedFramesAppend(a, b[..|b| - 1], coerce);
    }
  }

  lemma {:induction false} FailedNamesAppend(a: seq<SourceFile>, b: seq<SourceFile>, coerce: bool)
    ensures FailedNames(a + b, coerce) == FailedNames(a, coerce) + FailedNames(b, coerce)
    decreases |b|
  {
    if b == [] {
      assert a + b == a;
    } else {
      assert (a + b)[..|a + b| - 1] == a + b[..|b| - 1];
      FailedNamesAppend(a, b[..|b| - 1], coerce);
    }
  }

  /** A failing file is skipped: the files around it load exactly as if it were not there, and its name is reported. */
  lemma FailingFileIsSkipped(before: seq<SourceFile>, f: SourceFile, after: seq<SourceFile>, coerce: bool)
    requires LoadOne(f, coerce).None?
    ensures LoadedFrames(before + [f] + after, coerce) == LoadedFrames(before + after, coerce)
    ensures FailedNames(before + [f] + after, coerce) == FailedNames(before, coerce) + [f.name] + FailedNames(after, coerce)
  {
    LoadedFramesAppend(before + [f], after, coerce);
    LoadedFramesAppend(before, [f], coerce);
    LoadedFramesAppend(before, after, coerce);
    FailedNamesAppend(before + [f], after, coerce);
    FailedNamesAppend(before, [f], coerce);
    assert LoadedFrames([f], coerce) == [] && FailedNames([f], coerce) == [f.name] by {
      assert [f][..0] == [];
    }
  }

  /** The tag columns of a normalised row. */
  predicate Tagged(row: Row, m: Meta) {
    && YearColumn in row && row[YearColumn] == Num(m.year)
    && GroupColumn in row && row[GroupColumn] == Text(GroupName(m.group))
    && GenderColumn in row && row[GenderColumn] == Text(GenderName(m.gender))
  }

  /**
   * `row` is the source row `src` after normalisation: tagged with m, every other column unchanged,
   * and, when coercing, Performance replaced by its text form.
   */
  predicate NormalizedFrom(row: Row, src: Row, m: Meta, coerce: bool) {
    && Tagged(row, m)
    && (forall c :: c in src && c !in TagColumns && (coerce ==> c != PerformanceColumn) ==> c in row && row[c] == src[c])
    && (coerce ==> PerformanceColumn in row && row[PerformanceColumn] == Text(AsText(Cell(src, PerformanceColumn))))
  }

  /** Row i of the tagged frame is row i of the source with the tags set and nothing else changed. */
  lemma TagRow(df: Frame, m: Meta, i: nat)
    requires i < |df.rows|
    ensures Tag(df, m).rows[i].Keys == df.rows[i].Keys + TagColumns
    ensures NormalizedFrom(Tag(df, m).rows[i], df.rows[i], m, false)
  {
    var src, row := df.rows[i], Tag(df, m).rows[i];
    assert row == TagCells(src, m);
    assert YearColumn != GroupColumn && YearColumn != GenderColumn && GroupColumn != GenderColumn;
  }

  lemma CoerceRow(df: Frame, m: Meta, i: nat)
    requires i < |df.rows| && CoercePerformance(Tag(df, m)).Some?
    ensures |CoercePerformance(Tag(df, m)).value.rows| == |df.rows|
    ensures CoercePerformance(Tag(df, m)).value.columns == Tag(df, m).columns
    ensures CoercePerformance(Tag(df, m)).value.rows[i].Keys == Tag(df, m).rows[i].Keys + {PerformanceColumn}
    ensures NormalizedFrom(CoercePerformance(Tag(df, m)).value.rows[i], df.rows[i], m, true)
  {
    TagRow(df, m, i);
    var t := Tag(df, m);
    var g := CoercePerformance(t).value;
    assert Cell(t.rows[i], PerformanceColumn) == Cell(df.rows[i], PerformanceColumn);
  }

  lemma LoadOneRows(f: SourceFile, coerce: bool)
    requires LoadOne(f, coerce).Some?
    ensures f.content.Some? && Parse(f.name).Some?
    ensures |LoadOne(f, coerce).value.rows| == |f.content.value.rows|
    ensures WellFormed(f.content.value) ==> WellFormed(LoadOne(f, coerce).value)
    ensures forall i :: 0 <= i < |f.content.value.rows| ==>
              NormalizedFrom(LoadOne(f, coerce).value.rows[i], f.content.value.rows[i], Parse(f.name).value, coerce)
  {
    var df := f.content.value;
    var m := Parse(f.name).value;
    var g := LoadOne(f, coerce).value;
    forall i | 0 <= i < |df.rows|
      ensures NormalizedFrom(g.rows[i], df.rows[i], m, coerce)
      ensures WellFormed(df) ==> g.rows[i].Keys == g.columns
    {
      TagRow(df, m, i);
      if coerce {
        CoerceRow(df, m, i);
      }
    }
  }

  lemma {:induction false} LoadedFrameOrigin(files: seq<SourceFile>, coerce: bool, j: nat)
    requires j < |LoadedFrames(files, coerce)|
    ensures exists f :: f in files && LoadOne(f, coerce) == Some(LoadedFrames(files, coerce)[j])
  {
    var init := files[..|files| - 1];
    var f := files[|files| - 1];
    if j < |LoadedFrames(init, coerce)| {
      LoadedFrameOrigin(init, coerce, j);
      var f' :| f' in init && LoadOne(f', coerce) == Some(LoadedFrames(init, coerce)[j]);
      assert f' in files;
    } else {
      assert f in files;
    }
  }

  lemma {:induction false} LoadedTotalRows(files: seq<SourceFile>, coerce: bool)
    ensures TotalRows(LoadedFrames(files, coerce)) == LoadedRowCount(files, coerce)
  {
    if files != [] {
      var init := files[..|files| - 1];
      var f := files[|files| - 1];
      LoadedTotalRows(init, coerce);
      var fs := LoadedFrames(files, coerce);
      if LoadOne(f, coerce).Some? {
        var g := LoadOne(f, coerce).value;
        assert |g.rows| == |f.content.value.rows| by {
          LoadOneRows(f, coerce);
        }
        assert fs == LoadedFrames(init, coerce) + [g];
        assert fs[..|fs| - 1] == LoadedFrames(init, coerce);
      }
    }
  }

  /** `row` is the normalised form of some row of some file that loaded. */
  ghost predicate FromSomeFile(row: Row, files: seq<SourceFile>, coerce: bool) {
    exists f, i :: f in files && f.content.Some? && Parse(f.name).Some? && 0 <= i < |f.content.value.rows| &&
      NormalizedFrom(row, f.content.value.rows[i], Parse(f.name).value, coerce)
  }

  /**
   * The combined table: as many rows as the loaded files together, and every row is a row of a
   * loaded file, tagged with the (group, gender, year) parsed from that file's name, its other
   * columns unchanged.
   */
  lemma CombinedTable(files: seq<SourceFile>, coerce: bool)
    requires forall f :: f in files && f.content.Some? ==> WellFormed(f.content.value)
    requires LoadedFrames(files, coerce) != []
    ensures |Concat(LoadedFrames(files, coerce)).value.rows| == LoadedRowCount(files, coerce)
    ensures forall k :: 0 <= k < |Concat(LoadedFrames(files, coerce)).value.rows| ==>
              FromSomeFile(Concat(LoadedFrames(files, coerce)).value.rows[k], files, coerce)
  {
    var fs := LoadedFrames(files, coerce);
    var t := Concat(fs).value;
    var cols := AllColumns(fs);
    ConcatRows(fs);
    LoadedTotalRows(files, coerce);
    forall k | 0 <= k < |t.rows|
      ensures FromSomeFile(t.rows[k], files, coerce)
    {
      var j, i :| 0 <= j < |fs| && 0 <= i < |fs[j].rows| && t.rows[k] == Fill(fs[j].rows[i], cols);
      LoadedFrameOrigin(files, coerce, j);
      var f :| f in files && LoadOne(f, coerce) == Some(fs[j]);
      LoadOneRows(f, coerce);
      ColumnsInAll(fs, j);
      var row := fs[j].rows[i];
      assert row.Keys == fs[j].columns;
      assert row.Keys <= cols;
      assert forall c :: c in row ==> t.rows[k][c] == row[c];
      assert NormalizedFrom(t.rows[k], f.content.value.rows[i], Parse(f.name).value, coerce);
      assert f in files && f.content.Some? && Parse(f.name).Some? && 0 <= i < |f.content.value.rows|;
    }
  }
}
