/**
 * `load_data` of task3_code1.py and task3_code2.py. These loaders do not discover their files: they
 * name them from the year list (`男_实验组_第{y}年.csv`, then `女_实验组_第{y}年.csv`), read the male
 * file before the female one, and tag each frame with its year (task3_code2.py also with the
 * gender). Nothing is caught, so the first missing file aborts the whole load.
 * `pd.read_csv` is outside the model: the directory maps each file present to its parsed frame.
 */
module SalaryLoad {
  import opened Wrappers
  import opened FilenameMeta
  import opened Table

  type Directory = map<string, Frame>

  datatype LoadError =
    | FileNotFound(name: string)   // `pd.read_csv` of a name that is not in the directory
    | NoObjectsToConcatenate       // `pd.concat([])` for an empty year list

  datatype Outcome<T> = Ok(value: T) | Err(error: LoadError)

  /** Both files of every year are in the directory. */
  predicate AllPresent(dir: Directory, years: seq<nat>) {
    forall i, g :: 0 <= i < |years| ==> ExperimentalFileName(g, years[i]) in dir
  }

  /** The first file, in reading order, that the directory does not have. */
  function FirstMissing(dir: Directory, years: seq<nat>): (r: Option<string>)
    ensures r.None? <==> AllPresent(dir, years)
    ensures r.Some? ==> r.value !in dir
  {
    if years == [] then None
    else
      var init := years[..|years| - 1];
      var y := years[|years| - 1];
      assert forall i :: 0 <= i < |init| ==> init[i] == years[i];
      match FirstMissing(dir, init)
      case Some(n) => Some(n)
      case None =>
        if ExperimentalFileName(Male, y) !in dir then Some(ExperimentalFileName(Male, y))
        else if ExperimentalFileName(Female, y) !in dir then Some(ExperimentalFileName(Female, y))
        else
          assert forall g :: ExperimentalFileName(g, y) in dir by {
            forall g ensures ExperimentalFileName(g, y) in dir { if g == Male {} }
          }
          None
  }

  /**
   * The reported file is the one the loop reads first among the missing: every file of the earlier
   * years is there, and when it is a female file, so is the male file of its year.
   */
  lemma {:induction false} FirstMissingIsFirst(dir: Directory, years: seq<nat>)
    requires FirstMissing(dir, years).Some?
    ensures exists i, g :: 0 <= i < |years| && FirstMissing(dir, years) == Some(ExperimentalFileName(g, years[i])) &&
              AllPresent(dir, years[..i]) && (g == Female ==> ExperimentalFileName(Male, years[i]) in dir)
  {
    var init := years[..|years| - 1];
    var last := |years| - 1;
    if FirstMissing(dir, init).Some? {
      FirstMissingIsFirst(dir, init);
      var i, g :| 0 <= i < |init| && FirstMissing(dir, init) == Some(ExperimentalFileName(g, init[i])) &&
                  AllPresent(dir, init[..i]) && (g == Female ==> ExperimentalFileName(Male, init[i]) in dir);
      assert init[..i] == years[..i];
      assert init[i] == years[i];
    } else {
      assert years[..last] == init;
      if ExperimentalFileName(Male, years[last]) !in dir {
        assert FirstMissing(dir, years) == Some(ExperimentalFileName(Male, years[last]));
      } else {
        assert FirstMissing(dir, years) == Some(ExperimentalFileName(Female, years[last]));
      }
    }
  }

  /** Once a prefix of the years misses a file, the whole list misses the same file first. */
  lemma {:induction false} FirstMissingPrefix(dir: Directory, years: seq<nat>, k: nat)
    requires k <= |years| && FirstMissing(dir, years[..k]).Some?
    ensures FirstMissing(dir, years) == FirstMissing(dir, years[..k])
    decreases |years|
  {
    if k == |years| {
      assert years[..k] == years;
    } else {
      var init := years[..|years| - 1];
      assert init[..k] == years[..k];
      FirstMissingPrefix(dir, init, k);
    }
  }

  /** `df['Year'] = year`: the column is added, or overwritten, on every row. */
  function WithYear(df: Frame, year: nat): Frame {
    Frame(df.columns + {YearColumn}, seq(|df.rows|, i requires 0 <= i < |df.rows| => df.rows[i][YearColumn := Num(year)]))
  }

  /** `df['Year'] = year; df['Gender'] = gender`. */
  function WithYearAndGender(df: Frame, year: nat, gender: Gender): Frame {
    Frame(df.columns + {YearColumn, GenderColumn},
          seq(|df.rows|, i requires 0 <= i < |df.rows| => df.rows[i][YearColumn := Num(year)][GenderColumn := Text(GenderName(gender))]))
  }

  /** task3_code1.py's `male_dfs` (or `female_dfs`): each year's file of one gender, tagged with its year. */
  function YearFrames(dir: Directory, years: seq<nat>, gender: Gender): (fs: seq<Frame>)
    requires AllPresent(dir, years)
    ensures |fs| == |years|
  {
    if years == [] then []
    else
      var y := years[|years| - 1];
      YearFrames(dir, years[..|years| - 1], gender) + [WithYear(dir[ExperimentalFileName(gender, y)], y)]
  }

  /** task3_code2.py's `all_data`: per year the male frame, then the female frame, each tagged with year and gender. */
  function InterleavedFrames(dir: Directory, years: seq<nat>): (fs: seq<Frame>)
    requires AllPresent(dir, years)
    ensures |fs| == 2 * |years|
  {
    if years == [] then []
    else
      var y := years[|years| - 1];
      InterleavedFrames(dir, years[..|years| - 1]) +
        [WithYearAndGender(dir[ExperimentalFileName(Male, y)], y, Male),
         WithYearAndGender(dir[ExperimentalFileName(Female, y)], y, Female)]
  }

  /** What task3_code1.py's `load_data` returns: the male and the female table, or the error that aborts it. */
  function SplitData(dir: Directory, years: seq<nat>): Outcome<(Frame, Frame)> {
    match FirstMissing(dir, years)
    case Some(name) => Err(FileNotFound(name))
    case None =>
      if years == [] then Err(NoObjectsToConcatenate)
      else Ok((Concat(YearFrames(dir, years, Male)).value, Concat(YearFrames(dir, years, Female)).value))
  }

  /** What task3_code2.py's `load_data` returns: one table of both genders, or the error that aborts it. */
  function CombinedData(dir: Directory, years: seq<nat>): Outcome<Frame> {
    match FirstMissing(dir, years)
    case Some(name) => Err(FileNotFound(name))
    case None =>
      if years == [] then Err(NoObjectsToConcatenate)
      else Ok(Concat(InterleavedFrames(dir, years)).value)
  }

  /** task3_code1.py:19-36. */
  method LoadData(dir: Directory, years: seq<nat>) returns (r: Outcome<(Frame, Frame)>)
    ensures r == SplitData(dir, years)
  {
    var maleDfs: seq<Frame> := [];
    var femaleDfs: seq<Frame> := [];
    for i := 0 to |years|
      invariant FirstMissing(dir, years[..i]).None?
      invariant maleDfs == YearFrames(dir, years[..i], Male)
      invariant femaleDfs == YearFrames(dir, years[..i], Female)
    {
      var year := years[i];
      assert years[..i + 1][..i] == years[..i];
      var maleFile := ExperimentalFileName(Male, year);
      if maleFile !in dir {
        FirstMissingPrefix(dir, years, i + 1);
        return Err(FileNotFound(maleFile));
      }
      maleDfs := maleDfs + [WithYear(dir[maleFile], year)];
      var femaleFile := ExperimentalFileName(Female, year);
      if femaleFile !in dir {
        FirstMissingPrefix(dir, years, i + 1);
        return Err(FileNotFound(femaleFile));
      }
      femaleDfs := femaleDfs + [WithYear(dir[femaleFile], year)];
    }
    assert years[..|years|] == years;
    if maleDfs == [] {
      return Err(NoObjectsToConcatenate);
    }
    r := Ok((Concat(maleDfs).value, Concat(femaleDfs).value));
  }

  /** task3_code2.py:11-28. */
  method LoadCombinedData(dir: Directory, years: seq<nat>) returns (r: Outcome<Frame>)
    ensures r == CombinedData(dir, years)
  {
    var allData: seq<Frame> := [];
    for i := 0 to |years|
      invariant FirstMissing(dir, years[..i]).None?
      invariant allData == InterleavedFrames(dir, years[..i])
    {
      var year := years[i];
      assert years[..i + 1][..i] == years[..i];
      var maleFile := ExperimentalFileName(Male, year);
      if maleFile !in dir {
        FirstMissingPrefix(dir, years, i + 1);
        return Err(FileNotFound(maleFile));
      }
      var maleDf := WithYearAndGender(dir[maleFile], year, Male);
      var femaleFile := ExperimentalFileName(Female, year);
      if femaleFile !in dir {
        FirstMissingPrefix(dir, years, i + 1);
        return Err(FileNotFound(femaleFile));
      }
      var femaleDf := WithYearAndGender(dir[femaleFile], year, Female);
      allData := allData + [maleDf, femaleDf];
    }
    assert years[..|years|] == years;
    match Concat(allData)
    case None => r := Err(NoObjectsToConcatenate);
    case Some(t) => r := Ok(t);
  }

  // ---------------------------------------------------------------------------------------------
  // The loaded tables

  lemma AllPresentPrefix(dir: Directory, years: seq<nat>, k: nat)
    requires AllPresent(dir, years) && k <= |years|
    ensures AllPresent(dir, years[..k])
  {
    assert forall i :: 0 <= i < k ==> years[..k][i] == years[i];
  }

  lemma {:induction false} YearFramesAt(dir: Directory, years: seq<nat>, gender: Gender, j: nat)
    requires AllPresent(dir, years) && j < |years|
    ensures YearFrames(dir, years, gender)[j] == WithYear(dir[ExperimentalFileName(gender, years[j])], years[j])
  {
    var init := years[..|years| - 1];
    AllPresentPrefix(dir, years, |init|);
    var fs := YearFrames(dir, years, gender);
    if j < |init| {
      YearFramesAt(dir, init, gender, j);
      assert init[j] == years[j];
      assert fs[j] == YearFrames(dir, init, gender)[j];
    } else {
      var y := years[|years| - 1];
      assert fs == YearFrames(dir, init, gender) + [WithYear(dir[ExperimentalFileName(gender, y)], y)];
    }
  }

  /** Which gender the m-th frame of task3_code2.py's `all_data` holds: male frames at even positions. */
  function GenderAt(m: nat): Gender {
    if m % 2 == 0 then Male else Female
  }

  lemma {:induction false} InterleavedFramesAt(dir: Directory, years: seq<nat>, m: nat)
    requires AllPresent(dir, years) && m < 2 * |years|
    ensures InterleavedFrames(dir, years)[m] ==
              WithYearAndGender(dir[ExperimentalFileName(GenderAt(m), years[m / 2])], years[m / 2], GenderAt(m))
  {
    var init := years[..|years| - 1];
    AllPresentPrefix(dir, years, |init|);
    var fs := InterleavedFrames(dir, years);
    if m < 2 * |init| {
      InterleavedFramesAt(dir, init, m);
      assert init[m / 2] == years[m / 2];
      assert fs[m] == InterleavedFrames(dir, init)[m];
    } else {
      var y := years[|years| - 1];
      var male := WithYearAndGender(dir[ExperimentalFileName(Male, y)], y, Male);
      var female := WithYearAndGender(dir[ExperimentalFileName(Female, y)], y, Female);
      assert fs == InterleavedFrames(dir, init) + [male, female];
      assert m / 2 == |years| - 1;
      if m % 2 == 0 {
        assert fs[m] == male;
      } else {
        assert fs[m] == female;
      }
    }
  }

  /** The number of rows in the files of one gender, over the years. */
  function FileRows(dir: Directory, years: seq<nat>, gender: Gender): nat
    requires AllPresent(dir, years)
  {
    if years == [] then 0
    else
      AllPresentPrefix(dir, years, |years| - 1);
      FileRows(dir, years[..|years| - 1], gender) + |dir[ExperimentalFileName(gender, years[|years| - 1])].rows|
  }

  lemma {:induction false} YearFramesTotalRows(dir: Directory, years: seq<nat>, gender: Gender)
    requires AllPresent(dir, years)
    ensures TotalRows(YearFrames(dir, years, gender)) == FileRows(dir, years, gender)
  {
    if years != [] {
      var init := years[..|years| - 1];
      AllPresentPrefix(dir, years, |init|);
      YearFramesTotalRows(dir, init, gender);
      var fs := YearFrames(dir, years, gender);
      assert fs[..|fs| - 1] == YearFrames(dir, init, gender);
    }
  }

  lemma {:induction false} InterleavedFramesTotalRows(dir: Directory, years: seq<nat>)
    requires AllPresent(dir, years)
    ensures TotalRows(InterleavedFrames(dir, years)) == FileRows(dir, years, Male) + FileRows(dir, years, Female)
  {
    if years != [] {
      var init := years[..|years| - 1];
      AllPresentPrefix(dir, years, |init|);
      InterleavedFramesTotalRows(dir, init);
      var fs := InterleavedFrames(dir, years);
      assert fs[..|fs| - 1][..|fs| - 2] == InterleavedFrames(dir, init);
    }
  }

  /** A row of a year-tagged frame: the year set, every other cell as in the file. */
  lemma WithYearRow(df: Frame, year: nat, i: nat)
    requires i < |df.rows|
    ensures YearColumn in WithYear(df, year).columns
    ensures Cell(WithYear(df, year).rows[i], YearColumn) == Num(year)
    ensures forall c :: c != YearColumn ==> Cell(WithYear(df, year).rows[i], c) == Cell(df.rows[i], c)
  {
  }

  /** A row of a year- and gender-tagged frame: both tags set, every other cell as in the file. */
  lemma WithYearAndGenderRow(df: Frame, year: nat, gender: Gender, i: nat)
    requires i < |df.rows|
    ensures YearColumn in WithYearAndGender(df, year, gender).columns && GenderColumn in WithYearAndGender(df, year, gender).columns
    ensures Cell(WithYearAndGender(df, year, gender).rows[i], YearColumn) == Num(year)
    ensures Cell(WithYearAndGender(df, year, gender).rows[i], GenderColumn) == Text(GenderName(gender))
    ensures forall c :: c != YearColumn && c != GenderColumn ==>
              Cell(WithYearAndGender(df, year, gender).rows[i], c) == Cell(df.rows[i], c)
  {
    WithYearRow(df, year, i);
  }

  /** `row` is a row of the file of `gender` for one of the years, tagged with that year, its other cells unchanged. */
  ghost predicate FromYearFile(row: Row, dir: Directory, years: seq<nat>, gender: Gender) {
    exists j, src :: 0 <= j < |years| && ExperimentalFileName(gender, years[j]) in dir &&
      src in dir[ExperimentalFileName(gender, years[j])].rows && Cell(row, YearColumn) == Num(years[j]) &&
      forall c :: c in dir[ExperimentalFileName(gender, years[j])].columns && c != YearColumn ==> Cell(row, c) == Cell(src, c)
  }

  lemma YearTableRow(dir: Directory, years: seq<nat>, gender: Gender, k: nat)
    requires AllPresent(dir, years) && years != []
    requires k < |Concat(YearFrames(dir, years, gender)).value.rows|
    ensures FromYearFile(Concat(YearFrames(dir, years, gender)).value.rows[k], dir, years, gender)
  {
    var fs := YearFrames(dir, years, gender);
    ConcatCells(fs, k);
    var j, i :| 0 <= j < |fs| && 0 <= i < |fs[j].rows| &&
                forall c :: c in AllColumns(fs) ==> Cell(Concat(fs).value.rows[k], c) == Cell(fs[j].rows[i], c);
    var row := Concat(fs).value.rows[k];
    var src := dir[ExperimentalFileName(gender, years[j])];
    var t := WithYear(src, years[j]);
    YearFramesAt(dir, years, gender, j);
    ColumnsInAll(fs, j);
    WithYearRow(src, years[j], i);
    assert Cell(row, YearColumn) == Num(years[j]) by {
      assert YearColumn in AllColumns(fs);
    }
    forall c | c in src.columns && c != YearColumn
      ensures Cell(row, c) == Cell(src.rows[i], c)
    {
      assert c in AllColumns(fs);
    }
    assert src.rows[i] in src.rows;
  }

  /**
   * One gender's table of task3_code1.py has as many rows as that gender's files, and each of its rows
   * is a row of one of those files, tagged with that file's year.
   */
  lemma YearTableRows(dir: Directory, years: seq<nat>, gender: Gender)
    requires AllPresent(dir, years) && years != []
    ensures |Concat(YearFrames(dir, years, gender)).value.rows| == FileRows(dir, years, gender)
    ensures forall k :: 0 <= k < |Concat(YearFrames(dir, years, gender)).value.rows| ==>
              FromYearFile(Concat(YearFrames(dir, years, gender)).value.rows[k], dir, years, gender)
  {
    var fs := YearFrames(dir, years, gender);
    ConcatRows(fs);
    YearFramesTotalRows(dir, years, gender);
    forall k | 0 <= k < |Concat(fs).value.rows|
      ensures FromYearFile(Concat(fs).value.rows[k], dir, years, gender)
    {
      YearTableRow(dir, years, gender, k);
    }
  }

  /** task3_code1.py: the male table holds exactly the rows of the male files, each tagged with its file's year; so does the female table. */
  lemma SplitDataRows(dir: Directory, years: seq<nat>)
    requires SplitData(dir, years).Ok?
    ensures AllPresent(dir, years)
    ensures |SplitData(dir, years).value.0.rows| == FileRows(dir, years, Male)
    ensures |SplitData(dir, years).value.1.rows| == FileRows(dir, years, Female)
    ensures forall k :: 0 <= k < |SplitData(dir, years).value.0.rows| ==>
              FromYearFile(SplitData(dir, years).value.0.rows[k], dir, years, Male)
    ensures forall k :: 0 <= k < |SplitData(dir, years).value.1.rows| ==>
              FromYearFile(SplitData(dir, years).value.1.rows[k], dir, years, Female)
  {
    YearTableRows(dir, years, Male);
    YearTableRows(dir, years, Female);
  }

  /**
   * `row` is row i of the file named for (gender, year j), tagged with exactly the year and gender
   * that the shared filename rule reads from that name, its other cells unchanged.
   */
  ghost predicate FromNamedFile(row: Row, dir: Directory, years: seq<nat>) {
    exists j, g, src :: 0 <= j < |years| && ExperimentalFileName(g, years[j]) in dir &&
      var name := ExperimentalFileName(g, years[j]);
      src in dir[name].rows &&
      Parse(name) == Some(Meta(Experimental, g, years[j])) &&
      Cell(row, YearColumn) == Num(Parse(name).value.year) &&
      Cell(row, GenderColumn) == Text(GenderName(Parse(name).value.gender)) &&
      forall c :: c in dir[name].columns && c != YearColumn && c != GenderColumn ==> Cell(row, c) == Cell(src, c)
  }

  lemma CombinedTableRow(dir: Directory, years: seq<nat>, k: nat)
    requires AllPresent(dir, years) && years != []
    requires k < |Concat(InterleavedFrames(dir, years)).value.rows|
    ensures FromNamedFile(Concat(InterleavedFrames(dir, years)).value.rows[k], dir, years)
  {
    var fs := InterleavedFrames(dir, years);
    ConcatCells(fs, k);
    var m, i :| 0 <= m < |fs| && 0 <= i < |fs[m].rows| &&
                forall c :: c in AllColumns(fs) ==> Cell(Concat(fs).value.rows[k], c) == Cell(fs[m].rows[i], c);
    var row := Concat(fs).value.rows[k];
    var j, g := m / 2, GenderAt(m);
    var name := ExperimentalFileName(g, years[j]);
    var src := dir[name];
    InterleavedFramesAt(dir, years, m);
    ColumnsInAll(fs, m);
    WithYearAndGenderRow(src, years[j], g, i);
    assert Cell(row, YearColumn) == Num(years[j]) && Cell(row, GenderColumn) == Text(GenderName(g)) by {
      assert YearColumn in AllColumns(fs) && GenderColumn in AllColumns(fs);
    }
    forall c | c in src.columns && c != YearColumn && c != GenderColumn
      ensures Cell(row, c) == Cell(src.rows[i], c)
    {
      assert c in AllColumns(fs);
    }
    FromNamedFileIntro(row, dir, years, j, g, i);
  }

  lemma FromNamedFileIntro(row: Row, dir: Directory, years: seq<nat>, j: nat, g: Gender, i: nat)
    requires j < |years| && ExperimentalFileName(g, years[j]) in dir
    requires i < |dir[ExperimentalFileName(g, years[j])].rows|
    requires Cell(row, YearColumn) == Num(years[j]) && Cell(row, GenderColumn) == Text(GenderName(g))
    requires forall c :: c in dir[ExperimentalFileName(g, years[j])].columns && c != YearColumn && c != GenderColumn ==>
               Cell(row, c) == Cell(dir[ExperimentalFileName(g, years[j])].rows[i], c)
    ensures FromNamedFile(row, dir, years)
  {
    var name := ExperimentalFileName(g, years[j]);
    var src := dir[name].rows[i];
    ExperimentalFileNameRoundTrip(g, years[j]);
    assert src in dir[name].rows;
  }

  /** task3_code2.py: every row of the table is a row of one of the files, tagged as its name parses. */
  lemma CombinedDataRows(dir: Directory, years: seq<nat>)
    requires CombinedData(dir, years).Ok?
    ensures forall k :: 0 <= k < |CombinedData(dir, years).value.rows| ==>
              FromNamedFile(CombinedData(dir, years).value.rows[k], dir, years)
  {
    forall k | 0 <= k < |CombinedData(dir, years).value.rows|
      ensures FromNamedFile(CombinedData(dir, years).value.rows[k], dir, years)
    {
      CombinedTableRow(dir, years, k);
    }
  }

  /** A row read from a file named for some year of `years` carries that year. */
  lemma FromNamedFileYear(row: Row, dir: Directory, years: seq<nat>)
    requires FromNamedFile(row, dir, years)
    ensures Cell(row, YearColumn).Num? && Cell(row, YearColumn).n in years
  {
    var j, g, src :| 0 <= j < |years| && ExperimentalFileName(g, years[j]) in dir &&
      var name := ExperimentalFileName(g, years[j]);
      src in dir[name].rows &&
      Parse(name) == Some(Meta(Experimental, g, years[j])) &&
      Cell(row, YearColumn) == Num(Parse(name).value.year) &&
      Cell(row, GenderColumn) == Text(GenderName(Parse(name).value.gender)) &&
      forall c :: c in dir[name].columns && c != YearColumn && c != GenderColumn ==> Cell(row, c) == Cell(src, c);
    assert years[j] in years;
  }

  /** task3_code2.py: every row of the table carries one of the requested years. */
  lemma CombinedDataYears(dir: Directory, years: seq<nat>)
    requires CombinedData(dir, years).Ok?
    ensures forall r :: r in CombinedData(dir, years).value.rows ==> Cell(r, YearColumn).Num? && Cell(r, YearColumn).n in years
  {
    var rows := CombinedData(dir, years).value.rows;
    CombinedDataRows(dir, years);
    forall r | r in rows ensures Cell(r, YearColumn).Num? && Cell(r, YearColumn).n in years {
      var k :| 0 <= k < |rows| && rows[k] == r;
      FromNamedFileYear(rows[k], dir, years);
    }
  }

  /** task3_code2.py: the table has the rows of every male and every female file. */
  lemma CombinedDataRowCount(dir: Directory, years: seq<nat>)
    requires CombinedData(dir, years).Ok?
    ensures AllPresent(dir, years)
    ensures |CombinedData(dir, years).value.rows| == FileRows(dir, years, Male) + FileRows(dir, years, Female)
  {
    var fs := InterleavedFrames(dir, years);
    ConcatRows(fs);
    InterleavedFramesTotalRows(dir, years);
  }
}
