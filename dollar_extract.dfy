/**
 * `extract_and_save_data` (code/task4_code3.py): every CSV cell that holds the symbol contributes
 * the number written right after the first occurrence of the symbol that is followed by a digit;
 * the numbers, in row-major order, are cut into rows of five and at most `max_lines` rows are kept.
 * A file is modelled as its already-parsed rows of cells; the output file is the returned rows.
 */
module DollarExtract {
  import opened Wrappers
  import opened Strings
  import opened Decimal
  import opened Builtins

  // ---------------------------------------------------------------------------------------------
  // One cell: `re.search(re.escape(symbol) + r'(\d+)', cell)`

  /** The escaped symbol occurs at i and at least one ASCII digit follows it. */
  predicate MatchesAt(cell: string, symbol: string, i: int) {
    OccursAt(cell, symbol, i) && i + |symbol| < |cell| && IsDigit(cell[i + |symbol|])
  }

  /** The leftmost match at or after position i, as the regex search scans left to right. */
  function SearchFrom(cell: string, symbol: string, i: nat): (r: Option<nat>)
    requires i <= |cell|
    ensures r.Some? ==> i <= r.value && MatchesAt(cell, symbol, r.value)
    ensures r.Some? ==> forall j :: i <= j < r.value ==> !MatchesAt(cell, symbol, j)
    ensures r.None? ==> forall j :: i <= j ==> !MatchesAt(cell, symbol, j)
    decreases |cell| - i
  {
    if i == |cell| then None
    else if MatchesAt(cell, symbol, i) then Some(i)
    else SearchFrom(cell, symbol, i + 1)
  }

  function Search(cell: string, symbol: string): Option<nat> {
    SearchFrom(cell, symbol, 0)
  }

  /** `int(match.group(1))`: the greedy digit run after a match at i. */
  function MatchedNumber(cell: string, symbol: string, i: nat): (n: nat)
    requires MatchesAt(cell, symbol, i)
  {
    var start := i + |symbol|;
    Value(cell[start..start + DigitRun(cell, start)])
  }

  /**
   * The number a cell contributes (lines 14-18, the `symbol in cell` test included): there is one
   * exactly when some occurrence of the symbol is followed by a digit.
   */
  function CellNumber(cell: string, symbol: string): (r: Option<nat>)
    ensures r.Some? <==> exists i :: MatchesAt(cell, symbol, i)
  {
    assert (exists i :: MatchesAt(cell, symbol, i)) ==> Contains(cell, symbol) by {
      if exists i :: MatchesAt(cell, symbol, i) {
        var i :| MatchesAt(cell, symbol, i);
        assert 0 <= i <= |cell| && OccursAt(cell, symbol, i);
      }
    }
    if !Contains(cell, symbol) then None
    else match Search(cell, symbol)
      case None => None
      case Some(i) => Some(MatchedNumber(cell, symbol, i))
  }

  /**
   * The number is read at the leftmost occurrence of the symbol that a digit follows, from the
   * longest digit run there (which is never empty).
   */
  lemma CellNumberLeftmost(cell: string, symbol: string, i: nat)
    requires MatchesAt(cell, symbol, i)
    requires forall j :: 0 <= j < i ==> !MatchesAt(cell, symbol, j)
    ensures var start := i + |symbol|;
            && DigitRun(cell, start) > 0
            && CellNumber(cell, symbol) == Some(Value(cell[start..start + DigitRun(cell, start)]))
  {
    assert OccursAt(cell, symbol, i);
    assert Contains(cell, symbol);
    assert Search(cell, symbol) == Some(i);
  }

  /** A cell without the symbol, or whose every symbol is followed by a non-digit, contributes nothing. */
  lemma NoDigitAfterSymbol(cell: string, symbol: string)
    requires forall i :: OccursAt(cell, symbol, i) ==> i + |symbol| == |cell| || !IsDigit(cell[i + |symbol|])
    ensures CellNumber(cell, symbol) == None
  {
  }

  /** Only the first `$N` of a cell counts: "$7 $8" gives 7 alone. */
  lemma FirstMatchOnly()
    ensures CellNumber("$7 $8", "$") == Some(7)
  {
    var cell := "$7 $8";
    assert MatchesAt(cell, "$", 0) by {
      assert cell[0..1] == "$";
    }
    assert DigitRun(cell, 1) == 1 by {
      assert DigitRun(cell, 2) == 0;
    }
    CellNumberLeftmost(cell, "$", 0);
    assert cell[1..2] == "7";
    assert Value("7") == 7 by {
      assert "7"[..0] == [];
    }
  }

  // ---------------------------------------------------------------------------------------------
  // All cells, row by row (lines 8-18)

  /** The numbers of a row's cells, left to right. */
  function RowNumbers(cells: seq<string>, symbol: string): seq<nat> {
    if cells == [] then []
    else
      var last := cells[|cells| - 1];
      RowNumbers(cells[..|cells| - 1], symbol) + CellNumbers(last, symbol)
  }

  /** `all_numbers` after the whole file: the rows' numbers, row after row, each the number of one of their cells. */
  function Extracted(rows: seq<seq<string>>, symbol: string): (ns: seq<nat>)
    ensures forall n :: n in ns ==> exists r, c :: r in rows && c in r && CellNumber(c, symbol) == Some(n)
  {
    if rows == [] then []
    else
      var init := Extracted(rows[..|rows| - 1], symbol);
      FromCellsStep(init, rows, symbol);
      init + RowNumbers(rows[|rows| - 1], symbol)
  }

  /** The numbers of one cell, as a list of zero or one. */
  function CellNumbers(cell: string, symbol: string): seq<nat> {
    match CellNumber(cell, symbol) case Some(n) => [n] case None => []
  }

  lemma RowNumbersPrefix(cells: seq<string>, j: nat, symbol: string)
    requires j < |cells|
    ensures RowNumbers(cells[..j + 1], symbol) == RowNumbers(cells[..j], symbol) + CellNumbers(cells[j], symbol)
  {
    assert cells[..j + 1][..j] == cells[..j];
  }

  lemma ExtractedPrefix(rows: seq<seq<string>>, i: nat, symbol: string)
    requires i < |rows|
    ensures Extracted(rows[..i + 1], symbol) == Extracted(rows[..i], symbol) + RowNumbers(rows[i], symbol)
  {
    assert rows[..i + 1][..i] == rows[..i];
  }

  /** Lines 14-18 for one cell: its number, if any, appended to `all_numbers`. */
  method AppendCellNumber(all: seq<nat>, cell: string, symbol: string) returns (all': seq<nat>)
    ensures all' == all + CellNumbers(cell, symbol)
  {
    all' := all;
    if Contains(cell, symbol) {
      var m := Search(cell, symbol);
      if m.Some? {
        var number := MatchedNumber(cell, symbol, m.value);
        all' := all' + [number];
      }
    }
  }

  /** The nested loops of lines 11-18, appending to `all_numbers`. */
  method ExtractNumbers(rows: seq<seq<string>>, symbol: string) returns (all: seq<nat>)
    ensures all == Extracted(rows, symbol)
  {
    all := [];
    var i := 0;
    while i < |rows|
      invariant 0 <= i <= |rows|
      invariant all == Extracted(rows[..i], symbol)
    {
      var row := rows[i];
      ghost var prefix := all;
      var j := 0;
      assert row[..0] == [];
      while j < |row|
        invariant 0 <= j <= |row|
        invariant all == prefix + RowNumbers(row[..j], symbol)
      {
        RowNumbersPrefix(row, j, symbol);
        all := AppendCellNumber(all, row[j], symbol);
        j := j + 1;
      }
      assert row[..j] == row;
      ExtractedPrefix(rows, i, symbol);
      i := i + 1;
    }
    assert rows[..i] == rows;
  }

  /** The numbers of rows a + b are those of a followed by those of b: row-major order. */
  lemma {:induction false} ExtractedAppend(a: seq<seq<string>>, b: seq<seq<string>>, symbol: string)
    ensures Extracted(a + b, symbol) == Extracted(a, symbol) + Extracted(b, symbol)
    decreases |b|
  {
    if b != [] {
      var b' := b[..|b| - 1];
      assert (a + b)[..|a + b| - 1] == a + b';
      ExtractedAppend(a, b', symbol);
    } else {
      assert a + b == a;
    }
  }

  /** Each cell contributes at most one number. */
  lemma {:induction false} RowNumbersAtMostCells(cells: seq<string>, symbol: string)
    ensures |RowNumbers(cells, symbol)| <= |cells|
    decreases |cells|
  {
    if cells != [] {
      RowNumbersAtMostCells(cells[..|cells| - 1], symbol);
    }
  }

  /** Every extracted number is the number of one cell of one row. */
  lemma {:induction false} RowNumbersFromCells(cells: seq<string>, symbol: string)
    ensures forall n :: n in RowNumbers(cells, symbol) ==> exists c :: c in cells && CellNumber(c, symbol) == Some(n)
    decreases |cells|
  {
    if cells != [] {
      var init := cells[..|cells| - 1];
      RowNumbersFromCells(init, symbol);
      forall n | n in RowNumbers(cells, symbol) ensures exists c :: c in cells && CellNumber(c, symbol) == Some(n) {
        if n in RowNumbers(init, symbol) {
          var c :| c in init && CellNumber(c, symbol) == Some(n);
          assert c in cells;
        } else {
          assert cells[|cells| - 1] in cells;
        }
      }
    }
  }

  /** The last row's numbers come from its cells, so numbers from the earlier rows' cells stay traceable. */
  lemma FromCellsStep(prev: seq<nat>, rows: seq<seq<string>>, symbol: string)
    requires rows != []
    requires forall n :: n in prev ==> exists r, c :: r in rows[..|rows| - 1] && c in r && CellNumber(c, symbol) == Some(n)
    ensures forall n :: n in prev + RowNumbers(rows[|rows| - 1], symbol) ==>
              exists r, c :: r in rows && c in r && CellNumber(c, symbol) == Some(n)
  {
    var last := rows[|rows| - 1];
    RowNumbersFromCells(last, symbol);
    forall n | n in prev + RowNumbers(last, symbol) ensures exists r, c :: r in rows && c in r && CellNumber(c, symbol) == Some(n) {
      if n in prev {
        var r, c :| r in rows[..|rows| - 1] && c in r && CellNumber(c, symbol) == Some(n);
        assert r in rows;
      } else {
        var c :| c in last && CellNumber(c, symbol) == Some(n);
        assert last in rows;
      }
    }
  }

  // ---------------------------------------------------------------------------------------------
  // Rows of five, at most max_lines of them (line 22)

  const ChunkSize := 5

  /** `[xs[i:i+5] for i in range(0, len(xs), 5)]`. */
  function Chunks(xs: seq<nat>): (cs: seq<seq<nat>>)
    ensures |cs| == (|xs| + ChunkSize - 1) / ChunkSize
    decreases |xs|
  {
    if xs == [] then []
    else
      var k := Min(ChunkSize, |xs|);
      [xs[..k]] + Chunks(xs[k..])
  }

  /** Chunk i is the slice starting at 5i, as the comprehension builds it. */
  lemma {:induction false} ChunkAt(xs: seq<nat>, i: nat)
    requires i < |Chunks(xs)|
    ensures 5 * i < |xs| && Chunks(xs)[i] == xs[5 * i..Min(5 * i + 5, |xs|)]
    decreases i
  {
    if i > 0 {
      var k := Min(ChunkSize, |xs|);
      ChunkAt(xs[k..], i - 1);
      assert xs[k..][5 * (i - 1)..Min(5 * (i - 1) + 5, |xs| - k)] == xs[5 * i..Min(5 * i + 5, |xs|)];
    }
  }

  /** Every row holds one to five numbers, and every row but the last holds exactly five. */
  lemma {:induction false} ChunkSizes(xs: seq<nat>)
    ensures forall i :: 0 <= i < |Chunks(xs)| ==> 1 <= |Chunks(xs)[i]| <= ChunkSize
    ensures forall i :: 0 <= i < |Chunks(xs)| - 1 ==> |Chunks(xs)[i]| == ChunkSize
    decreases |xs|
  {
    if xs != [] {
      var k := Min(ChunkSize, |xs|);
      ChunkSizes(xs[k..]);
    }
  }

  function Flatten(rows: seq<seq<nat>>): seq<nat> {
    if rows == [] then [] else rows[0] + Flatten(rows[1..])
  }

  /** Reading the first m rows back gives the first 5m numbers (all of them when there are fewer). */
  lemma {:induction false} FlattenChunks(xs: seq<nat>, m: nat)
    requires m <= |Chunks(xs)|
    ensures Flatten(Chunks(xs)[..m]) == xs[..Min(ChunkSize * m, |xs|)]
    decreases m
  {
    if m > 0 {
      var k := Min(ChunkSize, |xs|);
      var cs := Chunks(xs);
      assert cs[..m][1..] == Chunks(xs[k..])[..m - 1];
      FlattenChunks(xs[k..], m - 1);
      assert xs[..Min(ChunkSize * m, |xs|)] == xs[..k] + xs[k..][..Min(ChunkSize * (m - 1), |xs| - k)];
    }
  }

  /**
   * The length of Python's `rows[:m]` for n rows: the first m rows, or all of them when there are
   * fewer; a negative m drops |m| rows from the end, or all of them when there are fewer.
   */
  function PrefixLength(n: nat, m: int): (p: nat)
    ensures p <= n
    ensures m >= 0 ==> p <= m && (p < m ==> p == n)
    ensures m < 0 ==> n - p == Min(-m, n)
  {
    if m >= 0 then Min(m, n) else if n + m >= 0 then n + m else 0
  }

  /** `results` for the extracted numbers xs and `max_lines` m. */
  function Results(xs: seq<nat>, maxLines: int): seq<seq<nat>> {
    var cs := Chunks(xs);
    cs[..PrefixLength(|cs|, maxLines)]
  }

  /**
   * `extract_and_save_data` on the parsed rows of the input file; the result is what the output
   * file's writer receives. The rows always read back to a prefix of the numbers, five per row.
   * For a non-negative `max_lines` they are the first min(n, 5 * max_lines) numbers in
   * min(ceil(n / 5), max_lines) rows; a negative `max_lines` drops that many rows from the end.
   */
  method ExtractAndSave(rows: seq<seq<string>>, symbol: string, maxLines: int) returns (results: seq<seq<nat>>)
    ensures var all := Extracted(rows, symbol);
            && results == Results(all, maxLines)
            && (forall i :: 0 <= i < |results| ==> 1 <= |results[i]| <= ChunkSize)
            && Flatten(results) == all[..Min(|all|, ChunkSize * |results|)]
            && (maxLines >= 0 ==> |results| == Min((|all| + ChunkSize - 1) / ChunkSize, maxLines))
            && (maxLines >= 0 ==> Flatten(results) == all[..Min(|all|, ChunkSize * maxLines)])
            && (maxLines < 0 ==> |results| == |Chunks(all)| - Min(-maxLines, |Chunks(all)|))
  {
    var all := ExtractNumbers(rows, symbol);
    var cs := Chunks(all);
    results := cs[..PrefixLength(|cs|, maxLines)];
    ChunkSizes(all);
    FlattenChunks(all, |results|);
    if maxLines >= 0 && maxLines < |cs| {
      assert ChunkSize * maxLines <= |all|;
    }
  }
}
