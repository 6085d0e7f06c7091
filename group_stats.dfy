/**
 * Column-wise reductions over a selection of rows, as pandas computes them: the numeric cells of a
 * column and their mean (NaN skipped), the text cells of a column, and how often a text occurs.
 */
module GroupStats {
  import opened Wrappers
  import opened Table
  import opened Stats

  /** The numeric cells of a column, in row order (pandas `mean` skips NaN). */
  function Numbers(rows: seq<Row>, col: string): (ns: seq<real>)
    ensures |ns| <= |rows|
    ensures forall r :: r in rows && Cell(r, col).Num? ==> Cell(r, col).n as real in ns
    ensures forall x :: x in ns ==> exists r :: r in rows && Cell(r, col).Num? && x == Cell(r, col).n as real
  {
    if rows == [] then []
    else
      var init := Numbers(rows[..|rows| - 1], col);
      var last := rows[|rows| - 1];
      assert rows == rows[..|rows| - 1] + [last];
      match Cell(last, col)
      case Num(n) => init + [n as real]
      case _ => init
  }

  /** A single row contributes its value when it is numeric and nothing otherwise. */
  lemma NumbersOne(r: Row, col: string)
    ensures Numbers([r], col) == if Cell(r, col).Num? then [Cell(r, col).n as real] else []
  {
    assert [r][..0] == [];
  }

  /** The numbers of a + b are those of a followed by those of b. */
  lemma {:induction false} NumbersAppend(a: seq<Row>, b: seq<Row>, col: string)
    ensures Numbers(a + b, col) == Numbers(a, col) + Numbers(b, col)
    decreases |b|
  {
    if b == [] {
      assert a + b == a;
    } else {
      var b' := b[..|b| - 1];
      assert (a + b)[..|a + b| - 1] == a + b';
      assert (a + b)[|a + b| - 1] == b[|b| - 1];
      NumbersAppend(a, b', col);
    }
  }

  /** How many rows match the key and hold a number in the metric column. */
  function MatchCount(rows: seq<Row>, key: Key, metric: string): nat {
    if rows == [] then 0
    else (if Matches(rows[0], key) && Cell(rows[0], metric).Num? then 1 else 0) + MatchCount(rows[1..], key, metric)
  }

  /** The sum of the metric over the rows that match the key and hold a number there. */
  function MatchSum(rows: seq<Row>, key: Key, metric: string): real {
    if rows == [] then 0.0
    else (if Matches(rows[0], key) && Cell(rows[0], metric).Num? then Cell(rows[0], metric).n as real else 0.0)
         + MatchSum(rows[1..], key, metric)
  }

  /** What one row contributes to a group mean: its value when it matches and is numeric. */
  lemma MatchOne(r: Row, key: Key, metric: string)
    ensures Numbers(SelectKey([r], key), metric) ==
              if Matches(r, key) && Cell(r, metric).Num? then [Cell(r, metric).n as real] else []
  {
    SelectKeyOne(r, key);
    NumbersOne(r, metric);
  }

  /** The rows a + b contribute a's values followed by b's. */
  lemma MatchAppend(a: seq<Row>, b: seq<Row>, key: Key, metric: string)
    ensures Numbers(SelectKey(a + b, key), metric) == Numbers(SelectKey(a, key), metric) + Numbers(SelectKey(b, key), metric)
  {
    SelectKeyAppend(a, b, key);
    NumbersAppend(SelectKey(a, key), SelectKey(b, key), metric);
  }

  lemma MatchCountStep(r: Row, rest: seq<Row>, key: Key, metric: string)
    requires |Numbers(SelectKey(rest, key), metric)| == MatchCount(rest, key, metric)
    ensures |Numbers(SelectKey([r] + rest, key), metric)| == MatchCount([r] + rest, key, metric)
  {
    MatchOne(r, key, metric);
    MatchAppend([r], rest, key, metric);
    assert ([r] + rest)[1..] == rest;
  }

  /** A group mean averages as many values as there are matching numeric rows. */
  lemma {:induction false} MatchCountTotal(rows: seq<Row>, key: Key, metric: string)
    ensures |Numbers(SelectKey(rows, key), metric)| == MatchCount(rows, key, metric)
  {
    if rows != [] {
      var r, rest := rows[0], rows[1..];
      MatchCountTotal(rest, key, metric);
      assert rows == [r] + rest;
      MatchCountStep(r, rest, key, metric);
    }
  }

  /** The sum of what one row contributes: its value when it matches and is numeric, else 0. */
  lemma MatchOneSum(r: Row, key: Key, metric: string)
    ensures Sum(Numbers(SelectKey([r], key), metric)) ==
              if Matches(r, key) && Cell(r, metric).Num? then Cell(r, metric).n as real else 0.0
  {
    MatchOne(r, key, metric);
    var head := Numbers(SelectKey([r], key), metric);
    if head != [] {
      assert head[..0] == [];
    }
  }

  lemma MatchSumStep(r: Row, rest: seq<Row>, key: Key, metric: string)
    requires Sum(Numbers(SelectKey(rest, key), metric)) == MatchSum(rest, key, metric)
    ensures Sum(Numbers(SelectKey([r] + rest, key), metric)) == MatchSum([r] + rest, key, metric)
  {
    var head, tail := Numbers(SelectKey([r], key), metric), Numbers(SelectKey(rest, key), metric);
    MatchAppend([r], rest, key, metric);
    SumAppend(head, tail);
    MatchOneSum(r, key, metric);
    assert ([r] + rest)[0] == r && ([r] + rest)[1..] == rest;
  }

  /** The values a group mean averages add up to the metric summed over the matching numeric rows. */
  lemma {:induction false} MatchSumTotal(rows: seq<Row>, key: Key, metric: string)
    ensures Sum(Numbers(SelectKey(rows, key), metric)) == MatchSum(rows, key, metric)
  {
    if rows != [] {
      var r, rest := rows[0], rows[1..];
      MatchSumTotal(rest, key, metric);
      assert rows == [r] + rest;
      MatchSumStep(r, rest, key, metric);
    }
  }

  /** `df[mask][metric].mean()`, or `groupby(keys)[metric].mean()` at one key. */
  function GroupMean(rows: seq<Row>, key: Key, metric: string): Option<real> {
    Mean(Numbers(SelectKey(rows, key), metric))
  }

  /**
   * A group mean is NaN when no matching row holds a number, and otherwise the sum of their values
   * divided by their count.
   */
  lemma GroupMeanValue(rows: seq<Row>, key: Key, metric: string)
    ensures GroupMean(rows, key, metric).Some? <==> MatchCount(rows, key, metric) > 0
    ensures GroupMean(rows, key, metric).Some? ==>
              GroupMean(rows, key, metric).value == MatchSum(rows, key, metric) / MatchCount(rows, key, metric) as real
  {
    MatchCountTotal(rows, key, metric);
    MatchSumTotal(rows, key, metric);
  }

  /** A group mean is defined exactly when some row of the group has a numeric value. */
  lemma GroupMeanDefined(rows: seq<Row>, key: Key, metric: string)
    ensures GroupMean(rows, key, metric).Some? <==> exists r :: r in rows && Matches(r, key) && Cell(r, metric).Num?
  {
    var sel := SelectKey(rows, key);
    var ns := Numbers(sel, metric);
    if exists r :: r in rows && Matches(r, key) && Cell(r, metric).Num? {
      var r :| r in rows && Matches(r, key) && Cell(r, metric).Num?;
      assert r in sel;
    }
    if ns != [] {
      assert ns[0] in ns;
      var r :| r in sel && Cell(r, metric).Num? && ns[0] == Cell(r, metric).n as real;
      assert r in rows && Matches(r, key);
    }
  }

  /**
   * A group mean is defined exactly when some row of the group has a numeric value, and then lies
   * within any bounds that hold for the values of exactly the rows matching the key.
   */
  lemma GroupMeanOfMatchingRows(rows: seq<Row>, key: Key, metric: string, lo: real, hi: real)
    requires forall r :: r in rows && Matches(r, key) && Cell(r, metric).Num? ==> lo <= Cell(r, metric).n as real <= hi
    ensures GroupMean(rows, key, metric).Some? <==> exists r :: r in rows && Matches(r, key) && Cell(r, metric).Num?
    ensures GroupMean(rows, key, metric).Some? ==> lo <= GroupMean(rows, key, metric).value <= hi
  {
    GroupMeanDefined(rows, key, metric);
    var ns := Numbers(SelectKey(rows, key), metric);
    if ns != [] {
      forall i | 0 <= i < |ns| ensures lo <= ns[i] <= hi {
        assert ns[i] in ns;
      }
      MeanBounds(ns, lo, hi);
    }
  }

  /** The text cells of a column, in row order (NaN and numeric cells are skipped). */
  function Texts(rows: seq<Row>, col: string): (ts: seq<string>)
    ensures |ts| <= |rows|
    ensures (forall r :: r in rows ==> Cell(r, col).Text?) ==> |ts| == |rows|
    ensures forall t :: t in ts <==> exists r :: r in rows && Cell(r, col) == Text(t)
  {
    if rows == [] then []
    else
      var init := Texts(rows[..|rows| - 1], col);
      var last := rows[|rows| - 1];
      assert rows == rows[..|rows| - 1] + [last];
      match Cell(last, col)
      case Text(t) => init + [t]
      case _ => init
  }

  lemma TextsOne(r: Row, col: string)
    ensures Texts([r], col) == if Cell(r, col).Text? then [Cell(r, col).s] else []
  {
    assert [r][..0] == [];
  }

  /** The texts of a + b are those of a followed by those of b. */
  lemma {:induction false} TextsAppend(a: seq<Row>, b: seq<Row>, col: string)
    ensures Texts(a + b, col) == Texts(a, col) + Texts(b, col)
    decreases |b|
  {
    if b == [] {
      assert a + b == a;
    } else {
      var b' := b[..|b| - 1];
      assert (a + b)[..|a + b| - 1] == a + b';
      assert (a + b)[|a + b| - 1] == b[|b| - 1];
      TextsAppend(a, b', col);
    }
  }

  /** How many times x occurs in xs. */
  function CountOf(xs: seq<string>, x: string): nat {
    if xs == [] then 0 else CountOf(xs[..|xs| - 1], x) + (if xs[|xs| - 1] == x then 1 else 0)
  }

  /** A text occurs among the texts of a column once for each row that holds it there. */
  lemma {:induction false} TextCount(rows: seq<Row>, col: string, t: string)
    ensures CountOf(Texts(rows, col), t) == |Select(rows, r => Cell(r, col) == Text(t))|
  {
    if rows != [] {
      var init := rows[..|rows| - 1];
      TextCount(init, col, t);
      var ts := Texts(rows, col);
      if Cell(rows[|rows| - 1], col).Text? {
        assert ts[..|ts| - 1] == Texts(init, col);
      }
    }
  }
}
