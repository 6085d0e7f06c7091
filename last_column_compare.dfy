/**
 * `compare_csv_files` (code/task4_code1.py): the rows of two CSV files are paired by position, the
 * integers in the last cells of each pair are compared, and three counters record A > B, B > A and
 * A == B; a pair where either row is empty or has a last cell that is not an integer is skipped.
 * Each file is modelled as its already-parsed rows of cells.
 */
module LastColumnCompare {
  import opened Wrappers
  import opened Decimal
  import opened Builtins

  // ---------------------------------------------------------------------------------------------
  // `int(cell)`, for an optional ASCII sign and ASCII digits

  predicate IsSign(c: char) {
    c == '+' || c == '-'
  }

  /** `int(s)`: None where Python raises ValueError. */
  function ParseInt(s: string): (r: Option<int>)
    ensures r.Some? <==> |s| > 0 && (if IsSign(s[0]) then |s| > 1 && AllDigits(s[1..]) else AllDigits(s))
  {
    if |s| == 0 then None
    else if IsSign(s[0]) then
      if |s| > 1 && AllDigits(s[1..]) then Some(if s[0] == '-' then -(Value(s[1..]) as int) else Value(s[1..])) else None
    else if AllDigits(s) then Some(Value(s))
    else None
  }

  /** `str(n)` for an integer. */
  function ShowInt(n: int): string {
    if n < 0 then "-" + Show(-n) else Show(n)
  }

  /** Every integer written by `str` reads back as itself. */
  lemma ParseShowInt(n: int)
    ensures ParseInt(ShowInt(n)) == Some(n)
  {
    if n < 0 {
      ValueShow(-n);
      assert ShowInt(n)[1..] == Show(-n);
    } else {
      ValueShow(n);
      assert !IsSign(Show(n)[0]);
    }
  }

  /** A leading '+' does not change the value, and '-' negates it. */
  lemma ParseSigned(digits: string)
    requires |digits| > 0 && AllDigits(digits)
    ensures ParseInt("+" + digits) == ParseInt(digits)
    ensures ParseInt("-" + digits) == Some(-ParseInt(digits).value)
  {
    assert ("+" + digits)[1..] == digits;
    assert ("-" + digits)[1..] == digits;
    assert !IsSign(digits[0]);
  }

  /** `int(row[-1])`: None where Python raises IndexError (an empty row) or ValueError. */
  function LastInt(row: seq<string>): Option<int> {
    if row == [] then None else ParseInt(row[|row| - 1])
  }

  /** Only the last cell is read: cells before it are ignored. */
  lemma LastCellOnly(front: seq<string>, row: seq<string>)
    requires row != []
    ensures LastInt(front + row) == LastInt(row)
  {
    assert (front + row)[|front + row| - 1] == row[|row| - 1];
  }

  // ---------------------------------------------------------------------------------------------
  // The three counters

  datatype Tally = Tally(aBigger: nat, bBigger: nat, equal: nat)

  function Total(t: Tally): nat {
    t.aBigger + t.bBigger + t.equal
  }

  predicate WellFormed(rowA: seq<string>, rowB: seq<string>) {
    LastInt(rowA).Some? && LastInt(rowB).Some?
  }

  /** One iteration of the loop over the zipped rows (lines 16-29). */
  function Step(t: Tally, rowA: seq<string>, rowB: seq<string>): Tally {
    match (LastInt(rowA), LastInt(rowB))
    case (Some(a), Some(b)) =>
      if a > b then t.(aBigger := t.aBigger + 1)
      else if b > a then t.(bBigger := t.bBigger + 1)
      else t.(equal := t.equal + 1)
    case _ => t
  }

  /** The counters after the first n pairs. */
  function TallyOf(rowsA: seq<seq<string>>, rowsB: seq<seq<string>>, n: nat): Tally
    requires n <= |rowsA| && n <= |rowsB|
  {
    if n == 0 then Tally(0, 0, 0) else Step(TallyOf(rowsA, rowsB, n - 1), rowsA[n - 1], rowsB[n - 1])
  }

  /**
   * `zip` stops at the end of the shorter file: at most min(rows_a, rows_b) pairs are counted, and
   * all of them exactly when no pair is skipped.
   */
  function Compared(rowsA: seq<seq<string>>, rowsB: seq<seq<string>>): (t: Tally)
    ensures Total(t) <= Min(|rowsA|, |rowsB|)
    ensures Total(t) == Min(|rowsA|, |rowsB|) <==>
              forall i :: 0 <= i < Min(|rowsA|, |rowsB|) ==> WellFormed(rowsA[i], rowsB[i])
  {
    TotalCountsWellFormed(rowsA, rowsB, Min(|rowsA|, |rowsB|));
    WellFormedCountBound(rowsA, rowsB, Min(|rowsA|, |rowsB|));
    TallyOf(rowsA, rowsB, Min(|rowsA|, |rowsB|))
  }

  /** The loop of lines 15-29 with its three counters. */
  method CompareCsvFiles(rowsA: seq<seq<string>>, rowsB: seq<seq<string>>) returns (aBigger: nat, bBigger: nat, equal: nat)
    ensures Tally(aBigger, bBigger, equal) == Compared(rowsA, rowsB)
  {
    aBigger, bBigger, equal := 0, 0, 0;
    var i := 0;
    while i < |rowsA| && i < |rowsB|
      invariant 0 <= i <= Min(|rowsA|, |rowsB|)
      invariant Tally(aBigger, bBigger, equal) == TallyOf(rowsA, rowsB, i)
    {
      aBigger, bBigger, equal := ComparePair(rowsA[i], rowsB[i], aBigger, bBigger, equal);
      i := i + 1;
    }
  }

  /** The body of the loop (lines 16-29): compare the last cells of one pair of rows. */
  method ComparePair(rowA: seq<string>, rowB: seq<string>, aBigger: nat, bBigger: nat, equal: nat)
    returns (aBigger': nat, bBigger': nat, equal': nat)
    ensures Tally(aBigger', bBigger', equal') == Step(Tally(aBigger, bBigger, equal), rowA, rowB)
  {
    aBigger', bBigger', equal' := aBigger, bBigger, equal;
    if rowA != [] {
      var lastA := ParseInt(rowA[|rowA| - 1]);
      if lastA.Some? && rowB != [] {
        var lastB := ParseInt(rowB[|rowB| - 1]);
        if lastB.Some? {
          if lastA.value > lastB.value {
            aBigger' := aBigger' + 1;
          } else if lastB.value > lastA.value {
            bBigger' := bBigger' + 1;
          } else {
            equal' := equal' + 1;
          }
        }
      }
    }
  }

  /**
   * A well-formed pair raises exactly one counter by one (the counters never go down and their sum
   * grows by one), the one its comparison selects; a malformed pair changes nothing.
   */
  lemma StepCountsOne(t: Tally, rowA: seq<string>, rowB: seq<string>)
    ensures var s := Step(t, rowA, rowB);
            && (!WellFormed(rowA, rowB) ==> s == t)
            && (WellFormed(rowA, rowB) ==>
                  && Total(s) == Total(t) + 1
                  && s.aBigger >= t.aBigger && s.bBigger >= t.bBigger && s.equal >= t.equal
                  && (s.aBigger > t.aBigger <==> LastInt(rowA).value > LastInt(rowB).value)
                  && (s.bBigger > t.bBigger <==> LastInt(rowB).value > LastInt(rowA).value)
                  && (s.equal > t.equal <==> LastInt(rowA).value == LastInt(rowB).value))
  {
  }

  /** The number of well-formed pairs among the first n. */
  function WellFormedCount(rowsA: seq<seq<string>>, rowsB: seq<seq<string>>, n: nat): nat
    requires n <= |rowsA| && n <= |rowsB|
  {
    if n == 0 then 0
    else WellFormedCount(rowsA, rowsB, n - 1) + if WellFormed(rowsA[n - 1], rowsB[n - 1]) then 1 else 0
  }

  /** The counters add up to the number of well-formed pairs among those read. */
  lemma {:induction false} TotalCountsWellFormed(rowsA: seq<seq<string>>, rowsB: seq<seq<string>>, n: nat)
    requires n <= |rowsA| && n <= |rowsB|
    ensures Total(TallyOf(rowsA, rowsB, n)) == WellFormedCount(rowsA, rowsB, n)
  {
    if n > 0 {
      TotalCountsWellFormed(rowsA, rowsB, n - 1);
      StepCountsOne(TallyOf(rowsA, rowsB, n - 1), rowsA[n - 1], rowsB[n - 1]);
    }
  }

  /** At most n of the first n pairs are well-formed, and exactly n when (and only when) all are. */
  lemma {:induction false} WellFormedCountBound(rowsA: seq<seq<string>>, rowsB: seq<seq<string>>, n: nat)
    requires n <= |rowsA| && n <= |rowsB|
    ensures WellFormedCount(rowsA, rowsB, n) <= n
    ensures WellFormedCount(rowsA, rowsB, n) == n <==> forall i :: 0 <= i < n ==> WellFormed(rowsA[i], rowsB[i])
  {
    if n > 0 {
      WellFormedCountBound(rowsA, rowsB, n - 1);
    }
  }

  /** Swapping the files swaps a_bigger and b_bigger and keeps equal. */
  lemma {:induction false} SwapFiles(rowsA: seq<seq<string>>, rowsB: seq<seq<string>>, n: nat)
    requires n <= |rowsA| && n <= |rowsB|
    ensures var t := TallyOf(rowsA, rowsB, n);
            TallyOf(rowsB, rowsA, n) == Tally(t.bBigger, t.aBigger, t.equal)
  {
    if n > 0 {
      SwapFiles(rowsA, rowsB, n - 1);
    }
  }

  /** Rows past the end of the shorter file are never looked at. */
  lemma {:induction false} TallyPrefix(rowsA: seq<seq<string>>, rowsB: seq<seq<string>>, extraA: seq<seq<string>>, extraB: seq<seq<string>>, n: nat)
    requires n <= |rowsA| && n <= |rowsB|
    ensures TallyOf(rowsA + extraA, rowsB + extraB, n) == TallyOf(rowsA, rowsB, n)
  {
    if n > 0 {
      TallyPrefix(rowsA, rowsB, extraA, extraB, n - 1);
      assert (rowsA + extraA)[n - 1] == rowsA[n - 1];
      assert (rowsB + extraB)[n - 1] == rowsB[n - 1];
    }
  }

  lemma ExtraRowsIgnored(rowsA: seq<seq<string>>, rowsB: seq<seq<string>>, extra: seq<seq<string>>)
    requires |rowsB| <= |rowsA|
    ensures Compared(rowsA + extra, rowsB) == Compared(rowsA, rowsB)
  {
    TallyPrefix(rowsA, rowsB, extra, [], |rowsB|);
    assert rowsB + [] == rowsB;
  }
}
