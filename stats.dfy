/**
 * Exact descriptive statistics over `real`: sums, means (pandas `mean`, NaN on no values),
 * row-normalised percentages (`div(sum) * 100`) and `pct_change`.
 */
module Stats {
  import opened Wrappers

  function Sum(xs: seq<real>): real {
    if xs == [] then 0.0 else Sum(xs[..|xs| - 1]) + xs[|xs| - 1]
  }

  function SumNat(cs: seq<nat>): nat {
    if cs == [] then 0 else SumNat(cs[..|cs| - 1]) + cs[|cs| - 1]
  }

  /** pandas `mean`: NaN (`None`) when there is nothing to average. */
  function Mean(xs: seq<real>): (m: Option<real>)
    ensures m.None? <==> xs == []
    ensures m.Some? ==> m.value * |xs| as real == Sum(xs)
  {
    if xs == [] then None else Some(Sum(xs) / |xs| as real)
  }

  /** Summing a + b sums a, then b. */
  lemma {:induction false} SumAppend(xs: seq<real>, ys: seq<real>)
    ensures Sum(xs + ys) == Sum(xs) + Sum(ys)
    decreases |ys|
  {
    if ys == [] {
      assert xs + ys == xs;
    } else {
      var ys' := ys[..|ys| - 1];
      assert (xs + ys)[..|xs + ys| - 1] == xs + ys';
      SumAppend(xs, ys');
    }
  }

  lemma {:induction false} SumPrefix(xs: seq<real>, j: nat)
    requires j < |xs|
    ensures Sum(xs[..j + 1]) == Sum(xs[..j]) + xs[j]
  {
    assert xs[..j + 1][..j] == xs[..j];
  }

  lemma {:induction false} SumBounds(xs: seq<real>, lo: real, hi: real)
    requires forall i :: 0 <= i < |xs| ==> lo <= xs[i] <= hi
    ensures |xs| as real * lo <= Sum(xs) <= |xs| as real * hi
  {
    if xs != [] {
      SumBounds(xs[..|xs| - 1], lo, hi);
    }
  }

  /** A mean lies between any lower and upper bound of the averaged values. */
  lemma MeanBounds(xs: seq<real>, lo: real, hi: real)
    requires xs != []
    requires forall i :: 0 <= i < |xs| ==> lo <= xs[i] <= hi
    ensures lo <= Mean(xs).value <= hi
  {
    SumBounds(xs, lo, hi);
    var n := |xs| as real;
    var m := Mean(xs).value;
    assert m * n == Sum(xs);
  }

  lemma {:induction false} ElementAtMostSum(cs: seq<nat>, i: nat)
    requires i < |cs|
    ensures cs[i] <= SumNat(cs)
  {
    if i < |cs| - 1 {
      ElementAtMostSum(cs[..|cs| - 1], i);
    }
  }

  /** Every count multiplied by the same factor k. */
  function Scaled(cs: seq<nat>, k: real): (ps: seq<real>)
    ensures |ps| == |cs|
    ensures forall i :: 0 <= i < |cs| ==> ps[i] == cs[i] as real * k
  {
    seq(|cs|, i requires 0 <= i < |cs| => cs[i] as real * k)
  }

  /** Scaling commutes with summing. */
  lemma {:induction false} SumScaled(cs: seq<nat>, k: real)
    ensures Sum(Scaled(cs, k)) == SumNat(cs) as real * k
  {
    if cs != [] {
      var init := cs[..|cs| - 1];
      var c := cs[|cs| - 1];
      var ps := Scaled(cs, k);
      assert ps[..|cs| - 1] == Scaled(init, k) by {
        forall i | 0 <= i < |cs| - 1 ensures ps[..|cs| - 1][i] == Scaled(init, k)[i] {
          assert init[i] == cs[i];
        }
      }
      SumScaled(init, k);
      Distribute(SumNat(init) as real, c as real, k);
    }
  }

  lemma Distribute(a: real, b: real, k: real)
    ensures (a + b) * k == a * k + b * k
  {
  }

  lemma Associate(a: real, b: real, c: real)
    ensures a * b * c == a * (b * c)
  {
  }

  lemma MulStrictlyMonotonic(a: real, b: real, t: real)
    requires t > 0.0 && a < b
    ensures a * t < b * t
  {
  }

  lemma CancelFactor(x: real, y: real, t: real)
    requires t > 0.0 && x * t == y * t
    ensures x == y
  {
    if x < y {
      MulStrictlyMonotonic(x, y, t);
    } else if x > y {
      MulStrictlyMonotonic(y, x, t);
    }
  }

  /** A part c of a whole t, scaled by k = 100 / t, lies in [0, 100] and gives back 100 * c when multiplied by t. */
  lemma PartOfWhole(c: real, t: real, k: real)
    requires 0.0 <= c <= t && t > 0.0 && k * t == 100.0
    ensures 0.0 <= c * k <= 100.0
    ensures c * k * t == 100.0 * c
  {
    var p := c * k;
    assert p * t == c * (k * t);
    if p < 0.0 {
      MulStrictlyMonotonic(p, 0.0, t);
    } else if p > 100.0 {
      MulStrictlyMonotonic(100.0, p, t);
    }
  }

  /** What one unit of a whole t is worth in percent: 100 / t. */
  function PerUnit(t: nat): real
    requires t > 0
  {
    100.0 / t as real
  }

  lemma PerUnitOfWhole(t: nat)
    requires t > 0
    ensures PerUnit(t) * t as real == 100.0
  {
  }

  /** c as a percentage of n; PercentOfBounds and PercentOfWhole say what it is. */
  function PercentOf(c: nat, n: nat): real
    requires 0 < n
  {
    c as real * PerUnit(n)
  }

  /** A percentage of c taken of a whole n gives back 100 * c when multiplied by n. */
  lemma PercentOfWhole(c: nat, n: nat)
    requires 0 < n
    ensures PercentOf(c, n) * n as real == 100.0 * c as real
  {
    PerUnitOfWhole(n);
    Associate(c as real, PerUnit(n), n as real);
  }

  /** Of a whole n, a part c <= n is between 0 and 100 percent. */
  lemma PercentOfBounds(c: nat, n: nat)
    requires 0 < n && c <= n
    ensures 0.0 <= PercentOf(c, n) <= 100.0
  {
    PerUnitOfWhole(n);
    PartOfWhole(c as real, n as real, PerUnit(n));
  }

  /**
   * `counts.div(counts.sum()) * 100`: each count as a percentage of their total; `None` (NaN) when the
   * total is 0. SharesAt, SharesBounded and SharesSumTo100 state what the shares are.
   */
  function Shares(cs: seq<nat>): (r: Option<seq<real>>)
    ensures r.None? <==> SumNat(cs) == 0
    ensures r.Some? ==> |r.value| == |cs|
  {
    if SumNat(cs) == 0 then None else Some(Scaled(cs, PerUnit(SumNat(cs))))
  }

  /** Every share is its count taken as a percentage of the total, with one factor for all counts. */
  lemma SharesAt(cs: seq<nat>, i: nat)
    requires SumNat(cs) > 0 && i < |cs|
    ensures Shares(cs).value[i] == PercentOf(cs[i], SumNat(cs))
  {
  }

  /** Every share is a percentage in [0, 100]. */
  lemma SharesBounded(cs: seq<nat>)
    requires SumNat(cs) > 0
    ensures forall i :: 0 <= i < |cs| ==> 0.0 <= Shares(cs).value[i] <= 100.0
  {
    forall i | 0 <= i < |cs|
      ensures 0.0 <= Shares(cs).value[i] <= 100.0
    {
      SharesAt(cs, i);
      ElementAtMostSum(cs, i);
      PercentOfBounds(cs[i], SumNat(cs));
    }
  }

  /** The shares add up to exactly 100. */
  lemma SharesSumTo100(cs: seq<nat>)
    requires SumNat(cs) > 0
    ensures Sum(Shares(cs).value) == 100.0
  {
    SumScaled(cs, PerUnit(SumNat(cs)));
    PerUnitOfWhole(SumNat(cs));
  }

  /**
   * pandas `pct_change` on a series of means: position i holds `ms[i] / ms[i-1] - 1`; the first
   * position is NaN, and a zero predecessor gives inf (both `None`).
   */
  function PctChange(ms: seq<real>): (g: seq<Option<real>>)
    ensures |g| == |ms|
    ensures |ms| > 0 ==> g[0].None?
    ensures forall i {:trigger g[i]} :: 1 <= i < |ms| ==> (g[i].Some? <==> ms[i - 1] != 0.0)
  {
    seq(|ms|, i requires 0 <= i < |ms| =>
      if i == 0 || ms[i - 1] == 0.0 then None else Some(ms[i] / ms[i - 1] - 1.0))
  }

  lemma PctChangePrefix(ms: seq<real>)
    requires |ms| > 0
    ensures PctChange(ms)[..|ms| - 1] == PctChange(ms[..|ms| - 1])
  {
    var a := PctChange(ms)[..|ms| - 1];
    var b := PctChange(ms[..|ms| - 1]);
    assert |a| == |b|;
    forall i | 0 <= i < |a| ensures a[i] == b[i] {
      if i > 0 {
        assert ms[..|ms| - 1][i - 1] == ms[i - 1];
        assert ms[..|ms| - 1][i] == ms[i];
      }
    }
  }

  /** Growing s by the percentage change from s to e, `(e / s - 1) * 100`, gives back e. */
  lemma PercentChangeCompounds(s: real, e: real)
    requires s != 0.0
    ensures s * (1.0 + (e / s - 1.0) * 100.0 / 100.0) == e
  {
    assert (e / s - 1.0) * 100.0 / 100.0 == e / s - 1.0;
  }

  /** `start` compounded by each rate in turn: start * (1 + r1) * (1 + r2) * ... */
  function Compound(start: real, rates: seq<real>): real {
    if rates == [] then start else Compound(start, rates[..|rates| - 1]) * (1.0 + rates[|rates| - 1])
  }

  /** The defined rates of a `pct_change` series, from position 1 on. */
  function Rates(g: seq<Option<real>>): seq<real>
    requires forall i :: 1 <= i < |g| ==> g[i].Some?
    ensures |g| > 0 ==> |Rates(g)| == |g| - 1
  {
    if |g| <= 1 then [] else Rates(g[..|g| - 1]) + [g[|g| - 1].value]
  }

  lemma RatesLast(g: seq<Option<real>>)
    requires |g| > 1
    requires forall i :: 1 <= i < |g| ==> g[i].Some?
    ensures Rates(g) == Rates(g[..|g| - 1]) + [g[|g| - 1].value]
  {
  }

  /** Compounding by the rate `cur / prev - 1` takes whatever led to prev on to cur. */
  lemma CompoundStep(start: real, earlier: seq<real>, prev: real, cur: real)
    requires Compound(start, earlier) == prev && prev != 0.0
    ensures Compound(start, earlier + [cur / prev - 1.0]) == cur
  {
    assert (earlier + [cur / prev - 1.0])[..|earlier|] == earlier;
  }

  lemma {:induction false} RatesOfPctChangeLast(ms: seq<real>)
    requires |ms| > 1
    requires forall i :: 0 <= i < |ms| - 1 ==> ms[i] != 0.0
    ensures Rates(PctChange(ms)) == Rates(PctChange(ms[..|ms| - 1])) + [ms[|ms| - 1] / ms[|ms| - 2] - 1.0]
  {
    RatesLast(PctChange(ms));
    PctChangePrefix(ms);
  }

  /** Compounding the first mean by every `pct_change` rate gives back the last mean. */
  lemma {:induction false} PctChangeCompounds(ms: seq<real>)
    requires |ms| > 0
    requires forall i :: 0 <= i < |ms| - 1 ==> ms[i] != 0.0
    ensures Compound(ms[0], Rates(PctChange(ms))) == ms[|ms| - 1]
  {
    if |ms| > 1 {
      PctChangeCompounds(ms[..|ms| - 1]);
      RatesOfPctChangeLast(ms);
      CompoundStep(ms[0], Rates(PctChange(ms[..|ms| - 1])), ms[|ms| - 2], ms[|ms| - 1]);
    }
  }
}
