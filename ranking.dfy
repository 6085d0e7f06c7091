/**
 * pandas `Series.nlargest(k)` with its default `keep='first'`: the positions of the k largest
 * values, largest first, where equal values keep their original order.
 */
module Ranking {
  import opened Builtins

  /** Position i comes before position j: a larger value, or an equal value at an earlier position. */
  predicate RanksBefore(cs: seq<nat>, i: nat, j: nat)
    requires i < |cs| && j < |cs|
  {
    cs[i] > cs[j] || (cs[i] == cs[j] && i < j)
  }

  predicate InRange(cs: seq<nat>, xs: seq<nat>) {
    forall a :: 0 <= a < |xs| ==> xs[a] < |cs|
  }

  /** The positions in xs are listed in ranking order (which also makes them distinct). */
  predicate Ranked(cs: seq<nat>, xs: seq<nat>)
    requires InRange(cs, xs)
  {
    forall a, b :: 0 <= a < b < |xs| ==> RanksBefore(cs, xs[a], xs[b])
  }

  /** Insert position i at its place in a ranked list of positions. */
  function InsertRanked(cs: seq<nat>, xs: seq<nat>, i: nat): (r: seq<nat>)
    requires InRange(cs, xs) && Ranked(cs, xs) && i < |cs| && i !in xs
    ensures InRange(cs, r) && Ranked(cs, r)
    ensures |r| == |xs| + 1
    ensures forall x :: x in r <==> x in xs || x == i
  {
    if xs == [] then [i]
    else if RanksBefore(cs, i, xs[0]) then
      assert forall b :: 0 < b < |xs| ==> RanksBefore(cs, xs[0], xs[b]);
      [i] + xs
    else
      var tail := xs[1..];
      assert forall b :: 0 <= b < |tail| ==> RanksBefore(cs, xs[0], tail[b]) by {
        forall b | 0 <= b < |tail| ensures RanksBefore(cs, xs[0], tail[b]) {
          assert tail[b] == xs[b + 1];
        }
      }
      var rest := InsertRanked(cs, tail, i);
      assert forall x :: x in rest ==> RanksBefore(cs, xs[0], x);
      [xs[0]] + rest
  }

  /** The positions 0..n-1 in ranking order. */
  function RankOrder(cs: seq<nat>, n: nat): (r: seq<nat>)
    requires n <= |cs|
    ensures InRange(cs, r) && Ranked(cs, r)
    ensures |r| == n
    ensures forall x: int :: x in r <==> 0 <= x < n
  {
    if n == 0 then [] else InsertRanked(cs, RankOrder(cs, n - 1), n - 1)
  }

  /** `nlargest(k).index`: the first k positions in ranking order (all of them when there are fewer). */
  function NLargest(cs: seq<nat>, k: nat): (r: seq<nat>)
    ensures InRange(cs, r) && Ranked(cs, r)
    ensures |r| == Min(k, |cs|)
  {
    RankOrder(cs, |cs|)[..Min(k, |cs|)]
  }

  /** A selected position ranks before every position left out, so its value is at least as large. */
  lemma NLargestSelects(cs: seq<nat>, k: nat)
    ensures forall i: nat, j: nat :: i in NLargest(cs, k) && j < |cs| && j !in NLargest(cs, k) ==> RanksBefore(cs, i, j)
  {
    var all := RankOrder(cs, |cs|);
    var r := NLargest(cs, k);
    forall i: nat, j: nat | i in r && j < |cs| && j !in r ensures RanksBefore(cs, i, j) {
      var q :| 0 <= q < |r| && r[q] == i;
      assert all[q] == i;
      assert j in all;
      var p :| 0 <= p < |all| && all[p] == j;
    }
  }

  /** No position is selected twice. */
  lemma NLargestDistinct(cs: seq<nat>, k: nat)
    ensures forall a, b :: 0 <= a < b < |NLargest(cs, k)| ==> NLargest(cs, k)[a] != NLargest(cs, k)[b]
  {
    var r := NLargest(cs, k);
    forall a, b | 0 <= a < b < |r| ensures r[a] != r[b] {
      assert RanksBefore(cs, r[a], r[b]);
    }
  }
}
