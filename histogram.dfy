/**
 * The binning step of `plot_histogram`: every integer from the smallest to
 * the largest value of the data, paired with how often it occurs. Drawing
 * the chart is not part of this model.
 */
module Histogram {
  import opened Graphs
  import opened Distances

  /** `iter().min()`: the smallest element, or None for an empty sequence. */
  function MinOf(xs: seq<nat>): (m: Option<nat>)
    ensures m.None? <==> xs == []
    ensures m.Some? ==> m.value in xs && forall x :: x in xs ==> m.value <= x
  {
    if xs == [] then None
    else
      assert xs == [xs[0]] + xs[1..];
      var rest := MinOf(xs[1..]);
      if rest.None? || xs[0] <= rest.value then Some(xs[0]) else rest
  }

  /** `data.iter().filter(|&&x| x == bin).count()`. */
  function Count(data: seq<nat>, bin: nat): (c: nat)
    ensures c == multiset(data)[bin]
  {
    if data == [] then 0
    else
      assert data == [data[0]] + data[1..];
      (if data[0] == bin then 1 else 0) + Count(data[1..], bin)
  }

  /** `(lo..=hi).map(|bin| (bin, count))`; empty when lo > hi. */
  function Bins(data: seq<nat>, lo: nat, hi: nat): seq<(nat, nat)>
    decreases hi + 1 - lo
  {
    if lo > hi then [] else [(lo, Count(data, lo))] + Bins(data, lo + 1, hi)
  }

  /** The histogram `plot_histogram` draws: min defaults to 0, max to 1. */
  function Histogram(data: seq<nat>): seq<(nat, nat)> {
    var lo := match MinOf(data) case None => 0 case Some(m) => m;
    var hi := match MaxOf(data) case None => 1 case Some(m) => m;
    Bins(data, lo, hi)
  }

  /** Bins lo, lo+1, .., hi in order, each with its number of occurrences. */
  lemma {:induction false} BinsSpec(data: seq<nat>, lo: nat, hi: nat)
    ensures |Bins(data, lo, hi)| == if lo > hi then 0 else hi + 1 - lo
    ensures forall i :: 0 <= i < |Bins(data, lo, hi)| ==>
      Bins(data, lo, hi)[i] == (lo + i, multiset(data)[lo + i])
    decreases hi + 1 - lo
  {
    if lo <= hi {
      BinsSpec(data, lo + 1, hi);
      var b := Bins(data, lo, hi);
      forall i | 0 <= i < |b| ensures b[i] == (lo + i, multiset(data)[lo + i]) {
        if i > 0 {
          var j := i - 1;
          assert b[i] == Bins(data, lo + 1, hi)[j];
        }
      }
    }
  }

  function SumCounts(h: seq<(nat, nat)>): nat {
    if h == [] then 0 else h[0].1 + SumCounts(h[1..])
  }

  /** Adding one value to the data adds one to the total iff the value has a bin. */
  lemma {:induction false} SumCountsCons(x: nat, data: seq<nat>, lo: nat, hi: nat)
    ensures SumCounts(Bins([x] + data, lo, hi)) == SumCounts(Bins(data, lo, hi)) + (if lo <= x <= hi then 1 else 0)
    decreases hi + 1 - lo
  {
    if lo <= hi {
      SumCountsCons(x, data, lo + 1, hi);
      assert ([x] + data)[1..] == data;
    }
  }

  /** When every value lies in lo .. hi, the counts add up to the data length. */
  lemma {:induction false} SumCountsAll(data: seq<nat>, lo: nat, hi: nat)
    requires forall x :: x in data ==> lo <= x <= hi
    ensures SumCounts(Bins(data, lo, hi)) == |data|
  {
    if data == [] {
      SumCountsEmpty(lo, hi);
    } else {
      assert data == [data[0]] + data[1..] && data[0] in data;
      assert forall x :: x in data[1..] ==> x in data;
      SumCountsAll(data[1..], lo, hi);
      SumCountsCons(data[0], data[1..], lo, hi);
    }
  }

  lemma {:induction false} SumCountsEmpty(lo: nat, hi: nat)
    ensures SumCounts(Bins([], lo, hi)) == 0
    decreases hi + 1 - lo
  {
    if lo <= hi {
      SumCountsEmpty(lo + 1, hi);
    }
  }

  /**
   * The histogram has one bin per integer from the smallest to the largest
   * value, in ascending order, each with its occurrence count, and the counts
   * add up to the number of values.
   */
  lemma HistogramSpec(data: seq<nat>)
    requires data != []
    ensures MinOf(data).Some? && MaxOf(data).Some?
    ensures var lo, hi := MinOf(data).value, MaxOf(data).value;
      |Histogram(data)| == hi + 1 - lo &&
      forall i :: 0 <= i < |Histogram(data)| ==> Histogram(data)[i] == (lo + i, multiset(data)[lo + i])
    ensures SumCounts(Histogram(data)) == |data|
  {
    var lo, hi := MinOf(data).value, MaxOf(data).value;
    assert data[0] in data;
    BinsSpec(data, lo, hi);
    SumCountsAll(data, lo, hi);
  }

  /** With no data the bins are 0 and 1, both empty. */
  lemma EmptyHistogram()
    ensures Histogram([]) == [(0, 0), (1, 0)]
  {
    assert Bins([], 2, 1) == [];
  }
}
