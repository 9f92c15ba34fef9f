/**
 Percentages of the whole table. A percentage is a count divided by the
 number of rows of the whole, unfiltered table, times 100, computed here in
 exact rational arithmetic.
 */
module Shares {
  import opened Grouping

  /** `count` as a percentage of a table of `tableSize` rows. */
  function Percent(count: nat, tableSize: nat): (p: real)
    requires tableSize > 0
    ensures p * tableSize as real == count as real * 100.0
    ensures count > 0 ==> 0.0 < p
    ensures count <= tableSize ==> p <= 100.0
  {
    count as real / tableSize as real * 100.0
  }

  function SumNats(xs: seq<nat>): nat {
    if xs == [] then 0 else xs[0] + SumNats(xs[1..])
  }

  function SumReals(xs: seq<real>): real {
    if xs == [] then 0.0 else xs[0] + SumReals(xs[1..])
  }

  /** Percentages of one table add up to the percentage of the summed counts. */
  lemma {:induction false} PercentsAddUp(counts: seq<nat>, percents: seq<real>, tableSize: nat)
    requires tableSize > 0
    requires |counts| == |percents|
    requires forall i :: 0 <= i < |counts| ==> percents[i] == Percent(counts[i], tableSize)
    ensures SumReals(percents) == Percent(SumNats(counts), tableSize)
  {
    if counts != [] {
      PercentsAddUp(counts[1..], percents[1..], tableSize);
      PercentAdd(counts[0], SumNats(counts[1..]), tableSize);
    }
  }

  lemma PercentAdd(a: nat, b: nat, tableSize: nat)
    requires tableSize > 0
    ensures Percent(a, tableSize) + Percent(b, tableSize) == Percent(a + b, tableSize)
  {
  }

  /** Counts copied from groups add up to the groups' total size. */
  lemma {:induction false} SizesAddUp<K>(counts: seq<nat>, gs: seq<Group<K>>)
    requires |counts| == |gs|
    requires forall i :: 0 <= i < |gs| ==> counts[i] == gs[i].size
    ensures SumNats(counts) == TotalSize(gs)
  {
    if gs != [] {
      SizesAddUp(counts[1..], gs[1..]);
    }
  }
}
