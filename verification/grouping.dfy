/**
 Grouping a sequence of keys and counting the size of each group: the
 meaning of a group-by followed by a size count. Groups come out in
 ascending key order, one per distinct key; keys that never occur get no
 group.
 */
module Grouping {
  import opened Seqs
  import opened Orders

  datatype Group<K> = Group(key: K, size: nat)

  function Keys<K>(gs: seq<Group<K>>): (ks: seq<K>)
    ensures |ks| == |gs|
    ensures forall i :: 0 <= i < |gs| ==> ks[i] == gs[i].key
  {
    seq(|gs|, i requires 0 <= i < |gs| => gs[i].key)
  }

  /** No two groups share a key. */
  ghost predicate UniqueKeys<K>(gs: seq<Group<K>>) {
    forall i, j :: 0 <= i < j < |gs| ==> gs[i].key != gs[j].key
  }

  /** Sum of the group sizes. */
  function TotalSize<K>(gs: seq<Group<K>>): nat {
    if gs == [] then 0 else gs[0].size + TotalSize(gs[1..])
  }

  /** Inserts `k` into a sorted key list, unless it is already listed. */
  function Insert<K(==,!new)>(xs: seq<K>, k: K, less: (K, K) -> bool): (r: seq<K>)
    ensures |r| <= |xs| + 1
    ensures forall y :: y in r <==> y in xs || y == k
  {
    if xs == [] then [k]
    else if xs[0] == k then xs
    else if less(k, xs[0]) then [k] + xs
    else [xs[0]] + Insert(xs[1..], k, less)
  }

  lemma {:induction false} InsertSorted<K(!new)>(xs: seq<K>, k: K, less: (K, K) -> bool)
    requires StrictTotalOrder(less)
    requires StrictlySorted(xs, less)
    ensures StrictlySorted(Insert(xs, k, less), less)
  {
    if xs != [] && xs[0] != k && !less(k, xs[0]) {
      var tail := xs[1..];
      assert StrictlySorted(tail, less) by {
        forall i, j | 0 <= i < j < |tail| ensures less(tail[i], tail[j]) {
          assert tail[i] == xs[i + 1] && tail[j] == xs[j + 1];
        }
      }
      InsertSorted(tail, k, less);
      var rest := Insert(tail, k, less);
      forall y | y in rest ensures less(xs[0], y) {
        if y != k {
          var j :| 0 <= j < |tail| && tail[j] == y;
          assert xs[j + 1] == y;
        }
      }
      var r := [xs[0]] + rest;
      forall i, j | 0 <= i < j < |r| ensures less(r[i], r[j]) {
        if i == 0 {
          assert r[j] == rest[j - 1] && r[j] in rest;
        } else {
          assert r[i] == rest[i - 1] && r[j] == rest[j - 1];
        }
      }
    }
  }

  /** The distinct elements of `s`, in ascending order. */
  function DistinctKeys<K(==,!new)>(s: seq<K>, less: (K, K) -> bool): (ks: seq<K>)
    ensures |ks| <= |s|
    ensures forall y :: y in ks <==> y in s
  {
    if s == [] then [] else Insert(DistinctKeys(s[1..], less), s[0], less)
  }

  lemma {:induction false} DistinctKeysSorted<K(!new)>(s: seq<K>, less: (K, K) -> bool)
    requires StrictTotalOrder(less)
    ensures StrictlySorted(DistinctKeys(s, less), less)
  {
    if s != [] {
      DistinctKeysSorted(s[1..], less);
      InsertSorted(DistinctKeys(s[1..], less), s[0], less);
    }
  }

  /** A strictly sorted sequence repeats no element. */
  lemma SortedNoDup<K(!new)>(xs: seq<K>, less: (K, K) -> bool)
    requires StrictTotalOrder(less)
    requires StrictlySorted(xs, less)
    ensures NoDup(xs)
  {
    forall i, j | 0 <= i < j < |xs| ensures xs[i] != xs[j] {
      assert less(xs[i], xs[j]);
    }
  }

  /** One group per listed key, sized by that key's occurrences in `s`. */
  function Tally<K(==)>(ks: seq<K>, s: seq<K>): (gs: seq<Group<K>>)
    ensures Keys(gs) == ks
    ensures forall i :: 0 <= i < |gs| ==> gs[i].size == Count(s, gs[i].key)
  {
    if ks == [] then [] else [Group(ks[0], Count(s, ks[0]))] + Tally(ks[1..], s)
  }

  /** Group the keys of `s` and count each group: every key that occurs gets
      exactly one group, in ascending order, holding its number of occurrences. */
  function GroupSizes<K(==,!new)>(s: seq<K>, less: (K, K) -> bool): (gs: seq<Group<K>>)
    ensures |gs| <= |s|
    ensures forall k :: k in Keys(gs) <==> k in s
    ensures forall i :: 0 <= i < |gs| ==> 1 <= gs[i].size == Count(s, gs[i].key)
  {
    var ks := DistinctKeys(s, less);
    var gs := Tally(ks, s);
    assert forall i :: 0 <= i < |gs| ==> gs[i].key in ks;
    gs
  }

  /** Under a strict total order the groups are in strictly ascending key
      order, hence no key is grouped twice. */
  lemma GroupSizesSorted<K(!new)>(s: seq<K>, less: (K, K) -> bool)
    requires StrictTotalOrder(less)
    ensures StrictlySorted(Keys(GroupSizes(s, less)), less)
    ensures UniqueKeys(GroupSizes(s, less))
  {
    DistinctKeysSorted(s, less);
    var gs := GroupSizes(s, less);
    forall i, j | 0 <= i < j < |gs| ensures gs[i].key != gs[j].key {
      assert Keys(gs)[i] == gs[i].key && Keys(gs)[j] == gs[j].key;
      assert less(gs[i].key, gs[j].key);
    }
  }

  /** Adding one element to the counted sequence adds one to the total if the
      element is among the (distinct) listed keys. */
  lemma {:induction false} TallyCons<K>(ks: seq<K>, x: K, s: seq<K>)
    requires NoDup(ks)
    ensures TotalSize(Tally(ks, [x] + s)) == TotalSize(Tally(ks, s)) + (if x in ks then 1 else 0)
  {
    if ks != [] {
      var tail := ks[1..];
      assert NoDup(tail) by {
        forall i, j | 0 <= i < j < |tail| ensures tail[i] != tail[j] {
          assert tail[i] == ks[i + 1] && tail[j] == ks[j + 1];
        }
      }
      assert ks[0] !in tail by {
        forall j | 0 <= j < |tail| ensures tail[j] != ks[0] {
          assert tail[j] == ks[j + 1];
        }
      }
      TallyCons(tail, x, s);
      assert ([x] + s)[1..] == s;
      assert x in ks <==> x == ks[0] || x in tail by {
        assert ks == [ks[0]] + tail;
      }
    }
  }

  /** Counting every element of `s` against distinct keys covering `s`
      accounts for each element exactly once. */
  lemma {:induction false} TallyCovers<K>(ks: seq<K>, s: seq<K>)
    requires NoDup(ks)
    requires forall x :: x in s ==> x in ks
    ensures TotalSize(Tally(ks, s)) == |s|
  {
    if s == [] {
      TallyEmpty(ks);
    } else {
      assert s == [s[0]] + s[1..];
      TallyCovers(ks, s[1..]);
      TallyCons(ks, s[0], s[1..]);
    }
  }

  lemma {:induction false} TallyEmpty<K>(ks: seq<K>)
    ensures TotalSize(Tally(ks, [])) == 0
  {
    if ks != [] {
      TallyEmpty(ks[1..]);
    }
  }

  /** Count conservation: the group sizes add up to the number of grouped
      keys. */
  lemma GroupSizesConserve<K(!new)>(s: seq<K>, less: (K, K) -> bool)
    requires StrictTotalOrder(less)
    ensures TotalSize(GroupSizes(s, less)) == |s|
  {
    var ks := DistinctKeys(s, less);
    DistinctKeysSorted(s, less);
    SortedNoDup(ks, less);
    TallyCovers(ks, s);
  }

  /** The groups whose key satisfies `p`, in order. */
  function WhereKey<K>(gs: seq<Group<K>>, p: K -> bool): (r: seq<Group<K>>)
    ensures |r| <= |gs|
    ensures forall i :: 0 <= i < |r| ==> p(r[i].key)
  {
    if gs == [] then []
    else if p(gs[0].key) then [gs[0]] + WhereKey(gs[1..], p)
    else WhereKey(gs[1..], p)
  }

  lemma {:induction false} WhereKeyTally<K(!new)>(ks: seq<K>, s: seq<K>, p: K -> bool)
    ensures WhereKey(Tally(ks, s), p) == Tally(Filter(ks, p), s)
  {
    if ks != [] {
      WhereKeyTally(ks[1..], s, p);
    }
  }

  /** Counting keys that all satisfy `p` only sees the elements satisfying `p`. */
  lemma {:induction false} TallyRestrict<K(!new)>(ks: seq<K>, s: seq<K>, p: K -> bool)
    requires forall k :: k in ks ==> p(k)
    ensures Tally(ks, s) == Tally(ks, Filter(s, p))
  {
    if ks != [] {
      FilterCount(s, p, ks[0]);
      TallyRestrict(ks[1..], s, p);
    }
  }

  /** Conservation within a slice: the groups whose key satisfies `p` add up
      to the number of elements satisfying `p`. */
  lemma GroupSizesWhere<K(!new)>(s: seq<K>, less: (K, K) -> bool, p: K -> bool)
    requires StrictTotalOrder(less)
    ensures TotalSize(WhereKey(GroupSizes(s, less), p)) == |Filter(s, p)|
  {
    var ks := DistinctKeys(s, less);
    DistinctKeysSorted(s, less);
    SortedNoDup(ks, less);
    WhereKeyTally(ks, s, p);
    var kp := Filter(ks, p);
    TallyRestrict(kp, s, p);
    FilterNoDup(ks, p);
    TallyCovers(kp, Filter(s, p));
  }
}
