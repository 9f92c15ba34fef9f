/**
 Orderings used to sort group keys. Grouping sorts its keys, and the keys
 here are text (compared code point by code point, a proper prefix first)
 and (text, year) pairs (compared as tuples).
 */
module Orders {

  ghost predicate StrictTotalOrder<K(!new)>(less: (K, K) -> bool) {
    && (forall x :: !less(x, x))
    && (forall x, y, z :: less(x, y) && less(y, z) ==> less(x, z))
    && (forall x, y :: x != y ==> less(x, y) || less(y, x))
  }

  ghost predicate StrictlySorted<K>(xs: seq<K>, less: (K, K) -> bool) {
    forall i, j :: 0 <= i < j < |xs| ==> less(xs[i], xs[j])
  }

  /** Lexicographic comparison of text by character code. */
  function TextLess(a: string, b: string): bool {
    if a == [] then b != []
    else if b == [] then false
    else a[0] < b[0] || (a[0] == b[0] && TextLess(a[1..], b[1..]))
  }

  lemma {:induction false} TextLessIrreflexive(a: string)
    ensures !TextLess(a, a)
  {
    if a != [] {
      TextLessIrreflexive(a[1..]);
    }
  }

  lemma {:induction false} TextLessTransitive(a: string, b: string, c: string)
    requires TextLess(a, b) && TextLess(b, c)
    ensures TextLess(a, c)
  {
    if a != [] && b != [] && c != [] && a[0] == b[0] && b[0] == c[0] {
      TextLessTransitive(a[1..], b[1..], c[1..]);
    }
  }

  lemma {:induction false} TextLessTotal(a: string, b: string)
    requires a != b
    ensures TextLess(a, b) || TextLess(b, a)
  {
    if a != [] && b != [] && a[0] == b[0] {
      assert a == [a[0]] + a[1..] && b == [b[0]] + b[1..];
      TextLessTotal(a[1..], b[1..]);
    }
  }

  lemma TextLessIsStrictTotalOrder()
    ensures StrictTotalOrder(TextLess)
  {
    forall x: string ensures !TextLess(x, x) {
      TextLessIrreflexive(x);
    }
    forall x: string, y: string, z: string | TextLess(x, y) && TextLess(y, z)
      ensures TextLess(x, z)
    {
      TextLessTransitive(x, y, z);
    }
    forall x: string, y: string | x != y ensures TextLess(x, y) || TextLess(y, x) {
      TextLessTotal(x, y);
    }
  }
}
