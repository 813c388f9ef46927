/**
 * The contract of Go's sort.Slice as both services use it: given a `less`
 * that is a strict weak order, the slice ends up as a permutation of itself
 * in which no element is less than one before it. Which of several equal
 * elements comes first is not promised (sort.Slice is not stable), and the
 * model says nothing about it either.
 */
module Sorting {

  /** What sort.Slice requires of `less`: asymmetric, and incomparability is transitive. */
  ghost predicate StrictWeakOrder<T(!new)>(less: (T, T) -> bool) {
    && (forall a, b :: less(a, b) ==> !less(b, a))
    && (forall a, b, c {:trigger less(a, b), less(b, c)} :: less(a, c) ==> less(a, b) || less(b, c))
  }

  /** No element is `less` than an element before it. */
  ghost predicate SortedBy<T>(s: seq<T>, less: (T, T) -> bool) {
    forall i, j :: 0 <= i < j < |s| ==> !less(s[j], s[i])
  }

  /** Inserts `x` into the sorted `r` after every element that `x` is not less than. */
  method Insert<T(!new)>(r: seq<T>, x: T, less: (T, T) -> bool) returns (q: seq<T>)
    requires StrictWeakOrder(less) && SortedBy(r, less)
    ensures multiset(q) == multiset(r) + multiset{x}
    ensures SortedBy(q, less)
  {
    var p := |r|;
    while p > 0 && less(x, r[p - 1])
      invariant 0 <= p <= |r|
      invariant forall k :: p <= k < |r| ==> less(x, r[k])
    {
      p := p - 1;
    }
    q := r[..p] + [x] + r[p..];
    assert r == r[..p] + r[p..];
    InsertedSorted(r, x, p, less);
  }

  /** Placing `x` after the elements it is not less than and before those it is less than keeps the order. */
  lemma InsertedSorted<T(!new)>(r: seq<T>, x: T, p: nat, less: (T, T) -> bool)
    requires StrictWeakOrder(less) && SortedBy(r, less)
    requires p <= |r|
    requires p > 0 ==> !less(x, r[p - 1])
    requires forall k :: p <= k < |r| ==> less(x, r[k])
    ensures SortedBy(r[..p] + [x] + r[p..], less)
  {
    var q := r[..p] + [x] + r[p..];
    forall i, j | 0 <= i < j < |q| ensures !less(q[j], q[i]) {
      if j < p {
        assert q[i] == r[i] && q[j] == r[j];
      } else if i > p {
        assert q[i] == r[i - 1] && q[j] == r[j - 1];
      } else if j == p {
        assert q[i] == r[i] && q[j] == x;
        if i < p - 1 {
          assert !less(r[p - 1], r[i]);
        }
      } else if i == p {
        assert q[i] == x && q[j] == r[j - 1];
        assert less(x, r[j - 1]);
      } else {
        assert q[i] == r[i] && q[j] == r[j - 1];
      }
    }
  }

  /** sort.Slice(s, less), returning the sorted slice instead of sorting in place. */
  method SortSlice<T(!new)>(s: seq<T>, less: (T, T) -> bool) returns (r: seq<T>)
    requires StrictWeakOrder(less)
    ensures multiset(r) == multiset(s)
    ensures SortedBy(r, less)
  {
    r := [];
    var i := 0;
    while i < |s|
      invariant 0 <= i <= |s|
      invariant multiset(r) == multiset(s[..i])
      invariant SortedBy(r, less)
    {
      r := Insert(r, s[i], less);
      assert s[..i + 1] == s[..i] + [s[i]];
      i := i + 1;
    }
    assert s[..|s|] == s;
  }
}
