/** Stable sorting of a sequence by a natural-number key, the behaviour of
    Python's `list.sort(key=...)`. */
module StableSort {

  /** The elements are in non-decreasing order of key. */
  predicate SortedBy<T>(xs: seq<T>, key: T -> nat)
  {
    forall i, j :: 0 <= i < j < |xs| ==> key(xs[i]) <= key(xs[j])
  }

  /** The elements of `xs` whose key is `k`, in their order in `xs`. */
  function WithKey<T>(xs: seq<T>, key: T -> nat, k: nat): (tied: seq<T>)
    ensures forall x :: x in tied ==> x in xs && key(x) == k
    ensures forall x :: x in xs && key(x) == k ==> x in tied
  {
    if xs == [] then []
    else if key(xs[0]) == k then [xs[0]] + WithKey(xs[1..], key, k)
    else WithKey(xs[1..], key, k)
  }

  /** Inserts `x` in front of the first element whose key is at least that
      of `x`; one step of a stable insertion sort. */
  function InsertBy<T>(x: T, xs: seq<T>, key: T -> nat): (r: seq<T>)
    ensures multiset(r) == multiset(xs) + multiset{x}
  {
    if xs == [] || key(x) <= key(xs[0]) then [x] + xs
    else
      assert xs == [xs[0]] + xs[1..];
      [xs[0]] + InsertBy(x, xs[1..], key)
  }

  /** Inserting an element no smaller than `low` among elements no smaller
      than `low` gives elements no smaller than `low`. */
  lemma {:induction false} InsertKeepsLowerBound<T>(x: T, xs: seq<T>, key: T -> nat, low: nat)
    requires low <= key(x)
    requires forall i :: 0 <= i < |xs| ==> low <= key(xs[i])
    ensures forall i :: 0 <= i < |InsertBy(x, xs, key)| ==> low <= key(InsertBy(x, xs, key)[i])
  {
    if xs != [] && key(x) > key(xs[0]) {
      InsertKeepsLowerBound(x, xs[1..], key, low);
    }
  }

  /** Inserting into a sorted sequence keeps it sorted. */
  lemma {:induction false} InsertKeepsSorted<T>(x: T, xs: seq<T>, key: T -> nat)
    requires SortedBy(xs, key)
    ensures SortedBy(InsertBy(x, xs, key), key)
  {
    if xs != [] && key(x) > key(xs[0]) {
      var rest := InsertBy(x, xs[1..], key);
      assert SortedBy(xs[1..], key);
      InsertKeepsSorted(x, xs[1..], key);
      InsertKeepsLowerBound(x, xs[1..], key, key(xs[0]));
      var r := [xs[0]] + rest;
      forall i, j | 0 <= i < j < |r| ensures key(r[i]) <= key(r[j]) {
        assert r[j] == rest[j - 1];
        if i > 0 {
          assert r[i] == rest[i - 1];
        }
      }
    }
  }

  /** Stable insertion sort by key. */
  function SortBy<T>(xs: seq<T>, key: T -> nat): (r: seq<T>)
    ensures multiset(r) == multiset(xs)
    ensures SortedBy(r, key)
  {
    if xs == [] then []
    else
      assert xs == [xs[0]] + xs[1..];
      InsertKeepsSorted(xs[0], SortBy(xs[1..], key), key);
      InsertBy(xs[0], SortBy(xs[1..], key), key)
  }

  /** Inserting `x` puts it in front of the elements that tie with it. */
  lemma {:induction false} InsertKeepsTies<T>(x: T, xs: seq<T>, key: T -> nat, k: nat)
    ensures WithKey(InsertBy(x, xs, key), key, k) ==
            (if key(x) == k then [x] else []) + WithKey(xs, key, k)
  {
    if xs == [] || key(x) <= key(xs[0]) {
      assert ([x] + xs)[1..] == xs;
    } else {
      var rest := InsertBy(x, xs[1..], key);
      InsertKeepsTies(x, xs[1..], key, k);
      assert ([xs[0]] + rest)[1..] == rest;
    }
  }

  /** The sort is stable: among elements with equal keys the order of the
      input is kept. */
  lemma {:induction false} SortIsStable<T>(xs: seq<T>, key: T -> nat, k: nat)
    ensures WithKey(SortBy(xs, key), key, k) == WithKey(xs, key, k)
  {
    if xs != [] {
      SortIsStable(xs[1..], key, k);
      InsertKeepsTies(xs[0], SortBy(xs[1..], key), key, k);
    }
  }

  /** A sorted sequence starts with an element of least key. */
  lemma SortedHeadIsLeast<T>(xs: seq<T>, key: T -> nat, x: T)
    requires SortedBy(xs, key) && x in xs
    ensures key(xs[0]) <= key(x)
  {
    var j :| 0 <= j < |xs| && xs[j] == x;
    if j > 0 {
      assert key(xs[0]) <= key(xs[j]);
    }
  }

  /** Sorting by key and keeping ties in order determines the result: two
      sorted sequences with the same elements at every key, in the same
      order, are equal. So the insertion sort yields exactly what every
      stable sort yields. */
  lemma {:induction false} StableSortUnique<T>(a: seq<T>, b: seq<T>, key: T -> nat)
    requires SortedBy(a, key) && SortedBy(b, key)
    requires forall k: nat :: WithKey(a, key, k) == WithKey(b, key, k)
    ensures a == b
    decreases |a|
  {
    assert a == [] <==> b == [] by {
      if a != [] {
        assert a[0] in WithKey(a, key, key(a[0]));
      }
      if b != [] {
        assert b[0] in WithKey(b, key, key(b[0]));
      }
    }
    if a != [] {
      var ka, kb := key(a[0]), key(b[0]);
      assert a[0] in WithKey(b, key, ka);
      SortedHeadIsLeast(b, key, a[0]);
      assert b[0] in WithKey(a, key, kb);
      SortedHeadIsLeast(a, key, b[0]);
      assert WithKey(a, key, ka)[0] == a[0];
      assert WithKey(b, key, kb)[0] == b[0];
      forall k: nat ensures WithKey(a[1..], key, k) == WithKey(b[1..], key, k) {
        if k == ka {
          assert WithKey(a[1..], key, k) == WithKey(a, key, k)[1..];
          assert WithKey(b[1..], key, k) == WithKey(b, key, k)[1..];
        } else {
          assert WithKey(a[1..], key, k) == WithKey(a, key, k);
          assert WithKey(b[1..], key, k) == WithKey(b, key, k);
        }
      }
      StableSortUnique(a[1..], b[1..], key);
      assert a == [a[0]] + a[1..] && b == [b[0]] + b[1..];
    }
  }

  /** The first element with key `k` occurs no later than any element of
      `xs` with that key. */
  lemma {:induction false} FirstTieComesFirst<T>(xs: seq<T>, key: T -> nat, k: nat, j: nat)
    requires j < |xs| && key(xs[j]) == k
    ensures WithKey(xs, key, k) != []
    ensures WithKey(xs, key, k)[0] in xs[..j + 1]
  {
    if key(xs[0]) != k {
      FirstTieComesFirst(xs[1..], key, k, j - 1);
      assert xs[1..][..j] == xs[1..j + 1];
    }
  }

  /** The head of a stable sort of `xs` has the least key in `xs`, and no
      element of `xs` with that key comes before it. */
  lemma StableHead<T>(xs: seq<T>, key: T -> nat)
    requires SortBy(xs, key) != []
    ensures var best := SortBy(xs, key)[0];
            && best in xs
            && (forall x :: x in xs ==> key(best) <= key(x))
            && (forall j :: 0 <= j < |xs| && key(xs[j]) == key(best) ==> best in xs[..j + 1])
  {
    var sorted := SortBy(xs, key);
    var best := sorted[0];
    assert best in multiset(xs);
    forall x | x in xs ensures key(best) <= key(x) {
      assert x in multiset(sorted);
      SortedHeadIsLeast(sorted, key, x);
    }
    SortIsStable(xs, key, key(best));
    assert WithKey(sorted, key, key(best))[0] == best;
    forall j | 0 <= j < |xs| && key(xs[j]) == key(best) ensures best in xs[..j + 1] {
      FirstTieComesFirst(xs, key, key(best), j);
    }
  }
}
