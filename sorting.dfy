/**
  `Array.prototype.sort` with a numeric comparator `(a, b) => key(a) - key(b)`. The
  ECMAScript specification requires this sort to be stable, so its result is determined:
  ascending by key, and elements with equal keys in their original order. The model is an
  insertion sort with those two properties proved.
*/
module StableSort {

  predicate Sorted<T>(s: seq<T>, key: T -> real) {
    forall i, j :: 0 <= i < j < |s| ==> key(s[i]) <= key(s[j])
  }

  /** The elements of `s` whose key is `k`, in the order of `s`. */
  function WithKey<T>(s: seq<T>, key: T -> real, k: real): seq<T> {
    if s == [] then []
    else (if key(s[0]) == k then [s[0]] else []) + WithKey(s[1..], key, k)
  }

  /** Place `x` before the first element whose key is not smaller than its own. */
  function Insert<T>(x: T, t: seq<T>, key: T -> real): (r: seq<T>)
    ensures multiset(r) == multiset(t) + multiset{x}
    ensures |r| == |t| + 1
  {
    if t == [] || key(x) <= key(t[0]) then [x] + t
    else
      assert t == [t[0]] + t[1..];
      [t[0]] + Insert(x, t[1..], key)
  }

  function Sort<T>(s: seq<T>, key: T -> real): (r: seq<T>)
    ensures multiset(r) == multiset(s)
    ensures |r| == |s|
  {
    if s == [] then []
    else
      assert s == [s[0]] + s[1..];
      Insert(s[0], Sort(s[1..], key), key)
  }

  predicate AllAtLeast<T>(s: seq<T>, key: T -> real, b: real) {
    forall i :: 0 <= i < |s| ==> b <= key(s[i])
  }

  lemma {:induction false} InsertAtLeast<T>(x: T, t: seq<T>, key: T -> real, b: real)
    requires AllAtLeast(t, key, b) && b <= key(x)
    ensures AllAtLeast(Insert(x, t, key), key, b)
  {
    if t != [] && key(x) > key(t[0]) {
      InsertAtLeast(x, t[1..], key, b);
    }
  }

  lemma {:induction false} InsertSorted<T>(x: T, t: seq<T>, key: T -> real)
    requires Sorted(t, key)
    ensures Sorted(Insert(x, t, key), key)
  {
    if t != [] && key(x) > key(t[0]) {
      var rest := t[1..];
      InsertSorted(x, rest, key);
      assert AllAtLeast(rest, key, key(t[0])) by {
        forall i | 0 <= i < |rest| ensures key(t[0]) <= key(rest[i]) {
          assert rest[i] == t[i + 1];
        }
      }
      InsertAtLeast(x, rest, key, key(t[0]));
      var r := Insert(x, rest, key);
      assert Insert(x, t, key) == [t[0]] + r;
      forall i, j | 0 <= i < j < |r| + 1
        ensures key(([t[0]] + r)[i]) <= key(([t[0]] + r)[j])
      {
        if i > 0 {
          assert ([t[0]] + r)[i] == r[i - 1] && ([t[0]] + r)[j] == r[j - 1];
        } else {
          assert ([t[0]] + r)[j] == r[j - 1];
        }
      }
    }
  }

  lemma {:induction false} InsertWithKey<T>(x: T, t: seq<T>, key: T -> real, k: real)
    ensures WithKey(Insert(x, t, key), key, k)
      == (if key(x) == k then [x] else []) + WithKey(t, key, k)
  {
    if t == [] || key(x) <= key(t[0]) {
      WithKeyCons(x, t, key, k);
    } else {
      InsertWithKey(x, t[1..], key, k);
      InsertWithKeyPast(x, t, key, k);
    }
  }

  lemma WithKeyCons<T>(x: T, t: seq<T>, key: T -> real, k: real)
    ensures WithKey([x] + t, key, k) == (if key(x) == k then [x] else []) + WithKey(t, key, k)
  {
    assert ([x] + t)[0] == x && ([x] + t)[1..] == t;
  }

  /** Inserting past the head: the head keeps its place among the elements with key `k`. */
  lemma InsertWithKeyPast<T>(x: T, t: seq<T>, key: T -> real, k: real)
    requires t != [] && key(t[0]) < key(x)
    requires WithKey(Insert(x, t[1..], key), key, k) == (if key(x) == k then [x] else []) + WithKey(t[1..], key, k)
    ensures WithKey(Insert(x, t, key), key, k) == (if key(x) == k then [x] else []) + WithKey(t, key, k)
  {
    var ins := Insert(x, t[1..], key);
    var w := WithKey(t[1..], key, k);
    var xs := if key(x) == k then [x] else [];
    var heads := if key(t[0]) == k then [t[0]] else [];
    assert Insert(x, t, key) == [t[0]] + ins;
    assert WithKey(t, key, k) == heads + w;
    WithKeyCons(t[0], ins, key, k);
    assert xs == [] || heads == [];
    SwapAroundEmpty(xs, heads, w);
  }

  lemma SwapAroundEmpty<T>(a: seq<T>, b: seq<T>, w: seq<T>)
    requires a == [] || b == []
    ensures a + (b + w) == b + (a + w)
  {
    if a == [] {
      assert a + (b + w) == b + w;
    } else {
      assert b + (a + w) == a + w;
    }
  }

  /** The sort orders by key. */
  lemma {:induction false} SortSorted<T>(s: seq<T>, key: T -> real)
    ensures Sorted(Sort(s, key), key)
  {
    if s != [] {
      SortSorted(s[1..], key);
      InsertSorted(s[0], Sort(s[1..], key), key);
    }
  }

  /** The sort is stable: for every key, the elements with that key keep their order. */
  lemma {:induction false} SortStable<T>(s: seq<T>, key: T -> real, k: real)
    ensures WithKey(Sort(s, key), key, k) == WithKey(s, key, k)
  {
    if s != [] {
      SortStable(s[1..], key, k);
      InsertWithKey(s[0], Sort(s[1..], key), key, k);
    }
  }

  /** A sequence already in order is left as it is. */
  lemma {:induction false} SortOfSorted<T>(s: seq<T>, key: T -> real)
    requires Sorted(s, key)
    ensures Sort(s, key) == s
  {
    if s != [] {
      SortOfSorted(s[1..], key);
      var t := s[1..];
      assert t == [] || key(s[0]) <= key(t[0]);
      assert s == [s[0]] + t;
    }
  }

  /**
    Sorting `a` followed by an already sorted `b` is sorting `a + b`: a recursion that sorts
    each suffix and then the whole gives the same list as one sort at the end.
  */
  lemma TailOfConcat<T>(a: seq<T>, b: seq<T>)
    requires a != []
    ensures (a + b)[1..] == a[1..] + b && (a + b)[0] == a[0]
  {
  }

  lemma {:induction false} SortAfterSortedSuffix<T>(a: seq<T>, b: seq<T>, key: T -> real)
    ensures Sort(a + Sort(b, key), key) == Sort(a + b, key)
  {
    if a == [] {
      assert a + Sort(b, key) == Sort(b, key);
      assert a + b == b;
      SortSorted(b, key);
      SortOfSorted(Sort(b, key), key);
    } else {
      var left := a + Sort(b, key);
      var whole := a + b;
      SortAfterSortedSuffix(a[1..], b, key);
      TailOfConcat(a, Sort(b, key));
      TailOfConcat(a, b);
      assert left[0] == whole[0];
      assert Sort(left, key) == Insert(left[0], Sort(left[1..], key), key);
      assert Sort(whole, key) == Insert(whole[0], Sort(whole[1..], key), key);
    }
  }
}
