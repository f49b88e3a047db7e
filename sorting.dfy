/** Python's `sorted(xs, key=...)` for natural keys: a stable sort, written as
    an insertion sort that places each element after every element whose key
    is not greater than its own. */
module Sorting {
  import opened Strings
  import opened Natural

  /** Insert `x` in front of the first element whose key is greater than its
      own. */
  function Insert<T>(x: T, s: seq<T>, key: T -> seq<KeyPart>): (r: seq<T>)
    ensures |r| == |s| + 1
  {
    if |s| == 0 then [x]
    else if KeyLt(key(x), key(s[0])) then [x] + s
    else [s[0]] + Insert(x, s[1..], key)
  }

  /** `sorted(xs, key=key)`. */
  function SortBy<T>(xs: seq<T>, key: T -> seq<KeyPart>): (r: seq<T>)
    ensures |r| == |xs|
  {
    if |xs| == 0 then []
    else Insert(xs[|xs| - 1], SortBy(xs[..|xs| - 1], key), key)
  }

  /** No element has a key smaller than an element before it. */
  ghost predicate SortedBy<T>(s: seq<T>, key: T -> seq<KeyPart>) {
    forall i, j :: 0 <= i < j < |s| ==> !KeyLt(key(s[j]), key(s[i]))
  }

  /** The elements whose key is `k`, in order. */
  function WithKey<T>(s: seq<T>, key: T -> seq<KeyPart>, k: seq<KeyPart>): seq<T> {
    if |s| == 0 then []
    else (if key(s[0]) == k then [s[0]] else []) + WithKey(s[1..], key, k)
  }

  lemma {:induction false} WithKeyAppend<T>(a: seq<T>, b: seq<T>, key: T -> seq<KeyPart>, k: seq<KeyPart>)
    ensures WithKey(a + b, key, k) == WithKey(a, key, k) + WithKey(b, key, k)
  {
    if |a| == 0 {
      assert a + b == b;
    } else {
      WithKeyAppend(a[1..], b, key, k);
      assert (a + b)[1..] == a[1..] + b;
      assert (a + b)[0] == a[0];
      var head := if key(a[0]) == k then [a[0]] else [];
      SeqAssoc(head, WithKey(a[1..], key, k), WithKey(b, key, k));
    }
  }

  /** No element of `s` has a key below `k`. */
  ghost predicate AtLeast<T>(s: seq<T>, key: T -> seq<KeyPart>, k: seq<KeyPart>) {
    forall i :: 0 <= i < |s| ==> !KeyLt(key(s[i]), k)
  }

  lemma SortedCons<T>(a: T, t: seq<T>, key: T -> seq<KeyPart>)
    requires SortedBy(t, key) && AtLeast(t, key, key(a))
    ensures SortedBy([a] + t, key)
  {
    var s := [a] + t;
    forall i, j | 0 <= i < j < |s|
      ensures !KeyLt(key(s[j]), key(s[i]))
    {
      assert s[j] == t[j - 1];
      if i > 0 { assert s[i] == t[i - 1]; }
    }
  }

  lemma {:induction false} InsertAtLeast<T>(x: T, s: seq<T>, key: T -> seq<KeyPart>, k: seq<KeyPart>)
    requires AtLeast(s, key, k) && !KeyLt(key(x), k)
    ensures AtLeast(Insert(x, s, key), key, k)
  {
    if |s| > 0 && !KeyLt(key(x), key(s[0])) {
      InsertAtLeast(x, s[1..], key, k);
      var r := Insert(x, s, key);
      assert r == [s[0]] + Insert(x, s[1..], key);
      forall i | 0 < i < |r| ensures !KeyLt(key(r[i]), k) {
        assert r[i] == Insert(x, s[1..], key)[i - 1];
      }
    } else if |s| > 0 {
      var r := Insert(x, s, key);
      forall i | 0 < i < |r| ensures !KeyLt(key(r[i]), k) {
        assert r[i] == s[i - 1];
      }
    }
  }

  lemma {:induction false} InsertSorted<T>(x: T, s: seq<T>, key: T -> seq<KeyPart>)
    requires SortedBy(s, key)
    ensures SortedBy(Insert(x, s, key), key)
    ensures multiset(Insert(x, s, key)) == multiset(s) + multiset{x}
  {
    if |s| == 0 {
    } else if KeyLt(key(x), key(s[0])) {
      forall i | 0 <= i < |s|
        ensures !KeyLt(key(s[i]), key(x))
      {
        if KeyLt(key(s[i]), key(x)) {
          KeyLtTransitive(key(s[i]), key(x), key(s[0]));
          if i == 0 {
            KeyLtIrreflexive(key(s[0]));
          }
          assert false;
        }
      }
      SortedCons(x, s, key);
    } else {
      var rest := s[1..];
      assert s == [s[0]] + rest;
      assert SortedBy(rest, key);
      InsertSorted(x, rest, key);
      assert AtLeast(rest, key, key(s[0])) by {
        forall i | 0 <= i < |rest| ensures !KeyLt(key(rest[i]), key(s[0])) {
          assert rest[i] == s[i + 1];
        }
      }
      InsertAtLeast(x, rest, key, key(s[0]));
      SortedCons(s[0], Insert(x, rest, key), key);
    }
  }

  /** Sorting yields a permutation of the input in key order. */
  lemma {:induction false} SortBySorted<T>(xs: seq<T>, key: T -> seq<KeyPart>)
    ensures SortedBy(SortBy(xs, key), key)
    ensures multiset(SortBy(xs, key)) == multiset(xs)
  {
    if |xs| > 0 {
      var n := |xs|;
      SortBySorted(xs[..n - 1], key);
      InsertSorted(xs[n - 1], SortBy(xs[..n - 1], key), key);
      assert xs == xs[..n - 1] + [xs[n - 1]];
    }
  }

  /** Inserting adds `x` after every element with an equal key. */
  lemma {:induction false} InsertStable<T>(x: T, s: seq<T>, key: T -> seq<KeyPart>, k: seq<KeyPart>)
    requires SortedBy(s, key)
    ensures WithKey(Insert(x, s, key), key, k)
            == WithKey(s, key, k) + (if key(x) == k then [x] else [])
  {
    if |s| == 0 {
    } else if KeyLt(key(x), key(s[0])) {
      assert WithKey([x] + s, key, k) == (if key(x) == k then [x] else []) + WithKey(s, key, k) by {
        assert ([x] + s)[1..] == s;
      }
      if key(x) == k {
        NoneWithKey(s, key, k);
      }
    } else {
      assert SortedBy(s[1..], key);
      InsertStable(x, s[1..], key, k);
      assert ([s[0]] + Insert(x, s[1..], key))[1..] == Insert(x, s[1..], key);
    }
  }

  /** In a sorted sequence whose first key is above `k`, no key is `k`. */
  lemma {:induction false} NoneWithKey<T>(s: seq<T>, key: T -> seq<KeyPart>, k: seq<KeyPart>)
    requires SortedBy(s, key) && |s| > 0 && KeyLt(k, key(s[0]))
    ensures WithKey(s, key, k) == []
  {
    KeyLtIrreflexive(k);
    if |s| > 1 {
      assert !KeyLt(key(s[1]), key(s[0]));
      assert KeyLt(k, key(s[1])) by {
        if key(s[1]) != key(s[0]) {
          KeyLtTotal(key(s[0]), key(s[1]));
          KeyLtTransitive(k, key(s[0]), key(s[1]));
        }
      }
      assert SortedBy(s[1..], key);
      NoneWithKey(s[1..], key, k);
    }
  }

  /** The sort is stable: the elements that share a key keep their input
      order. */
  lemma {:induction false} SortByStable<T>(xs: seq<T>, key: T -> seq<KeyPart>, k: seq<KeyPart>)
    ensures WithKey(SortBy(xs, key), key, k) == WithKey(xs, key, k)
  {
    if |xs| > 0 {
      var n := |xs|;
      SortByStable(xs[..n - 1], key, k);
      SortBySorted(xs[..n - 1], key);
      InsertStable(xs[n - 1], SortBy(xs[..n - 1], key), key, k);
      assert xs == xs[..n - 1] + [xs[n - 1]];
      WithKeyAppend(xs[..n - 1], [xs[n - 1]], key, k);
    }
  }
}
