/**
 The stable sort by an integer key that Python's `sorted(key=...)` and Rust's
 `sort_by_key` promise: a specification function and the laws that pin it down.
 */
module StableSort {

  ghost predicate SortedBy<T>(s: seq<T>, key: T -> int) {
    forall i, j :: 0 <= i < j < |s| ==> key(s[i]) <= key(s[j])
  }

  /** The elements of `s` with key `k`, in order. */
  ghost function WithKey<T>(s: seq<T>, key: T -> int, k: int): seq<T> {
    if s == [] then [] else (if key(s[0]) == k then [s[0]] else []) + WithKey(s[1..], key, k)
  }

  /** The elements with each key are the same, in the same order. */
  ghost predicate SameByKey<T>(a: seq<T>, b: seq<T>, key: T -> int) {
    forall k :: WithKey(a, key, k) == WithKey(b, key, k)
  }

  function Insert<T>(x: T, s: seq<T>, key: T -> int): seq<T> {
    if s == [] || key(x) <= key(s[0]) then [x] + s else [s[0]] + Insert(x, s[1..], key)
  }

  function Sort<T>(s: seq<T>, key: T -> int): seq<T> {
    if s == [] then [] else Insert(s[0], Sort(s[1..], key), key)
  }

  lemma {:induction false} InsertBag<T>(x: T, s: seq<T>, key: T -> int)
    ensures multiset(Insert(x, s, key)) == multiset{x} + multiset(s)
  {
    if s != [] && key(x) > key(s[0]) {
      InsertBag(x, s[1..], key);
      assert s == [s[0]] + s[1..];
    }
  }

  /** The sort is a permutation. */
  lemma {:induction false} SortBag<T>(s: seq<T>, key: T -> int)
    ensures multiset(Sort(s, key)) == multiset(s)
  {
    if s != [] {
      SortBag(s[1..], key);
      InsertBag(s[0], Sort(s[1..], key), key);
      assert s == [s[0]] + s[1..];
    }
  }

  lemma {:induction false} SortMembers<T>(s: seq<T>, key: T -> int)
    ensures forall x :: x in Sort(s, key) <==> x in s
  {
    SortBag(s, key);
    forall x ensures x in Sort(s, key) <==> x in s {
      assert x in Sort(s, key) <==> x in multiset(Sort(s, key));
      assert x in s <==> x in multiset(s);
    }
  }

  lemma {:induction false} InsertSorted<T>(x: T, s: seq<T>, key: T -> int)
    requires SortedBy(s, key)
    ensures SortedBy(Insert(x, s, key), key)
  {
    if s != [] && key(x) > key(s[0]) {
      InsertSorted(x, s[1..], key);
      var r := Insert(x, s[1..], key);
      InsertBag(x, s[1..], key);
      forall i | 0 <= i < |r| ensures key(s[0]) <= key(r[i]) {
        assert r[i] in multiset(r);
        assert r[i] == x || r[i] in multiset(s[1..]);
      }
    }
  }

  lemma {:induction false} WithKeyCons<T>(x: T, s: seq<T>, key: T -> int, k: int)
    ensures WithKey([x] + s, key, k) == (if key(x) == k then [x] else []) + WithKey(s, key, k)
  {
    assert ([x] + s)[1..] == s;
  }

  lemma {:induction false} InsertWithKey<T>(x: T, s: seq<T>, key: T -> int, k: int)
    requires SortedBy(s, key)
    ensures WithKey(Insert(x, s, key), key, k) == (if key(x) == k then [x] else []) + WithKey(s, key, k)
  {
    if s != [] && key(x) > key(s[0]) {
      var rest, r := WithKey(s[1..], key, k), Insert(x, s[1..], key);
      WithKeyCons(s[0], r, key, k);
      InsertWithKey(x, s[1..], key, k);
      if key(x) == k {
        assert WithKey(r, key, k) == [x] + rest;
        assert [] + WithKey(r, key, k) == [x] + ([] + rest);
      } else {
        assert WithKey(r, key, k) == [] + rest == rest;
        assert WithKey(s, key, k) == [] + WithKey(s, key, k);
      }
    } else {
      WithKeyCons(x, s, key, k);
    }
  }

  /** The sort is ordered and keeps the order of elements with equal keys. */
  lemma {:induction false} SortIsStable<T>(s: seq<T>, key: T -> int)
    ensures SortedBy(Sort(s, key), key)
    ensures SameByKey(Sort(s, key), s, key)
  {
    if s != [] {
      SortIsStable(s[1..], key);
      InsertSorted(s[0], Sort(s[1..], key), key);
      forall k ensures WithKey(Sort(s, key), key, k) == WithKey(s, key, k) {
        InsertWithKey(s[0], Sort(s[1..], key), key, k);
      }
    }
  }

  lemma {:induction false} WithKeyMembers<T>(s: seq<T>, key: T -> int, k: int)
    ensures forall x :: x in WithKey(s, key, k) <==> x in s && key(x) == k
  {
    if s != [] {
      WithKeyMembers(s[1..], key, k);
      assert s == [s[0]] + s[1..];
    }
  }

  /** Sequences ordered by key with the same same-key subsequences start alike. */
  lemma {:induction false} SameHead<T>(a: seq<T>, b: seq<T>, key: T -> int)
    requires SortedBy(a, key) && SortedBy(b, key) && SameByKey(a, b, key) && a != [] && b != []
    ensures a[0] == b[0]
  {
    var i, j := key(a[0]), key(b[0]);
    WithKeyMembers(b, key, i);
    WithKeyMembers(a, key, j);
    assert WithKey(a, key, i)[0] == a[0] && WithKey(b, key, j)[0] == b[0];
    assert a[0] in WithKey(b, key, i) && b[0] in WithKey(a, key, j);
    assert i == j;
  }

  lemma {:induction false} TailWithKey<T>(s: seq<T>, key: T -> int, k: int)
    requires s != []
    ensures WithKey(s, key, k) == (if key(s[0]) == k then [s[0]] else []) + WithKey(s[1..], key, k)
    ensures WithKey(s[1..], key, k) == WithKey(s, key, k)[if key(s[0]) == k then 1 else 0..]
  {
  }

  lemma {:induction false} SameByKeyBothEmpty<T>(a: seq<T>, b: seq<T>, key: T -> int)
    requires SameByKey(a, b, key)
    ensures a == [] <==> b == []
  {
    assert a != [] ==> WithKey(a, key, key(a[0])) != [];
    assert b != [] ==> WithKey(b, key, key(b[0])) != [];
  }

  lemma {:induction false} SameByKeyTails<T>(a: seq<T>, b: seq<T>, key: T -> int)
    requires SameByKey(a, b, key) && a != [] && b != [] && a[0] == b[0]
    ensures SameByKey(a[1..], b[1..], key)
  {
    forall k ensures WithKey(a[1..], key, k) == WithKey(b[1..], key, k) {
      TailWithKey(a, key, k);
      TailWithKey(b, key, k);
    }
  }

  /** Only one sequence is ordered by key and keeps every same-key subsequence. */
  lemma {:induction false} StableSortIsUnique<T>(a: seq<T>, b: seq<T>, key: T -> int)
    requires SortedBy(a, key) && SortedBy(b, key) && SameByKey(a, b, key)
    ensures a == b
  {
    SameByKeyBothEmpty(a, b, key);
    if a != [] {
      SameHead(a, b, key);
      SameByKeyTails(a, b, key);
      StableSortIsUnique(a[1..], b[1..], key);
      assert a == [a[0]] + a[1..] && b == [b[0]] + b[1..];
    }
  }
}
