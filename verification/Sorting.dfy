/** Stable sorting by an integer key, as java.util documents it for object lists. */
module Sorting {
  ghost predicate Sorted<T(!new)>(s: seq<T>, key: T -> int) {
    forall i, j :: 0 <= i < j < |s| ==> key(s[i]) <= key(s[j])
  }

  /** The elements of s with key k, in order. */
  function WithKey<T>(s: seq<T>, key: T -> int, k: int): seq<T> {
    if s == [] then []
    else if key(s[0]) == k then [s[0]] + WithKey(s[1..], key, k)
    else WithKey(s[1..], key, k)
  }

  /** t has the elements of s, and elements with equal keys keep their order. */
  ghost predicate StablePermutation<T(!new)>(s: seq<T>, t: seq<T>, key: T -> int) {
    forall k :: WithKey(t, key, k) == WithKey(s, key, k)
  }

  function Insert<T>(x: T, s: seq<T>, key: T -> int): seq<T> {
    if s == [] || key(x) <= key(s[0]) then [x] + s
    else [s[0]] + Insert(x, s[1..], key)
  }

  function Sort<T>(s: seq<T>, key: T -> int): seq<T> {
    if s == [] then [] else Insert(s[0], Sort(s[1..], key), key)
  }

  // ---- Sort is a stable sort ---------------------------------------------------

  lemma {:induction false} InsertClass<T(!new)>(x: T, s: seq<T>, key: T -> int, k: int)
    ensures WithKey(Insert(x, s, key), key, k) == (if key(x) == k then [x] else []) + WithKey(s, key, k)
  {
    if s == [] || key(x) <= key(s[0]) {
      assert ([x] + s)[1..] == s;
    } else {
      InsertClass(x, s[1..], key, k);
      var t := Insert(x, s, key);
      assert t[0] == s[0] && t[1..] == Insert(x, s[1..], key);
      if key(s[0]) == k { assert key(x) != k; }
    }
  }

  lemma {:induction false} InsertSorted<T(!new)>(x: T, s: seq<T>, key: T -> int)
    requires Sorted(s, key)
    ensures Sorted(Insert(x, s, key), key)
    ensures forall y :: y in Insert(x, s, key) ==> y == x || y in s
  {
    if !(s == [] || key(x) <= key(s[0])) {
      InsertSorted(x, s[1..], key);
      var t := Insert(x, s[1..], key);
      forall i | 0 <= i < |t| ensures key(s[0]) <= key(t[i]) {
        assert t[i] == x || t[i] in s[1..];
      }
    }
  }

  /** The result is sorted and a stable permutation. */
  lemma {:induction false} SortIsStable<T(!new)>(s: seq<T>, key: T -> int)
    ensures Sorted(Sort(s, key), key)
    ensures StablePermutation(s, Sort(s, key), key)
  {
    if s != [] {
      SortIsStable(s[1..], key);
      InsertSorted(s[0], Sort(s[1..], key), key);
      forall k ensures WithKey(Sort(s, key), key, k) == WithKey(s, key, k) {
        InsertClass(s[0], Sort(s[1..], key), key, k);
      }
    }
  }

  lemma DropFirst<T(!new)>(s: seq<T>, key: T -> int, k: int)
    requires s != []
    ensures WithKey(s[1..], key, k) == if key(s[0]) == k then WithKey(s, key, k)[1..] else WithKey(s, key, k)
  {}

  lemma {:induction false} ClassMember<T(!new)>(s: seq<T>, key: T -> int, k: int) returns (i: nat)
    requires WithKey(s, key, k) != []
    ensures i < |s| && key(s[i]) == k
  {
    if key(s[0]) == k {
      i := 0;
    } else {
      i := ClassMember(s[1..], key, k);
      i := i + 1;
    }
  }

  /** u is not empty and its least key is at most that of t. */
  lemma FirstFound<T(!new)>(t: seq<T>, u: seq<T>, key: T -> int)
    requires t != [] && Sorted(t, key) && Sorted(u, key)
    requires forall k :: WithKey(t, key, k) == WithKey(u, key, k)
    ensures u != [] && key(u[0]) <= key(t[0])
  {
    var k := key(t[0]);
    assert WithKey(t, key, k) == WithKey(u, key, k);
    var i := ClassMember(u, key, k);
  }

  /** There is only one sorted stable permutation, so any implementation that
      meets the documented contract computes Sort. */
  lemma {:induction false} StableSortUnique<T(!new)>(t: seq<T>, u: seq<T>, key: T -> int)
    requires Sorted(t, key) && Sorted(u, key) && StablePermutation(t, u, key)
    ensures t == u
    decreases |t|
  {
    if t == [] {
      if u != [] { FirstFound(u, t, key); }
    } else {
      FirstFound(t, u, key);
      FirstFound(u, t, key);
      var k := key(t[0]);
      assert WithKey(u, key, k) == WithKey(t, key, k);
      assert WithKey(t, key, k)[0] == t[0] && WithKey(u, key, k)[0] == u[0];
      forall j ensures WithKey(u[1..], key, j) == WithKey(t[1..], key, j) {
        assert WithKey(u, key, j) == WithKey(t, key, j);
        DropFirst(t, key, j);
        DropFirst(u, key, j);
      }
      StableSortUnique(t[1..], u[1..], key);
      assert t == [t[0]] + t[1..] && u == [u[0]] + u[1..];
    }
  }

  lemma {:induction false} ClassConcat<T(!new)>(s: seq<T>, t: seq<T>, key: T -> int, k: int)
    ensures WithKey(s + t, key, k) == WithKey(s, key, k) + WithKey(t, key, k)
  {
    if s == [] {
      assert s + t == t;
    } else {
      assert (s + t)[1..] == s[1..] + t;
      ClassConcat(s[1..], t, key, k);
    }
  }

  /** Sorting after every addition is the same as sorting everything once. */
  lemma SortAgain<T(!new)>(s: seq<T>, x: T, key: T -> int)
    ensures Sort(Sort(s, key) + [x], key) == Sort(s + [x], key)
  {
    var t, u := Sort(Sort(s, key) + [x], key), Sort(s + [x], key);
    SortIsStable(s, key);
    SortIsStable(Sort(s, key) + [x], key);
    SortIsStable(s + [x], key);
    forall k ensures WithKey(u, key, k) == WithKey(t, key, k) {
      assert WithKey(t, key, k) == WithKey(Sort(s, key) + [x], key, k);
      assert WithKey(u, key, k) == WithKey(s + [x], key, k);
      ClassConcat(Sort(s, key), [x], key, k);
      ClassConcat(s, [x], key, k);
    }
    StableSortUnique(t, u, key);
  }
}
