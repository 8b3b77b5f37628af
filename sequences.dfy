/**
 * Sequence helpers shared by both cores: the first element satisfying a
 * predicate (Array.prototype.find, or a Python list comprehension read at
 * index 0) and a stable sort by an integer key (Array.prototype.sort with a
 * comparator `(a, b) => a.order - b.order`, which is stable since ES2019).
 */
module Sequences {

  /** Index of the first element of `xs` that satisfies `p`, or -1 when none does. */
  function FirstIndex<T>(xs: seq<T>, p: T -> bool): (i: int)
    ensures -1 <= i < |xs|
    ensures i >= 0 ==> p(xs[i])
    ensures forall j | 0 <= j < |xs| && (i < 0 || j < i) :: !p(xs[j])
  {
    if xs == [] then -1
    else if p(xs[0]) then 0
    else
      var i := FirstIndex(xs[1..], p);
      if i < 0 then -1 else i + 1
  }

  /** `xs` is in ascending order of `key`. */
  ghost predicate SortedBy<T>(xs: seq<T>, key: T -> int) {
    forall i, j | 0 <= i < j < |xs| :: key(xs[i]) <= key(xs[j])
  }

  /** The elements of `xs` whose key is `k`, in their order in `xs`. */
  function WithKey<T>(xs: seq<T>, key: T -> int, k: int): seq<T> {
    if xs == [] then []
    else (if key(xs[0]) == k then [xs[0]] else []) + WithKey(xs[1..], key, k)
  }

  /** Putting `y` in front of a sorted list whose keys are all at least `y`'s keeps it sorted. */
  lemma ConsSorted<T>(y: T, rest: seq<T>, key: T -> int)
    requires SortedBy(rest, key)
    requires forall z | z in rest :: key(y) <= key(z)
    ensures SortedBy([y] + rest, key)
  {
    var r := [y] + rest;
    forall i, j | 0 <= i < j < |r| ensures key(r[i]) <= key(r[j]) {
      assert r[j] == rest[j - 1];
      if i > 0 {
        assert r[i] == rest[i - 1];
      } else {
        assert rest[j - 1] in rest;
      }
    }
  }

  /** Every element of a sorted list has a key at least its first element's. */
  lemma HeadIsLeast<T>(ys: seq<T>, key: T -> int, z: T)
    requires SortedBy(ys, key) && ys != [] && z in ys
    ensures key(ys[0]) <= key(z)
  {
    var k :| 0 <= k < |ys| && ys[k] == z;
    if k > 0 {
      assert key(ys[0]) <= key(ys[k]);
    }
  }

  /**
   * Inserts `x` into the sorted `ys` just before the first element whose key
   * is not smaller than `x`'s, so `x` precedes every element with an equal key.
   */
  function Insert<T>(x: T, ys: seq<T>, key: T -> int): (r: seq<T>)
    requires SortedBy(ys, key)
    ensures |r| == |ys| + 1 && multiset(r) == multiset(ys) + multiset{x}
    ensures SortedBy(r, key)
  {
    if ys == [] || key(x) <= key(ys[0]) then
      ConsSortedInsert(x, ys, key);
      [x] + ys
    else
      var rest := Insert(x, ys[1..], key);
      InsertTail(x, ys, key, rest);
      [ys[0]] + rest
  }

  lemma ConsSortedInsert<T>(x: T, ys: seq<T>, key: T -> int)
    requires SortedBy(ys, key)
    requires ys == [] || key(x) <= key(ys[0])
    ensures SortedBy([x] + ys, key)
  {
    forall z | z in ys ensures key(x) <= key(z) {
      HeadIsLeast(ys, key, z);
    }
    ConsSorted(x, ys, key);
  }

  lemma InsertTail<T>(x: T, ys: seq<T>, key: T -> int, rest: seq<T>)
    requires SortedBy(ys, key) && ys != [] && key(ys[0]) < key(x)
    requires SortedBy(rest, key) && multiset(rest) == multiset(ys[1..]) + multiset{x}
    ensures multiset([ys[0]] + rest) == multiset(ys) + multiset{x}
    ensures SortedBy([ys[0]] + rest, key)
  {
    assert ys == [ys[0]] + ys[1..];
    forall z | z in rest ensures key(ys[0]) <= key(z) {
      assert z in multiset(rest);
      if z != x {
        assert z in multiset(ys[1..]);
        assert z in ys;
        HeadIsLeast(ys, key, z);
      }
    }
    ConsSorted(ys[0], rest, key);
  }

  /** Stable insertion sort of `xs` by ascending `key`, on a copy. */
  function SortBy<T>(xs: seq<T>, key: T -> int): (r: seq<T>)
    ensures |r| == |xs| && multiset(r) == multiset(xs)
    ensures SortedBy(r, key)
  {
    if xs == [] then []
    else
      assert xs == [xs[0]] + xs[1..];
      Insert(xs[0], SortBy(xs[1..], key), key)
  }

  lemma WithKeyCons<T>(y: T, zs: seq<T>, key: T -> int, k: int)
    ensures WithKey([y] + zs, key, k) == (if key(y) == k then [y] else []) + WithKey(zs, key, k)
  {
    assert ([y] + zs)[0] == y && ([y] + zs)[1..] == zs;
  }

  lemma {:induction false} InsertWithKey<T>(x: T, ys: seq<T>, key: T -> int, k: int)
    requires SortedBy(ys, key)
    ensures WithKey(Insert(x, ys, key), key, k) == (if key(x) == k then [x] else []) + WithKey(ys, key, k)
  {
    var mine := if key(x) == k then [x] else [];
    if ys == [] || key(x) <= key(ys[0]) {
      assert Insert(x, ys, key) == [x] + ys;
      WithKeyCons(x, ys, key, k);
    } else {
      var tail := ys[1..];
      var rest := Insert(x, tail, key);
      var head := if key(ys[0]) == k then [ys[0]] else [];
      calc {
        WithKey(Insert(x, ys, key), key, k);
        == { assert Insert(x, ys, key) == [ys[0]] + rest; }
        WithKey([ys[0]] + rest, key, k);
        == { WithKeyCons(ys[0], rest, key, k); }
        head + WithKey(rest, key, k);
        == { InsertWithKey(x, tail, key, k); }
        head + (mine + WithKey(tail, key, k));
        == { assert head == [] || mine == []; }  // `ys[0]`'s key is below `x`'s: at most one of them has key `k`
        mine + (head + WithKey(tail, key, k));
        == { assert ys == [ys[0]] + tail; WithKeyCons(ys[0], tail, key, k); }
        mine + WithKey(ys, key, k);
      }
    }
  }

  /** Stability: for every key, the elements carrying it keep their relative order. */
  lemma {:induction false} SortByStable<T>(xs: seq<T>, key: T -> int, k: int)
    ensures WithKey(SortBy(xs, key), key, k) == WithKey(xs, key, k)
  {
    if xs != [] {
      SortByStable(xs[1..], key, k);
      InsertWithKey(xs[0], SortBy(xs[1..], key), key, k);
    }
  }

  /** The renderings of the elements of `xs`, concatenated in order. */
  function Flatten<T>(xs: seq<T>, render: T -> string): string {
    if xs == [] then "" else Flatten(xs[..|xs| - 1], render) + render(xs[|xs| - 1])
  }

  lemma FlattenSnoc<T>(xs: seq<T>, x: T, render: T -> string)
    ensures Flatten(xs + [x], render) == Flatten(xs, render) + render(x)
  {
    assert (xs + [x])[..|xs|] == xs;
  }

  lemma {:induction false} FlattenAppend<T>(xs: seq<T>, ys: seq<T>, render: T -> string)
    ensures Flatten(xs + ys, render) == Flatten(xs, render) + Flatten(ys, render)
  {
    if ys == [] {
      assert xs + ys == xs;
    } else {
      var init, last := ys[..|ys| - 1], ys[|ys| - 1];
      assert ys == init + [last];
      assert xs + ys == (xs + init) + [last];
      FlattenSnoc(xs + init, last, render);
      FlattenSnoc(init, last, render);
      FlattenAppend(xs, init, render);
    }
  }
}
