/** The stable sort of `Array.prototype.sort` (section 22.1.3.27 of ECMA-262,
    10th edition) called with a comparator of the form `(a, b) => key(b) - key(a)`:
    largest key first, and elements with equal keys kept in their input order. */
module Sorting {

  /** Puts `x` in front of the first element whose key is not above its own. */
  function Insert<T>(x: T, s: seq<T>, key: T -> real): (r: seq<T>)
    ensures multiset(r) == multiset{x} + multiset(s)
  {
    if s == [] then [x]
    else if key(s[0]) <= key(x) then [x] + s
    else
      assert s == [s[0]] + s[1..];
      [s[0]] + Insert(x, s[1..], key)
  }

  /** Stable insertion sort on descending key. */
  function SortDescending<T>(s: seq<T>, key: T -> real): (r: seq<T>)
    ensures multiset(r) == multiset(s)
  {
    if s == [] then []
    else
      assert s == [s[0]] + s[1..];
      Insert(s[0], SortDescending(s[1..], key), key)
  }

  /** The comparator never asks to swap a neighbouring pair: keys do not increase. */
  ghost predicate Descending<T>(s: seq<T>, key: T -> real) {
    forall i, j :: 0 <= i < j < |s| ==> key(s[i]) >= key(s[j])
  }

  /** The elements whose key is `k`, in their order. */
  function WithKey<T>(s: seq<T>, key: T -> real, k: real): (r: seq<T>)
    ensures |r| <= |s|
  {
    if s == [] then []
    else (if key(s[0]) == k then [s[0]] else []) + WithKey(s[1..], key, k)
  }

  /** WithKey over a sequence with a known first element. */
  lemma WithKeyCons<T>(x: T, s: seq<T>, key: T -> real, k: real)
    ensures WithKey([x] + s, key, k) == (if key(x) == k then [x] else []) + WithKey(s, key, k)
  {
    assert ([x] + s)[1..] == s;
  }

  /** When every key is `k`, WithKey keeps everything. */
  lemma {:induction false} WithKeyAll<T>(s: seq<T>, key: T -> real, k: real)
    requires forall i :: 0 <= i < |s| ==> key(s[i]) == k
    ensures WithKey(s, key, k) == s
  {
    if s != [] {
      WithKeyAll(s[1..], key, k);
    }
  }

  /** Dropping the first element keeps a sequence descending. */
  lemma DescendingTail<T>(s: seq<T>, key: T -> real)
    requires s != [] && Descending(s, key)
    ensures Descending(s[1..], key)
  {
    forall i, j | 0 <= i < j < |s| - 1
      ensures key(s[1..][i]) >= key(s[1..][j])
    {
      assert s[1..][i] == s[i + 1] && s[1..][j] == s[j + 1];
    }
  }

  /** Inserting an element no larger than a bound into elements no larger than it
      gives elements no larger than it. */
  lemma {:induction false} InsertBelow<T>(x: T, s: seq<T>, key: T -> real, m: real)
    requires key(x) <= m
    requires forall i :: 0 <= i < |s| ==> key(s[i]) <= m
    ensures forall i :: 0 <= i < |Insert(x, s, key)| ==> key(Insert(x, s, key)[i]) <= m
  {
    if s != [] && key(s[0]) > key(x) {
      InsertBelow(x, s[1..], key, m);
    }
  }

  /** An element no smaller than every key of a descending sequence can go in front. */
  lemma DescendingCons<T>(y: T, r: seq<T>, key: T -> real)
    requires Descending(r, key)
    requires forall i :: 0 <= i < |r| ==> key(r[i]) <= key(y)
    ensures Descending([y] + r, key)
  {
    forall i, j | 0 <= i < j < |r| + 1
      ensures key(([y] + r)[i]) >= key(([y] + r)[j])
    {
      assert ([y] + r)[j] == r[j - 1];
      if i > 0 {
        assert ([y] + r)[i] == r[i - 1];
      }
    }
  }

  /** Inserting into a descending sequence keeps it descending. */
  lemma {:induction false} InsertDescending<T>(x: T, s: seq<T>, key: T -> real)
    requires Descending(s, key)
    ensures Descending(Insert(x, s, key), key)
  {
    if s == [] {
    } else if key(s[0]) <= key(x) {
      DescendingCons(x, s, key);
    } else {
      DescendingTail(s, key);
      InsertDescending(x, s[1..], key);
      InsertBelow(x, s[1..], key, key(s[0]));
      DescendingCons(s[0], Insert(x, s[1..], key), key);
      assert Insert(x, s, key) == [s[0]] + Insert(x, s[1..], key);
    }
  }

  /** The result of SortDescending is ordered by descending key. */
  lemma {:induction false} SortIsDescending<T>(s: seq<T>, key: T -> real)
    ensures Descending(SortDescending(s, key), key)
  {
    if s != [] {
      SortIsDescending(s[1..], key);
      InsertDescending(s[0], SortDescending(s[1..], key), key);
    }
  }

  /** One step of InsertTies: `x` goes past a first element with a larger key. */
  lemma InsertTiesPast<T>(x: T, s: seq<T>, key: T -> real, k: real)
    requires s != [] && key(s[0]) > key(x)
    requires WithKey(Insert(x, s[1..], key), key, k)
          == (if key(x) == k then [x] else []) + WithKey(s[1..], key, k)
    ensures WithKey(Insert(x, s, key), key, k)
         == (if key(x) == k then [x] else []) + WithKey(s, key, k)
  {
    var rest := Insert(x, s[1..], key);
    var hx: seq<T> := if key(x) == k then [x] else [];
    var h0: seq<T> := if key(s[0]) == k then [s[0]] else [];
    var w1 := WithKey(s[1..], key, k);
    calc {
      WithKey(Insert(x, s, key), key, k);
    == { assert Insert(x, s, key) == [s[0]] + rest; }
      WithKey([s[0]] + rest, key, k);
    == { WithKeyCons(s[0], rest, key, k); }
      h0 + (hx + w1);
    == { if hx == [] {
           assert hx + w1 == w1 && hx + (h0 + w1) == h0 + w1;
         } else {
           assert h0 == [];
           assert h0 + (hx + w1) == hx + w1 && h0 + w1 == w1;
         }
       }
      hx + (h0 + w1);
    == { WithKeyCons(s[0], s[1..], key, k); assert [s[0]] + s[1..] == s; }
      hx + WithKey(s, key, k);
    }
  }

  /** Inserting `x` adds it in front of every element with the same key. */
  lemma {:induction false} InsertTies<T>(x: T, s: seq<T>, key: T -> real, k: real)
    ensures WithKey(Insert(x, s, key), key, k)
         == (if key(x) == k then [x] else []) + WithKey(s, key, k)
  {
    if s == [] {
      WithKeyCons(x, [], key, k);
      assert Insert(x, s, key) == [x] + [];
    } else if key(s[0]) <= key(x) {
      WithKeyCons(x, s, key, k);
      assert Insert(x, s, key) == [x] + s;
    } else {
      InsertTies(x, s[1..], key, k);
      InsertTiesPast(x, s, key, k);
    }
  }

  /** Stability: among the elements of any one key, the sorted order is the input order. */
  lemma {:induction false} SortIsStable<T>(s: seq<T>, key: T -> real, k: real)
    ensures WithKey(SortDescending(s, key), key, k) == WithKey(s, key, k)
  {
    if s != [] {
      SortIsStable(s[1..], key, k);
      InsertTies(s[0], SortDescending(s[1..], key), key, k);
      assert s == [s[0]] + s[1..];
      WithKeyCons(s[0], s[1..], key, k);
    }
  }

  /** A comparator that always answers 0 keeps the input order. */
  lemma SortConstantKey<T>(s: seq<T>, key: T -> real, k: real)
    requires forall i :: 0 <= i < |s| ==> key(s[i]) == k
    ensures SortDescending(s, key) == s
  {
    var r := SortDescending(s, key);
    SortIsStable(s, key, k);
    WithKeyAll(s, key, k);
    forall i | 0 <= i < |r|
      ensures key(r[i]) == k
    {
      assert r[i] in multiset(s);
      var j :| 0 <= j < |s| && s[j] == r[i];
    }
    WithKeyAll(r, key, k);
  }

  /** Sequences with the same head and the same elements of key `k` have tails with
      the same elements of key `k`. */
  lemma WithKeyTail<T>(a: seq<T>, b: seq<T>, key: T -> real, k: real)
    requires a != [] && b != [] && a[0] == b[0]
    requires WithKey(a, key, k) == WithKey(b, key, k)
    ensures WithKey(a[1..], key, k) == WithKey(b[1..], key, k)
  {
    var h: seq<T> := if key(a[0]) == k then [a[0]] else [];
    assert WithKey(a, key, k) == h + WithKey(a[1..], key, k);
    assert WithKey(b, key, k) == h + WithKey(b[1..], key, k);
    assert WithKey(a[1..], key, k) == (h + WithKey(a[1..], key, k))[|h|..];
    assert WithKey(b[1..], key, k) == (h + WithKey(b[1..], key, k))[|h|..];
  }

  /** The first element of a descending sequence has a key no other arrangement of the
      same elements can beat at its own head. */
  lemma HeadIsLargest<T>(a: seq<T>, b: seq<T>, key: T -> real)
    requires a != [] && b != [] && multiset(a) == multiset(b)
    requires Descending(a, key)
    ensures key(b[0]) <= key(a[0])
  {
    assert b[0] in multiset(a);
    var i :| 0 <= i < |a| && a[i] == b[0];
    if i > 0 {
      assert key(a[0]) >= key(a[i]);
    }
  }

  /** The first element of a sequence is the first element of its key. */
  lemma WithKeyHead<T>(a: seq<T>, key: T -> real)
    requires a != []
    ensures WithKey(a, key, key(a[0])) != [] && WithKey(a, key, key(a[0]))[0] == a[0]
  {
    assert WithKey(a, key, key(a[0])) == [a[0]] + WithKey(a[1..], key, key(a[0]));
  }

  /** Two such orderings start with the same element: both start with a largest key,
      and the first element of that key is fixed by the order within the key. */
  lemma SameHead<T>(a: seq<T>, b: seq<T>, key: T -> real)
    requires a != [] && multiset(a) == multiset(b)
    requires Descending(a, key) && Descending(b, key)
    requires forall k :: WithKey(a, key, k) == WithKey(b, key, k)
    ensures b != [] && a[0] == b[0]
  {
    assert |multiset(b)| == |a|;
    HeadIsLargest(a, b, key);
    HeadIsLargest(b, a, key);
    WithKeyHead(a, key);
    WithKeyHead(b, key);
    assert WithKey(a, key, key(a[0])) == WithKey(b, key, key(b[0]));
  }

  /** Two orderings that are both descending, both permutations of each other and
      agree on the order within every key are the same sequence. */
  lemma {:induction false} DescendingStableUnique<T>(a: seq<T>, b: seq<T>, key: T -> real)
    requires multiset(a) == multiset(b)
    requires Descending(a, key) && Descending(b, key)
    requires forall k :: WithKey(a, key, k) == WithKey(b, key, k)
    ensures a == b
  {
    if a == [] {
      assert |multiset(b)| == 0;
    } else {
      SameHead(a, b, key);
      forall k
        ensures WithKey(a[1..], key, k) == WithKey(b[1..], key, k)
      {
        WithKeyTail(a, b, key, k);
      }
      assert a == [a[0]] + a[1..] && b == [b[0]] + b[1..];
      assert multiset(a) == multiset{a[0]} + multiset(a[1..]);
      assert multiset(b) == multiset{a[0]} + multiset(b[1..]);
      forall x
        ensures multiset(a[1..])[x] == multiset(b[1..])[x]
      {
        assert multiset(a)[x] == multiset{a[0]}[x] + multiset(a[1..])[x];
        assert multiset(b)[x] == multiset{a[0]}[x] + multiset(b[1..])[x];
      }
      DescendingTail(a, key);
      DescendingTail(b, key);
      DescendingStableUnique(a[1..], b[1..], key);
    }
  }

  /** SortDescending is the only result a stable sort with this comparator can give:
      any descending permutation of `s` that keeps equal keys in input order is it. */
  lemma TheStableSort<T>(s: seq<T>, r: seq<T>, key: T -> real)
    requires multiset(r) == multiset(s)
    requires Descending(r, key)
    requires forall k :: WithKey(r, key, k) == WithKey(s, key, k)
    ensures r == SortDescending(s, key)
  {
    SortIsDescending(s, key);
    forall k
      ensures WithKey(r, key, k) == WithKey(SortDescending(s, key), key, k)
    {
      SortIsStable(s, key, k);
    }
    DescendingStableUnique(r, SortDescending(s, key), key);
  }
}
