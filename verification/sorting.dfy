/** Stable sorting by an integer key, the behaviour of JavaScript's `Array.prototype.sort`
    (stable since ES2019) with a comparator `(a, b) => key(a) - key(b)`. */
module Sorting {

  predicate SortedBy<T(!new)>(s: seq<T>, key: T -> int) {
    forall i, j :: 0 <= i < j < |s| ==> key(s[i]) <= key(s[j])
  }

  /** The elements of `s` whose key is `k`, in their order in `s`. Two orderings of the same
      elements agree on every key class exactly when ties keep their relative order. */
  function KeyClass<T(!new)>(s: seq<T>, key: T -> int, k: int): (r: seq<T>)
    ensures forall x :: x in r <==> x in s && key(x) == k
  {
    if |s| == 0 then []
    else if key(s[0]) == k then [s[0]] + KeyClass(s[1..], key, k)
    else KeyClass(s[1..], key, k)
  }

  /** Inserts `x` before the first element whose key is not smaller than its own. */
  function InsertBy<T(!new)>(x: T, s: seq<T>, key: T -> int): (r: seq<T>)
    ensures |r| == |s| + 1
    ensures multiset(r) == multiset(s) + multiset{x}
  {
    if |s| == 0 then [x]
    else if key(x) <= key(s[0]) then [x] + s
    else
      assert s == [s[0]] + s[1..];
      [s[0]] + InsertBy(x, s[1..], key)
  }

  lemma {:induction false} InsertBySorted<T(!new)>(x: T, s: seq<T>, key: T -> int)
    requires SortedBy(s, key)
    ensures SortedBy(InsertBy(x, s, key), key)
    decreases |s|
  {
    var r := InsertBy(x, s, key);
    if |s| > 0 && key(x) <= key(s[0]) {
      forall i, j | 0 <= i < j < |r| ensures key(r[i]) <= key(r[j]) {
        if i > 0 {
          assert r[i] == s[i - 1] && r[j] == s[j - 1];
        } else if j > 1 {
          assert r[j] == s[j - 1];
          assert key(s[0]) <= key(s[j - 1]);
        }
      }
    } else if |s| > 0 {
      var rest := InsertBy(x, s[1..], key);
      InsertBySorted(x, s[1..], key);
      assert r == [s[0]] + rest;
      InsertByBound(x, s[1..], key, key(s[0]));
      forall i, j | 0 <= i < j < |r| ensures key(r[i]) <= key(r[j]) {
        if i > 0 {
          assert r[i] == rest[i - 1] && r[j] == rest[j - 1];
        } else {
          assert r[j] == rest[j - 1];
        }
      }
    }
  }

  /** Inserting keeps a lower bound that `x` and every element of `s` respect. */
  lemma {:induction false} InsertByBound<T(!new)>(x: T, s: seq<T>, key: T -> int, b: int)
    requires b <= key(x)
    requires forall k :: 0 <= k < |s| ==> b <= key(s[k])
    ensures forall k :: 0 <= k < |InsertBy(x, s, key)| ==> b <= key(InsertBy(x, s, key)[k])
    decreases |s|
  {
    if |s| > 0 && key(x) > key(s[0]) {
      InsertByBound(x, s[1..], key, b);
      var rest := InsertBy(x, s[1..], key);
      assert InsertBy(x, s, key) == [s[0]] + rest;
      forall k | 0 <= k < |InsertBy(x, s, key)| ensures b <= key(InsertBy(x, s, key)[k]) {
        if k > 0 {
          assert InsertBy(x, s, key)[k] == rest[k - 1];
        }
      }
    } else if |s| > 0 {
      assert InsertBy(x, s, key) == [x] + s;
      forall k | 0 <= k < |InsertBy(x, s, key)| ensures b <= key(InsertBy(x, s, key)[k]) {
        if k > 0 {
          assert InsertBy(x, s, key)[k] == s[k - 1];
        }
      }
    }
  }

  /** Insertion sort: each element goes in front of the already sorted rest, ahead of the
      elements with an equal key, which came after it. */
  function SortBy<T(!new)>(s: seq<T>, key: T -> int): (r: seq<T>)
    ensures SortedBy(r, key)
    ensures multiset(r) == multiset(s)
  {
    if |s| == 0 then []
    else
      assert s == [s[0]] + s[1..];
      InsertBySorted(s[0], SortBy(s[1..], key), key);
      InsertBy(s[0], SortBy(s[1..], key), key)
  }

  lemma {:induction false} InsertByKeyClass<T(!new)>(x: T, s: seq<T>, key: T -> int, k: int)
    requires SortedBy(s, key)
    ensures KeyClass(InsertBy(x, s, key), key, k)
            == (if key(x) == k then [x] + KeyClass(s, key, k) else KeyClass(s, key, k))
    decreases |s|
  {
    if |s| > 0 && key(x) > key(s[0]) {
      InsertByKeyClass(x, s[1..], key, k);
      var r := [s[0]] + InsertBy(x, s[1..], key);
      assert r[1..] == InsertBy(x, s[1..], key);
    } else if |s| > 0 {
      assert ([x] + s)[1..] == s;
    }
  }

  /** The sort is stable: for every key, the elements with that key appear in the output
      in the order they had in the input. */
  lemma {:induction false} SortByStable<T(!new)>(s: seq<T>, key: T -> int, k: int)
    ensures KeyClass(SortBy(s, key), key, k) == KeyClass(s, key, k)
    decreases |s|
  {
    if |s| > 0 {
      SortByStable(s[1..], key, k);
      InsertByKeyClass(s[0], SortBy(s[1..], key), key, k);
    }
  }

  /** Stability for every key at once. */
  /** Two keys that single out the same elements give the same class. */
  lemma {:induction false} KeyClassAgree<T(!new)>(s: seq<T>, key1: T -> int, k1: int, key2: T -> int, k2: int)
    requires forall x :: key1(x) == k1 <==> key2(x) == k2
    ensures KeyClass(s, key1, k1) == KeyClass(s, key2, k2)
    decreases |s|
  {
    if |s| > 0 {
      KeyClassAgree(s[1..], key1, k1, key2, k2);
    }
  }

  /** Sorting by `key` also keeps the order within the classes of any key that singles out
      the same elements as one class of `key`. */
  lemma SortByStableUnder<T(!new)>(s: seq<T>, key: T -> int, k: int, key2: T -> int, k2: int)
    requires forall x :: key(x) == k <==> key2(x) == k2
    ensures KeyClass(SortBy(s, key), key2, k2) == KeyClass(s, key2, k2)
  {
    var r := SortBy(s, key);
    SortByStable(s, key, k);
    KeyClassAgree(r, key, k, key2, k2);
    KeyClassAgree(s, key, k, key2, k2);
  }

  lemma SortByStableAll<T(!new)>(s: seq<T>, key: T -> int)
    ensures forall k :: KeyClass(SortBy(s, key), key, k) == KeyClass(s, key, k)
  {
    forall k ensures KeyClass(SortBy(s, key), key, k) == KeyClass(s, key, k) {
      SortByStable(s, key, k);
    }
  }

  lemma SortedHead<T(!new)>(s: seq<T>, key: T -> int, x: T)
    requires SortedBy(s, key) && x in s
    ensures key(s[0]) <= key(x)
  {
    var i :| 0 <= i < |s| && s[i] == x;
    if i > 0 {
      assert key(s[0]) <= key(s[i]);
    }
  }

  lemma NonEmptyHasClass<T(!new)>(b: seq<T>, key: T -> int)
    ensures |b| > 0 ==> KeyClass(b, key, key(b[0])) != []
  {
  }

  /** A stable sort's result is unique: two orderings that are both sorted and agree on
      every key class are the same sequence. So `SortBy` is exactly what a stable sort
      returns. */
  lemma {:induction false} SortedStableUnique<T(!new)>(a: seq<T>, b: seq<T>, key: T -> int)
    requires SortedBy(a, key) && SortedBy(b, key)
    requires forall k :: KeyClass(a, key, k) == KeyClass(b, key, k)
    ensures a == b
    decreases |a|
  {
    NonEmptyHasClass(a, key);
    NonEmptyHasClass(b, key);
    if |a| > 0 && |b| > 0 {
      assert b[0] in KeyClass(b, key, key(b[0]));
      assert b[0] in a;
      SortedHead(a, key, b[0]);
      assert a[0] in KeyClass(a, key, key(a[0]));
      assert a[0] in b;
      SortedHead(b, key, a[0]);
      var m := key(a[0]);
      assert KeyClass(a, key, m) == [a[0]] + KeyClass(a[1..], key, m);
      assert KeyClass(b, key, m) == [b[0]] + KeyClass(b[1..], key, m);
      assert a[0] == b[0];
      forall k
        ensures KeyClass(a[1..], key, k) == KeyClass(b[1..], key, k)
      {
        if k == m {
          assert KeyClass(a, key, m)[1..] == KeyClass(a[1..], key, m);
          assert KeyClass(b, key, m)[1..] == KeyClass(b[1..], key, m);
        } else {
          assert KeyClass(a, key, k) == KeyClass(a[1..], key, k);
          assert KeyClass(b, key, k) == KeyClass(b[1..], key, k);
        }
      }
      SortedStableUnique(a[1..], b[1..], key);
      assert a == [a[0]] + a[1..];
      assert b == [b[0]] + b[1..];
    }
  }
}
