/** Order-preserving selection from sequences: JavaScript's `Array.prototype.filter`
    and `find`, and the subsequence relation that both keep. */
module Seqs {
  import opened Wrappers

  /** `s.filter(keep)`: the elements of `s` satisfying `keep`, in their original order. */
  function Filter<T(!new)>(s: seq<T>, keep: T -> bool): (r: seq<T>)
    ensures |r| <= |s|
    ensures forall x :: x in r <==> x in s && keep(x)
  {
    if |s| == 0 then []
    else if keep(s[0]) then [s[0]] + Filter(s[1..], keep)
    else Filter(s[1..], keep)
  }

  /** `a` can be obtained from `b` by deleting elements, without reordering. */
  predicate IsSubsequence<T(==)>(a: seq<T>, b: seq<T>)
    decreases |b|
  {
    |a| == 0 || (|b| > 0 && ((a[0] == b[0] && IsSubsequence(a[1..], b[1..])) || IsSubsequence(a, b[1..])))
  }

  /** Filtering keeps the survivors in their original relative order. */
  lemma {:induction false} FilterIsSubsequence<T(!new)>(s: seq<T>, keep: T -> bool)
    ensures IsSubsequence(Filter(s, keep), s)
    decreases |s|
  {
    if |s| > 0 {
      FilterIsSubsequence(s[1..], keep);
      if keep(s[0]) {
        assert Filter(s, keep)[1..] == Filter(s[1..], keep);
      }
    }
  }

  /** A filter that every element passes returns its input. */
  lemma {:induction false} FilterKeepsAll<T(!new)>(s: seq<T>, keep: T -> bool)
    requires forall k :: 0 <= k < |s| ==> keep(s[k])
    ensures Filter(s, keep) == s
    decreases |s|
  {
    if |s| > 0 {
      FilterKeepsAll(s[1..], keep);
      assert s == [s[0]] + s[1..];
    }
  }

  /** A filter that no element passes returns nothing. */
  lemma {:induction false} FilterKeepsNone<T(!new)>(s: seq<T>, keep: T -> bool)
    requires forall k :: 0 <= k < |s| ==> !keep(s[k])
    ensures Filter(s, keep) == []
    decreases |s|
  {
    if |s| > 0 {
      FilterKeepsNone(s[1..], keep);
    }
  }

  /** Filtering distributes over concatenation. */
  lemma {:induction false} FilterAppend<T(!new)>(a: seq<T>, b: seq<T>, keep: T -> bool)
    ensures Filter(a + b, keep) == Filter(a, keep) + Filter(b, keep)
    decreases |a|
  {
    if |a| > 0 {
      var ab := a + b;
      assert ab[0] == a[0] && ab[1..] == a[1..] + b;
      FilterAppend(a[1..], b, keep);
      if keep(a[0]) {
        var fa, fb := Filter(a[1..], keep), Filter(b, keep);
        assert Filter(ab, keep) == [a[0]] + (fa + fb);
        assert Filter(a, keep) == [a[0]] + fa;
        assert [a[0]] + (fa + fb) == ([a[0]] + fa) + fb;
      } else {
        assert Filter(ab, keep) == Filter(a[1..] + b, keep);
      }
    } else {
      assert a + b == b;
    }
  }

  /** Every element of a subsequence is an element of the whole. */
  lemma {:induction false} SubsequenceMembers<T>(a: seq<T>, b: seq<T>)
    requires IsSubsequence(a, b)
    ensures forall x :: x in a ==> x in b
    decreases |b|
  {
    if |a| > 0 {
      if a[0] == b[0] && IsSubsequence(a[1..], b[1..]) {
        SubsequenceMembers(a[1..], b[1..]);
        assert a == [a[0]] + a[1..];
      } else {
        SubsequenceMembers(a, b[1..]);
      }
    }
  }

  /** No two elements of `s` share a key: a primary key column. */
  predicate DistinctBy<T>(s: seq<T>, key: T -> nat) {
    forall i, j :: 0 <= i < j < |s| ==> key(s[i]) != key(s[j])
  }

  /** Every key of `s` is below `bound`: the next auto-increment id is still unused. */
  predicate KeysBelow<T>(s: seq<T>, key: T -> nat, bound: nat) {
    forall i :: 0 <= i < |s| ==> key(s[i]) < bound
  }

  /** Deleting rows keeps a key column distinct. */
  lemma {:induction false} SubsequenceDistinctBy<T>(a: seq<T>, b: seq<T>, key: T -> nat)
    requires IsSubsequence(a, b) && DistinctBy(b, key)
    ensures DistinctBy(a, key)
    decreases |b|
  {
    if |a| > 0 {
      assert DistinctBy(b[1..], key) by {
        forall i, j | 0 <= i < j < |b[1..]| ensures key(b[1..][i]) != key(b[1..][j]) {
          assert b[1..][i] == b[i + 1] && b[1..][j] == b[j + 1];
        }
      }
      if a[0] == b[0] && IsSubsequence(a[1..], b[1..]) {
        SubsequenceDistinctBy(a[1..], b[1..], key);
        SubsequenceMembers(a[1..], b[1..]);
        forall i, j | 0 <= i < j < |a| ensures key(a[i]) != key(a[j]) {
          if i == 0 {
            assert a[j] == a[1..][j - 1];
            assert a[j] in b[1..];
            var m :| 0 <= m < |b[1..]| && b[1..][m] == a[j];
            assert b[m + 1] == a[j];
          } else {
            assert a[i] == a[1..][i - 1] && a[j] == a[1..][j - 1];
          }
        }
      } else {
        SubsequenceDistinctBy(a, b[1..], key);
      }
    }
  }

  /** Rows numbered on from the next id keep the key column distinct and below the new
      next id. */
  lemma AppendNumbered<T>(rows: seq<T>, added: seq<T>, key: T -> nat, next: nat)
    requires DistinctBy(rows, key) && KeysBelow(rows, key, next)
    requires forall k :: 0 <= k < |added| ==> key(added[k]) == next + k
    ensures DistinctBy(rows + added, key) && KeysBelow(rows + added, key, next + |added|)
  {
    var r := rows + added;
    forall i, j | 0 <= i < j < |r| ensures key(r[i]) != key(r[j]) {
      if j >= |rows| {
        assert r[j] == added[j - |rows|];
        if i >= |rows| {
          assert r[i] == added[i - |rows|];
        } else {
          assert r[i] == rows[i];
        }
      } else {
        assert r[i] == rows[i] && r[j] == rows[j];
      }
    }
    forall i | 0 <= i < |r| ensures key(r[i]) < next + |added| {
      if i >= |rows| {
        assert r[i] == added[i - |rows|];
      } else {
        assert r[i] == rows[i];
      }
    }
  }

  /** `s.findIndex(hit)`: the index of the first element satisfying `hit`, or -1. */
  function FindIndex<T(!new)>(s: seq<T>, hit: T -> bool): (r: int)
    ensures -1 <= r < |s|
    ensures r == -1 <==> forall j :: 0 <= j < |s| ==> !hit(s[j])
    ensures r >= 0 ==> hit(s[r]) && forall j :: 0 <= j < r ==> !hit(s[j])
  {
    if |s| == 0 then -1
    else if hit(s[0]) then 0
    else
      var r := FindIndex(s[1..], hit);
      assert forall j :: 1 <= j < |s| ==> s[j] == s[1..][j - 1];
      if r == -1 then -1 else r + 1
  }

  /** `s.find(hit)`: the first element satisfying `hit`, or nothing. */
  function Find<T(!new)>(s: seq<T>, hit: T -> bool): Option<T>
  {
    var i := FindIndex(s, hit);
    if i == -1 then None else Some(s[i])
  }
}
