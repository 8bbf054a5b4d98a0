/** Sequence helpers: order-preserving filtering, key uniqueness and lookup by key. */
module Seqs {
  import opened Wrappers

  /** The elements of `s` that satisfy `p`, in their original order. */
  function Filter<T(!new)>(s: seq<T>, p: T -> bool): (r: seq<T>)
    ensures |r| <= |s|
    ensures forall x :: x in r <==> x in s && p(x)
  {
    if s == [] then []
    else if p(s[0]) then [s[0]] + Filter(s[1..], p)
    else Filter(s[1..], p)
  }

  /** No two positions of `s` carry the same key. */
  ghost predicate DistinctBy<T, K>(s: seq<T>, key: T -> K) {
    forall i, j :: 0 <= i < j < |s| ==> key(s[i]) != key(s[j])
  }

  /** The keys occurring in `s`. */
  ghost function KeySet<T, K>(s: seq<T>, key: T -> K): set<K> {
    set x | x in s :: key(x)
  }

  /** The first position of `s` whose key is `k`, if any. */
  function IndexOf<T, K(==)>(s: seq<T>, key: T -> K, k: K): (r: Option<nat>)
    ensures r.Some? ==> r.value < |s| && key(s[r.value]) == k
    ensures r.Some? ==> forall i :: 0 <= i < r.value ==> key(s[i]) != k
    ensures r.None? <==> k !in KeySet(s, key)
  {
    if s == [] then None
    else if key(s[0]) == k then Some(0)
    else
      var rest := IndexOf(s[1..], key, k);
      assert KeySet(s, key) == {key(s[0])} + KeySet(s[1..], key) by {
        assert s == [s[0]] + s[1..];
      }
      if rest.None? then None else Some(rest.value + 1)
  }

  /** Under distinct keys, two members with one key are the same element. */
  lemma DistinctMembers<T, K>(s: seq<T>, key: T -> K, x: T, y: T)
    requires DistinctBy(s, key)
    requires x in s && y in s && key(x) == key(y)
    ensures x == y
  {
    var i :| 0 <= i < |s| && s[i] == x;
    var j :| 0 <= j < |s| && s[j] == y;
    if i < j {
      assert key(s[i]) != key(s[j]);
    } else if j < i {
      assert key(s[j]) != key(s[i]);
    }
  }

  lemma {:induction false} FilterKeepsDistinct<T(!new), K>(s: seq<T>, p: T -> bool, key: T -> K)
    requires DistinctBy(s, key)
    ensures DistinctBy(Filter(s, p), key)
  {
    if s != [] {
      assert DistinctBy(s[1..], key) by {
        forall i, j | 0 <= i < j < |s[1..]| ensures key(s[1..][i]) != key(s[1..][j]) {
          assert s[1..][i] == s[i + 1] && s[1..][j] == s[j + 1];
        }
      }
      FilterKeepsDistinct(s[1..], p, key);
      if p(s[0]) {
        var r := Filter(s[1..], p);
        forall j | 0 <= j < |r| ensures key(s[0]) != key(r[j]) {
          assert r[j] in s[1..];
          var k :| 0 <= k < |s[1..]| && s[1..][k] == r[j];
          assert s[k + 1] == r[j];
        }
        var q := [s[0]] + r;
        forall i, j | 0 <= i < j < |q| ensures key(q[i]) != key(q[j]) {
          if i > 0 {
            assert q[i] == r[i - 1] && q[j] == r[j - 1];
          } else {
            assert q[j] == r[j - 1];
          }
        }
      }
    }
  }

  lemma AppendKeepsDistinct<T, K>(s: seq<T>, x: T, key: T -> K)
    requires DistinctBy(s, key)
    requires key(x) !in KeySet(s, key)
    ensures DistinctBy(s + [x], key)
    ensures KeySet(s + [x], key) == KeySet(s, key) + {key(x)}
  {
    var q := s + [x];
    forall i, j | 0 <= i < j < |q| ensures key(q[i]) != key(q[j]) {
      assert q[i] == s[i];
      if j == |s| {
        assert s[i] in s;
      } else {
        assert q[j] == s[j];
      }
    }
    forall k | k in KeySet(q, key) ensures k in KeySet(s, key) + {key(x)} {
      var y :| y in q && key(y) == k;
      if y != x { assert y in s; }
    }
  }

  lemma ReplaceKeepsDistinct<T, K>(s: seq<T>, i: nat, v: T, key: T -> K)
    requires i < |s| && DistinctBy(s, key)
    requires forall j :: 0 <= j < |s| && j != i ==> key(s[j]) != key(v)
    ensures DistinctBy(s[i := v], key)
  {
  }

  lemma ReplaceKeepsKeySet<T, K>(s: seq<T>, i: nat, v: T, key: T -> K)
    requires i < |s| && key(v) == key(s[i])
    ensures KeySet(s[i := v], key) == KeySet(s, key)
  {
    var q := s[i := v];
    forall k | k in KeySet(s, key) ensures k in KeySet(q, key) {
      var y :| y in s && key(y) == k;
      var j :| 0 <= j < |s| && s[j] == y;
      if j == i { assert q[i] == v; } else { assert q[j] == y; }
    }
    forall k | k in KeySet(q, key) ensures k in KeySet(s, key) {
      var y :| y in q && key(y) == k;
      var j :| 0 <= j < |q| && q[j] == y;
      if j == i { assert s[i] in s; } else { assert s[j] == y; }
    }
  }

  /** Filtering with a predicate every element satisfies changes nothing. */
  lemma {:induction false} FilterAll<T(!new)>(s: seq<T>, p: T -> bool)
    requires forall x :: x in s ==> p(x)
    ensures Filter(s, p) == s
  {
    if s != [] {
      assert s[0] in s;
      forall x | x in s[1..] ensures p(x) { assert x in s; }
      FilterAll(s[1..], p);
      assert [s[0]] + s[1..] == s;
    }
  }

  /** After `s[i := v]`, `v` is in the sequence and so is every element other than `s[i]`. */
  lemma ReplaceMember<T>(s: seq<T>, i: nat, v: T)
    requires i < |s|
    ensures v in s[i := v]
    ensures forall y :: y in s && y != s[i] ==> y in s[i := v]
  {
    assert s[i := v][i] == v;
    forall y | y in s && y != s[i] ensures y in s[i := v] {
      var j :| 0 <= j < |s| && s[j] == y;
      assert s[i := v][j] == y;
    }
  }
}
