/** `argsort(v, len, true)` of src/tts/kokoro.cpp: the indices `0..len-1`
    ordered by descending value with a stable sort, so that equal values
    keep ascending index order. */
module Sorting {

  /** Index `i` comes before index `j`: a larger value first, and of two
      equal values the smaller index first. This is a strict total order
      on distinct indices. */
  predicate Before(v: seq<int>, i: nat, j: nat)
    requires i < |v| && j < |v|
  {
    v[i] > v[j] || (v[i] == v[j] && i < j)
  }

  /** `iota`: the indices `0..n-1` in ascending order. */
  function Range(n: nat): (r: seq<nat>)
    ensures |r| == n
    ensures forall k :: 0 <= k < n ==> r[k] == k
  {
    if n == 0 then [] else Range(n - 1) + [n - 1]
  }

  predicate InBounds(s: seq<nat>, n: nat) {
    forall k :: 0 <= k < |s| ==> s[k] < n
  }

  /** Every earlier index of `s` comes before every later one. */
  predicate SortedBy(v: seq<int>, s: seq<nat>)
    requires InBounds(s, |v|)
  {
    forall a, b :: 0 <= a < b < |s| ==> Before(v, s[a], s[b])
  }

  /** Inserting index `i` into a sorted list of indices. */
  function Insert(s: seq<nat>, i: nat, v: seq<int>): (r: seq<nat>)
    requires i < |v| && InBounds(s, |v|)
    ensures |r| == |s| + 1
    ensures InBounds(r, |v|)
  {
    if s == [] then [i]
    else if Before(v, i, s[0]) then [i] + s
    else
      var t := Insert(s[1..], i, v);
      assert s == [s[0]] + s[1..];
      [s[0]] + t
  }

  /** `argsort(v, len, true)`, as a reference definition: the indices
      inserted one by one into a list kept in `Before` order. */
  function Argsort(v: seq<int>, len: nat): (idx: seq<nat>)
    requires len <= |v|
    ensures |idx| == len
    ensures InBounds(idx, |v|)
  {
    if len == 0 then [] else Insert(Argsort(v, len - 1), len - 1, v)
  }

  /** Inserting adds the index and keeps every other element. */
  lemma {:induction false} InsertPermutation(s: seq<nat>, i: nat, v: seq<int>)
    requires i < |v| && InBounds(s, |v|)
    ensures multiset(Insert(s, i, v)) == multiset(s) + multiset{i}
    decreases |s|
  {
    if s != [] && !Before(v, i, s[0]) {
      InsertPermutation(s[1..], i, v);
      assert s == [s[0]] + s[1..];
    }
  }

  /** `argsort` returns a permutation of the indices `0..len-1`. */
  lemma {:induction false} ArgsortPermutation(v: seq<int>, len: nat)
    requires len <= |v|
    ensures multiset(Argsort(v, len)) == multiset(Range(len))
  {
    if len > 0 {
      var k: nat := len - 1;
      var s := Argsort(v, k);
      assert Argsort(v, len) == Insert(s, k, v);
      ArgsortPermutation(v, k);
      InsertPermutation(s, k, v);
      assert multiset(Range(len)) == multiset(Range(k)) + multiset{k} by {
        assert Range(len) == Range(k) + [k];
      }
    }
  }

  /** Every index below `n` is below `n`. */
  lemma {:induction false} RangeBelow(n: nat, x: nat)
    requires x in multiset(Range(n))
    ensures x < n
  {
    var k :| 0 <= k < n && Range(n)[k] == x;
  }

  /** `n` is not among the indices below `n`. */
  lemma {:induction false} RangeExcludes(n: nat)
    ensures n !in multiset(Range(n))
  {
    forall k | 0 <= k < n ensures Range(n)[k] != n {
    }
    assert n !in Range(n);
  }

  lemma {:induction false} SortedTail(v: seq<int>, s: seq<nat>)
    requires InBounds(s, |v|) && SortedBy(v, s) && s != []
    ensures SortedBy(v, s[1..])
  {
    var rest := s[1..];
    forall a, b | 0 <= a < b < |rest| ensures Before(v, rest[a], rest[b]) {
      assert rest[a] == s[a + 1] && rest[b] == s[b + 1];
    }
  }

  lemma {:induction false} SortedCons(v: seq<int>, x: nat, t: seq<nat>)
    requires x < |v| && InBounds(t, |v|) && SortedBy(v, t)
    requires forall b :: 0 <= b < |t| ==> Before(v, x, t[b])
    ensures SortedBy(v, [x] + t)
  {
    var r := [x] + t;
    forall a, b | 0 <= a < b < |r| ensures Before(v, r[a], r[b]) {
      if a == 0 {
        assert r[b] == t[b - 1];
      } else {
        assert r[a] == t[a - 1] && r[b] == t[b - 1];
      }
    }
  }

  lemma {:induction false} InsertSorted(s: seq<nat>, i: nat, v: seq<int>)
    requires i < |v| && InBounds(s, |v|)
    requires SortedBy(v, s)
    requires i !in multiset(s)
    ensures SortedBy(v, Insert(s, i, v))
    decreases |s|
  {
    if s == [] {
    } else if Before(v, i, s[0]) {
      forall b | 0 <= b < |s| ensures Before(v, i, s[b]) {
        if b > 0 {
          assert Before(v, s[0], s[b]);
        }
      }
      SortedCons(v, i, s);
    } else {
      assert s[0] != i by {
        assert s[0] in multiset(s);
      }
      var rest := s[1..];
      assert s == [s[0]] + rest;
      assert i !in multiset(rest);
      SortedTail(v, s);
      InsertSorted(rest, i, v);
      var t := Insert(rest, i, v);
      InsertPermutation(rest, i, v);
      forall b | 0 <= b < |t| ensures Before(v, s[0], t[b]) {
        var x := t[b];
        assert x in multiset(t);
        if x != i {
          assert x in multiset(rest);
          var q :| 0 <= q < |rest| && rest[q] == x;
          assert s[q + 1] == x;
        }
      }
      SortedCons(v, s[0], t);
    }
  }

  /** `argsort(v, len, true)` lists the indices in `Before` order. */
  lemma {:induction false} ArgsortSorted(v: seq<int>, len: nat)
    requires len <= |v|
    ensures SortedBy(v, Argsort(v, len))
  {
    if len > 0 {
      var s := Argsort(v, len - 1);
      assert Argsort(v, len) == Insert(s, len - 1, v);
      ArgsortSorted(v, len - 1);
      ArgsortPermutation(v, len - 1);
      RangeExcludes(len - 1);
      InsertSorted(s, len - 1, v);
    }
  }

  /** `argsort(v, len, true)` returns a permutation of `0..len-1` along
      which the values never increase and, among equal values, the
      indices increase. */
  lemma {:induction false} ArgsortOrder(v: seq<int>, len: nat)
    requires len <= |v|
    ensures multiset(Argsort(v, len)) == multiset(Range(len))
    ensures forall a, b :: 0 <= a < b < len ==> v[Argsort(v, len)[a]] >= v[Argsort(v, len)[b]]
    ensures forall a, b :: 0 <= a < b < len && v[Argsort(v, len)[a]] == v[Argsort(v, len)[b]] ==>
      Argsort(v, len)[a] < Argsort(v, len)[b]
  {
    ArgsortSorted(v, len);
    ArgsortPermutation(v, len);
    var idx := Argsort(v, len);
    forall a, b | 0 <= a < b < len ensures v[idx[a]] >= v[idx[b]] {
      assert Before(v, idx[a], idx[b]);
    }
  }

  /** The indices are distinct: a strict order never relates an index to
      itself. */
  lemma {:induction false} SortedDistinct(v: seq<int>, s: seq<nat>)
    requires InBounds(s, |v|) && SortedBy(v, s)
    ensures forall a, b :: 0 <= a < b < |s| ==> s[a] != s[b]
  {
    forall a, b | 0 <= a < b < |s| ensures s[a] != s[b] {
      assert Before(v, s[a], s[b]);
    }
  }

  /** The head of a sorted list comes before every other element. */
  lemma {:induction false} SortedHeadFirst(v: seq<int>, s: seq<nat>, x: nat)
    requires InBounds(s, |v|) && SortedBy(v, s)
    requires x in multiset(s) && x != s[0]
    ensures x < |v| && Before(v, s[0], x)
  {
    var p :| 0 <= p < |s| && s[p] == x;
    assert p != 0;
  }

  /** Two sorted lists with the same elements start alike. */
  lemma SortedHeadsAgree(v: seq<int>, s: seq<nat>, t: seq<nat>)
    requires InBounds(s, |v|) && InBounds(t, |v|)
    requires SortedBy(v, s) && SortedBy(v, t)
    requires multiset(s) == multiset(t) && s != [] && t != []
    ensures s[0] == t[0]
  {
    if s[0] != t[0] {
      assert t[0] in multiset(s);
      SortedHeadFirst(v, s, t[0]);
      assert s[0] in multiset(t);
      SortedHeadFirst(v, t, s[0]);
    }
  }

  /** Equal multisets with equal heads have equal tails. */
  lemma TailMultiset(s: seq<nat>, t: seq<nat>)
    requires s != [] && t != [] && s[0] == t[0] && multiset(s) == multiset(t)
    ensures multiset(s[1..]) == multiset(t[1..])
  {
    assert s == [s[0]] + s[1..];
    assert t == [t[0]] + t[1..];
    assert multiset(s) == multiset{s[0]} + multiset(s[1..]);
    assert multiset(t) == multiset{t[0]} + multiset(t[1..]);
    assert multiset(s[1..]) == multiset(s) - multiset{s[0]};
    assert multiset(t[1..]) == multiset(t) - multiset{t[0]};
  }

  /** A sorted list of indices is determined by its elements: the order
      leaves no freedom, so any stable descending sort of `0..len-1` gives
      the same list as the reference definition. */
  lemma {:induction false} SortedUnique(v: seq<int>, s: seq<nat>, t: seq<nat>)
    requires InBounds(s, |v|) && InBounds(t, |v|)
    requires SortedBy(v, s) && SortedBy(v, t)
    requires multiset(s) == multiset(t)
    ensures s == t
    decreases |s|
  {
    assert |s| == |multiset(s)| == |t|;
    if s != [] {
      SortedHeadsAgree(v, s, t);
      TailMultiset(s, t);
      SortedTail(v, s);
      SortedTail(v, t);
      SortedUnique(v, s[1..], t[1..]);
      assert s == [s[0]] + s[1..] && t == [t[0]] + t[1..];
    }
  }
}
