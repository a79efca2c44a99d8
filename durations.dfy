/** The integer part of `process_duration_` in src/tts/kokoro.cpp: the
    per-token durations are padded to `max_seq_len`, an overshoot of the
    fixed budget of `2 * max_seq_len` frames is reduced in one pass over
    the tokens from longest to shortest, and the frames left over are
    spread over the padding entries. */
module Durations {
  import opened Bytes
  import opened Sorting

  /** How many of the entries `order` visits can be lowered (exceed 1). */
  function Reducible(d: seq<int>, order: seq<nat>): nat
    requires InBounds(order, |d|)
    decreases |order|
  {
    if order == [] then 0
    else (if d[order[0]] > 1 then 1 else 0) + Reducible(d, order[1..])
  }

  /** The reduction loop: `order` is visited once, front to back; each
      visited entry above 1 is lowered by one while fewer than `need`
      entries have been lowered. */
  function Reduce(d: seq<int>, order: seq<nat>, need: nat): (r: seq<int>)
    requires InBounds(order, |d|)
    ensures |r| == |d|
    decreases |order|
  {
    if order == [] || need == 0 then d
    else if d[order[0]] > 1 then Reduce(d[order[0] := d[order[0]] - 1], order[1..], need - 1)
    else Reduce(d, order[1..], need)
  }

  /** The padding entries after the leftover frames are spread: `n`
      entries of `q` frames, the first `r` of them one frame more. */
  function Spread(n: nat, q: int, r: int): (s: seq<int>)
    ensures |s| == n
    ensures forall k :: 0 <= k < n ==> s[k] == q + (if k < r then 1 else 0)
  {
    if n == 0 then [] else Spread(n - 1, q, r) + [q + (if n - 1 < r then 1 else 0)]
  }

  /** The durations after the overshoot reduction, padding included. */
  function Reduced(orig: seq<int>, maxSeqLen: nat): (r: seq<int>)
    requires |orig| <= maxSeqLen
    ensures |r| == maxSeqLen
  {
    var a := |orig|;
    var d := orig + Zeros(maxSeqLen - a);
    var diff := 2 * maxSeqLen - Sum(orig);
    if diff < 0 then Reduce(d, Argsort(d, a), -diff) else d
  }

  /** The durations after the leftover frames of the budget are spread
      over the padding entries `actualLen..`. */
  function Spreaded(d: seq<int>, actualLen: nat, fixedTotalFrames: int): seq<int>
    requires actualLen <= |d|
  {
    var remaining := fixedTotalFrames - Sum(d[..actualLen]);
    var padLen := |d| - actualLen;
    if remaining > 0 && padLen > 0
    then d[..actualLen] + Spread(padLen, remaining / padLen, remaining % padLen)
    else d
  }

  /** `pred_dur` and `total_frames` as `process_duration_` leaves them,
      for the integer per-token durations `orig` (the rounded, clipped
      model output, one per token of the input). */
  function DurationPlan(orig: seq<int>, maxSeqLen: nat): (seq<int>, int)
    requires |orig| <= maxSeqLen
  {
    var predDur := Spreaded(Reduced(orig, maxSeqLen), |orig|, 2 * maxSeqLen);
    (predDur, Sum(predDur))
  }

  /** `process_duration_`, from `pred_dur_original` onward. `actual_len`
      must not exceed `max_seq_len`: nothing truncates a longer input, and
      the padding vector's size would be negative. */
  method ProcessDuration(orig: seq<int>, maxSeqLen: nat) returns (predDur: seq<int>, totalFrames: int)
    requires |orig| <= maxSeqLen
    ensures (predDur, totalFrames) == DurationPlan(orig, maxSeqLen)
  {
    var actualLen := |orig|;
    var padding := Zeros(maxSeqLen - actualLen);
    predDur := orig + padding;
    assert predDur[..actualLen] == orig;

    var fixedTotalFrames := maxSeqLen * 2;
    var actualFrames := Sum(predDur[..actualLen]);
    var diff := fixedTotalFrames - actualFrames;
    assert diff == 2 * maxSeqLen - Sum(orig);

    if diff < 0 {
      var indices := Argsort(predDur, actualLen);
      ghost var d := predDur;
      predDur := ReduceOvershoot(predDur, indices, -diff);
      ReducedOver(orig, maxSeqLen, d);
    } else {
      assert predDur == Reduced(orig, maxSeqLen);
    }

    ghost var reduced := predDur;
    assert reduced == Reduced(orig, maxSeqLen);
    predDur := SpreadLeftover(predDur, actualLen, fixedTotalFrames);
    assert predDur == Spreaded(Reduced(orig, maxSeqLen), actualLen, 2 * maxSeqLen);
    totalFrames := Sum(predDur);
  }

  /** The second half of `process_duration_`: the frames the content
      leaves of the budget `fixedTotalFrames` go to the padding entries,
      evenly, the first `remainder` entries one frame more. */
  method SpreadLeftover(d: seq<int>, actualLen: nat, fixedTotalFrames: int) returns (predDur: seq<int>)
    requires actualLen <= |d|
    ensures predDur == Spreaded(d, actualLen, fixedTotalFrames)
  {
    predDur := d;
    var actualFrames := Sum(predDur[..actualLen]);
    var remainingFrames := fixedTotalFrames - actualFrames;
    var paddingLen := |d| - actualLen;

    if remainingFrames > 0 && paddingLen > 0 {
      var framesPerPadding := remainingFrames / paddingLen;
      var remainder := remainingFrames % paddingLen;
      ghost var kept := predDur[..actualLen];

      var i := actualLen;
      while i < |predDur|
        invariant actualLen <= i <= |predDur| == |d|
        invariant predDur[..actualLen] == kept
        invariant forall j :: actualLen <= j < i ==> predDur[j] == framesPerPadding
      {
        predDur := predDur[i := framesPerPadding];
        i := i + 1;
      }

      if remainder > 0 {
        i := actualLen;
        while i < actualLen + remainder
          invariant actualLen <= i <= actualLen + remainder
          invariant |predDur| == |d|
          invariant predDur[..actualLen] == kept
          invariant forall j :: actualLen <= j < i ==> predDur[j] == framesPerPadding + 1
          invariant forall j :: i <= j < |d| ==> predDur[j] == framesPerPadding
        {
          predDur := predDur[i := predDur[i] + 1];
          i := i + 1;
        }
      }
      SpreadIs(predDur, kept, paddingLen, framesPerPadding, remainder);
    }
  }

  lemma {:induction false} ReducedOver(orig: seq<int>, maxSeqLen: nat, d: seq<int>)
    requires |orig| <= maxSeqLen && 2 * maxSeqLen - Sum(orig) < 0
    requires d == orig + Zeros(maxSeqLen - |orig|)
    ensures Reduced(orig, maxSeqLen) == Reduce(d, Argsort(d, |orig|), Sum(orig) - 2 * maxSeqLen)
  {
  }

  /** The reduction loop of `process_duration_`: visits `indices` in
      order, lowering each entry above 1 by one, and stops as soon as
      `need` entries have been lowered. */
  method ReduceOvershoot(d: seq<int>, indices: seq<nat>, need: nat) returns (predDur: seq<int>)
    requires InBounds(indices, |d|) && need > 0
    ensures predDur == Reduce(d, indices, need)
  {
    predDur := d;
    var decreased: nat := 0;
    var k := 0;
    assert indices[0..] == indices;
    while k < |indices|
      invariant 0 <= k <= |indices|
      invariant |predDur| == |d|
      invariant InBounds(indices[k..], |d|)
      invariant decreased < need
      invariant Reduce(predDur, indices[k..], need - decreased) == Reduce(d, indices, need)
      decreases |indices| - k
    {
      var idx := indices[k];
      ghost var before := predDur;
      ghost var left := need - decreased;
      if predDur[idx] > 1 && decreased < need {
        predDur := predDur[idx := predDur[idx] - 1];
        decreased := decreased + 1;
      }
      ReduceStep(before, indices, k, left, predDur, need - decreased);
      if decreased >= need {
        assert Reduce(predDur, indices[k + 1..], 0) == predDur;
        break;
      }
      k := k + 1;
    }
  }

  /** One round of the reduction loop, read off the definition. */
  lemma {:induction false} ReduceStep(d: seq<int>, order: seq<nat>, k: nat, need: nat, d': seq<int>, need': nat)
    requires InBounds(order, |d|) && k < |order| && need > 0
    requires d' == (if d[order[k]] > 1 then d[order[k] := d[order[k]] - 1] else d)
    requires need' == (if d[order[k]] > 1 then need - 1 else need)
    ensures |d'| == |d| && InBounds(order[k + 1..], |d|)
    ensures Reduce(d, order[k..], need) == Reduce(d', order[k + 1..], need')
  {
    assert order[k..][1..] == order[k + 1..];
  }

  /** After the spreading loops the durations are the kept prefix followed
      by the spread padding. */
  lemma {:induction false} SpreadIs(predDur: seq<int>, kept: seq<int>, n: nat, q: int, r: int)
    requires |kept| + n == |predDur|
    requires predDur[..|kept|] == kept
    requires r <= 0 ==> forall j :: |kept| <= j < |predDur| ==> predDur[j] == q
    requires 0 < r <= n ==> forall j :: |kept| <= j < |kept| + r ==> predDur[j] == q + 1
    requires 0 < r <= n ==> forall j :: |kept| + r <= j < |predDur| ==> predDur[j] == q
    requires r <= n
    ensures predDur == kept + Spread(n, q, r)
  {
    var s := kept + Spread(n, q, r);
    forall j | 0 <= j < |predDur| ensures predDur[j] == s[j] {
      if j < |kept| {
        assert predDur[j] == predDur[..|kept|][j];
      }
    }
  }

  // ---------------------------------------------------------------------
  // The reduction pass
  // ---------------------------------------------------------------------

  predicate Distinct(order: seq<nat>) {
    forall a, b :: 0 <= a < b < |order| ==> order[a] != order[b]
  }

  lemma {:induction false} DistinctTail(order: seq<nat>)
    requires order != [] && Distinct(order)
    ensures Distinct(order[1..]) && order[0] !in order[1..]
  {
    forall b | 0 <= b < |order[1..]| ensures order[1..][b] != order[0] {
      assert order[1..][b] == order[b + 1];
    }
  }

  /** Lowering an entry the rest of the pass does not visit leaves the
      count of lowerable visited entries alone. */
  lemma {:induction false} ReducibleUnvisited(d: seq<int>, order: seq<nat>, x: nat, y: int)
    requires InBounds(order, |d|) && x < |d| && x !in order
    ensures Reducible(d[x := y], order) == Reducible(d, order)
    decreases |order|
  {
    if order != [] {
      assert order[0] != x;
      assert x !in order[1..];
      ReducibleUnvisited(d, order[1..], x, y);
    }
  }

  /** Each entry drops by at most one, only if it exceeded 1 and was
      visited; so entries of at least 1 stay at least 1. */
  lemma {:induction false} ReduceBounds(d: seq<int>, order: seq<nat>, need: nat)
    requires InBounds(order, |d|) && Distinct(order)
    ensures forall i :: 0 <= i < |d| ==>
      Reduce(d, order, need)[i] == d[i] ||
      (d[i] > 1 && Reduce(d, order, need)[i] == d[i] - 1 && i in order)
    decreases |order|
  {
    if order != [] && need > 0 {
      var x := order[0];
      DistinctTail(order);
      if d[x] > 1 {
        ReduceBounds(d[x := d[x] - 1], order[1..], need - 1);
      } else {
        ReduceBounds(d, order[1..], need);
      }
    }
  }

  /** The pass lowers the lowerable entries in the order it visits them:
      an entry above 1 is never passed over while a later one is lowered.
      Over the argsort order (see `ArgsortOrder`) the longest durations
      are therefore the ones shortened. */
  lemma {:induction false} ReduceLowersFirst(d: seq<int>, order: seq<nat>, need: nat, p: nat, q: nat)
    requires InBounds(order, |d|) && Distinct(order)
    requires p < q < |order| && d[order[p]] > 1
    requires Reduce(d, order, need)[order[q]] < d[order[q]]
    ensures Reduce(d, order, need)[order[p]] == d[order[p]] - 1
    decreases |order|
  {
    if need == 0 {
      assert false;
    }
    var x, rest := order[0], order[1..];
    DistinctTail(order);
    assert rest[q - 1] == order[q];
    if d[x] > 1 {
      var lowered := d[x := d[x] - 1];
      if p == 0 {
        ReduceBounds(lowered, rest, need - 1);
      } else {
        assert rest[p - 1] == order[p] && order[p] != x && order[q] != x;
        ReduceLowersFirst(lowered, rest, need - 1, p - 1, q - 1);
      }
    } else {
      assert rest[p - 1] == order[p];
      ReduceLowersFirst(d, rest, need, p - 1, q - 1);
    }
  }

  /** The pass lowers the total by the number of lowerable entries it
      visits, but by no more than `need`. */
  lemma {:induction false} ReduceTotal(d: seq<int>, order: seq<nat>, need: nat)
    requires InBounds(order, |d|) && Distinct(order)
    ensures Sum(d) - Sum(Reduce(d, order, need)) == Min(need, Reducible(d, order))
    decreases |order|
  {
    if order != [] && need > 0 {
      var x := order[0];
      DistinctTail(order);
      if d[x] > 1 {
        ReduceTotal(d[x := d[x] - 1], order[1..], need - 1);
        SumDecrement(d, x);
        ReducibleUnvisited(d, order[1..], x, d[x] - 1);
      } else {
        ReduceTotal(d, order[1..], need);
      }
    }
  }

  lemma {:induction false} ReducibleAppend(d: seq<int>, s: seq<nat>, t: seq<nat>)
    requires InBounds(s, |d|) && InBounds(t, |d|)
    ensures InBounds(s + t, |d|)
    ensures Reducible(d, s + t) == Reducible(d, s) + Reducible(d, t)
    decreases |s|
  {
    if s == [] {
      assert s + t == t;
    } else {
      assert (s + t)[1..] == s[1..] + t;
      ReducibleAppend(d, s[1..], t);
    }
  }

  /** The count does not depend on the visiting order. */
  lemma {:induction false} RemoveOne(s: seq<nat>, t: seq<nat>, j: nat)
    requires multiset(s) == multiset(t) && s != [] && j < |t| && t[j] == s[0]
    ensures multiset(s[1..]) == multiset(t[..j] + t[j + 1..])
  {
    var x := s[0];
    assert t == t[..j] + [x] + t[j + 1..];
    assert s == [x] + s[1..];
    assert multiset(t) == multiset(t[..j]) + multiset{x} + multiset(t[j + 1..]);
    assert multiset(s) == multiset{x} + multiset(s[1..]);
    assert multiset(t[..j] + t[j + 1..]) == multiset(t[..j]) + multiset(t[j + 1..]);
    assert multiset(s[1..]) == multiset(s) - multiset{x};
  }

  lemma {:induction false} ReducibleRemoveOne(d: seq<int>, t: seq<nat>, j: nat)
    requires InBounds(t, |d|) && j < |t|
    ensures InBounds(t[..j] + t[j + 1..], |d|)
    ensures Reducible(d, t) == Reducible(d, [t[j]]) + Reducible(d, t[..j] + t[j + 1..])
  {
    var a, b := t[..j], t[j + 1..];
    assert InBounds(a, |d|) && InBounds(b, |d|) && InBounds([t[j]], |d|);
    assert a + ([t[j]] + b) == t;
    ReducibleAppend(d, [t[j]], b);
    ReducibleAppend(d, a, [t[j]] + b);
    ReducibleAppend(d, a, b);
  }

  /** The count does not depend on the visiting order. */
  lemma {:induction false} ReduciblePermutation(d: seq<int>, s: seq<nat>, t: seq<nat>)
    requires InBounds(s, |d|) && InBounds(t, |d|)
    requires multiset(s) == multiset(t)
    ensures Reducible(d, s) == Reducible(d, t)
    decreases |s|
  {
    if s != [] {
      assert s[0] in multiset(t);
      var j :| 0 <= j < |t| && t[j] == s[0];
      RemoveOne(s, t, j);
      ReducibleRemoveOne(d, t, j);
      ReduciblePermutation(d, s[1..], t[..j] + t[j + 1..]);
    }
  }

  /** The number of entries above 1. */
  function CountAbove1(s: seq<int>): nat
    decreases |s|
  {
    if s == [] then 0 else CountAbove1(s[..|s| - 1]) + (if s[|s| - 1] > 1 then 1 else 0)
  }

  lemma {:induction false} ReducibleRange(d: seq<int>, a: nat)
    requires a <= |d|
    ensures InBounds(Range(a), |d|)
    ensures Reducible(d, Range(a)) == CountAbove1(d[..a])
  {
    if a > 0 {
      ReducibleRange(d, a - 1);
      ReducibleAppend(d, Range(a - 1), [a - 1]);
      assert d[..a][..a - 1] == d[..a - 1];
    }
  }

  // ---------------------------------------------------------------------
  // Properties of process_duration_
  // ---------------------------------------------------------------------

  lemma {:induction false} ArgsortDistinct(d: seq<int>, a: nat)
    requires a <= |d|
    ensures Distinct(Argsort(d, a))
  {
    ArgsortSorted(d, a);
    SortedDistinct(d, Argsort(d, a));
  }

  lemma {:induction false} ArgsortVisitsContent(d: seq<int>, a: nat, i: nat)
    requires a <= i < |d|
    ensures i !in Argsort(d, a)
  {
    var order := Argsort(d, a);
    ArgsortPermutation(d, a);
    forall k | 0 <= k < |order| ensures order[k] != i {
      assert order[k] in multiset(Range(a));
      RangeBelow(a, order[k]);
    }
  }

  lemma {:induction false} PaddedValues(orig: seq<int>, n: nat)
    ensures forall i :: 0 <= i < |orig| ==> (orig + Zeros(n))[i] == orig[i]
    ensures forall i :: |orig| <= i < |orig| + n ==> (orig + Zeros(n))[i] == 0
  {
  }

  lemma {:induction false} ReducedIs(orig: seq<int>, maxSeqLen: nat)
    requires |orig| <= maxSeqLen
    ensures var d := orig + Zeros(maxSeqLen - |orig|);
      Reduced(orig, maxSeqLen) == if Sum(orig) > 2 * maxSeqLen
        then Reduce(d, Argsort(d, |orig|), Sum(orig) - 2 * maxSeqLen) else d
  {
  }

  /** The reduction: an active entry keeps its value or, when it exceeded
      1, loses exactly one frame; padding entries stay 0. */
  lemma {:induction false} ReductionBounds(orig: seq<int>, maxSeqLen: nat)
    requires |orig| <= maxSeqLen
    ensures forall i :: 0 <= i < |orig| ==>
      Reduced(orig, maxSeqLen)[i] == orig[i] ||
      (orig[i] > 1 && Reduced(orig, maxSeqLen)[i] == orig[i] - 1)
    ensures forall i :: |orig| <= i < maxSeqLen ==> Reduced(orig, maxSeqLen)[i] == 0
  {
    var a := |orig|;
    var d := orig + Zeros(maxSeqLen - a);
    PaddedValues(orig, maxSeqLen - a);
    ReducedIs(orig, maxSeqLen);
    if Sum(orig) > 2 * maxSeqLen {
      var order := Argsort(d, a);
      ArgsortDistinct(d, a);
      ReduceBounds(d, order, Sum(orig) - 2 * maxSeqLen);
      forall i | a <= i < maxSeqLen ensures i !in order {
        ArgsortVisitsContent(d, a, i);
      }
    }
  }

  /** Durations of at least one frame stay at least one frame. */
  lemma {:induction false} ReductionKeepsPositive(orig: seq<int>, maxSeqLen: nat)
    requires |orig| <= maxSeqLen
    requires forall i :: 0 <= i < |orig| ==> orig[i] >= 1
    ensures forall i :: 0 <= i < |orig| ==> Reduced(orig, maxSeqLen)[i] >= 1
  {
    ReductionBounds(orig, maxSeqLen);
  }

  lemma {:induction false} SumPadded(orig: seq<int>, n: nat)
    ensures Sum(orig + Zeros(n)) == Sum(orig)
    ensures (orig + Zeros(n))[..|orig|] == orig
  {
    SumAppend(orig, Zeros(n));
    SumAllZero(Zeros(n));
  }

  /** The padding entries add nothing to the reduced total. */
  lemma {:induction false} ReducedPaddingSum(orig: seq<int>, maxSeqLen: nat)
    requires |orig| <= maxSeqLen
    ensures Sum(Reduced(orig, maxSeqLen)) == Sum(Reduced(orig, maxSeqLen)[..|orig|])
  {
    var a := |orig|;
    var r := Reduced(orig, maxSeqLen);
    ReductionBounds(orig, maxSeqLen);
    assert r == r[..a] + r[a..];
    SumAppend(r[..a], r[a..]);
    assert AllZero(r[a..]) by {
      forall k | 0 <= k < |r[a..]| ensures r[a..][k] == 0 {
        assert r[a..][k] == r[a + k];
      }
    }
    SumAllZero(r[a..]);
  }

  lemma {:induction false} ReducedOverIs(orig: seq<int>, maxSeqLen: nat)
    requires |orig| <= maxSeqLen && Sum(orig) > 2 * maxSeqLen
    ensures Reduced(orig, maxSeqLen) == Reduce(orig + Zeros(maxSeqLen - |orig|),
      Argsort(orig + Zeros(maxSeqLen - |orig|), |orig|), Sum(orig) - 2 * maxSeqLen)
  {
  }

  /** Visiting the first `a` entries in argsort order lowers the total by
      the overshoot `need`, or by the number of those entries above 1 when
      there are fewer. */
  lemma {:induction false} ArgsortReduceTotal(d: seq<int>, a: nat, need: nat)
    requires a <= |d|
    ensures Sum(d) - Sum(Reduce(d, Argsort(d, a), need)) == Min(need, CountAbove1(d[..a]))
  {
    var order := Argsort(d, a);
    ArgsortDistinct(d, a);
    ReduceTotal(d, order, need);
    ReducibleRange(d, a);
    ArgsortPermutation(d, a);
    ReduciblePermutation(d, order, Range(a));
  }

  lemma {:induction false} ReductionOver(orig: seq<int>, maxSeqLen: nat)
    requires |orig| <= maxSeqLen && Sum(orig) > 2 * maxSeqLen
    ensures Sum(orig) - Sum(Reduced(orig, maxSeqLen)) ==
      Min(Sum(orig) - 2 * maxSeqLen, CountAbove1(orig))
  {
    var d := orig + Zeros(maxSeqLen - |orig|);
    SumPadded(orig, maxSeqLen - |orig|);
    ReducedOverIs(orig, maxSeqLen);
    ArgsortReduceTotal(d, |orig|, Sum(orig) - 2 * maxSeqLen);
  }

  /** The total drop: nothing when the content fits the budget of
      `2 * max_seq_len` frames, otherwise the overshoot, but never more
      than the number of entries above 1, since each is lowered once. */
  lemma {:induction false} ReductionTotal(orig: seq<int>, maxSeqLen: nat)
    requires |orig| <= maxSeqLen
    ensures Sum(orig) - Sum(Reduced(orig, maxSeqLen)[..|orig|]) ==
      if Sum(orig) > 2 * maxSeqLen then Min(Sum(orig) - 2 * maxSeqLen, CountAbove1(orig)) else 0
  {
    ReducedPaddingSum(orig, maxSeqLen);
    if Sum(orig) > 2 * maxSeqLen {
      ReductionOver(orig, maxSeqLen);
    } else {
      SumPadded(orig, maxSeqLen - |orig|);
      ReducedIs(orig, maxSeqLen);
    }
  }

  /** Spreading `r` extra frames over `n` entries of `q` frames. */
  lemma {:induction false} SpreadSum(n: nat, q: int, r: nat)
    ensures Sum(Spread(n, q, r)) == n * q + Min(r, n)
  {
    if n > 0 {
      SpreadSum(n - 1, q, r);
      SumAppend(Spread(n - 1, q, r), [q + (if n - 1 < r then 1 else 0)]);
      assert (n - 1) * q + q == n * q;
    }
  }

  /** The frames left for the padding once the content is reduced. */
  function Leftover(orig: seq<int>, maxSeqLen: nat): int
    requires |orig| <= maxSeqLen
  {
    2 * maxSeqLen - Sum(Reduced(orig, maxSeqLen)[..|orig|])
  }

  /** The spreading leaves the reduced content alone and returns one
      duration per position of the padded sequence. */
  lemma {:induction false} PlanContent(orig: seq<int>, maxSeqLen: nat)
    requires |orig| <= maxSeqLen
    ensures |DurationPlan(orig, maxSeqLen).0| == maxSeqLen
    ensures DurationPlan(orig, maxSeqLen).0[..|orig|] == Reduced(orig, maxSeqLen)[..|orig|]
  {
  }

  /** The padding entries: when frames are left over, they are shared out
      evenly, the first `leftover % padding_len` entries taking one frame
      more; otherwise the padding entries stay 0. */
  lemma {:induction false} PlanPadding(orig: seq<int>, maxSeqLen: nat)
    requires |orig| <= maxSeqLen
    ensures var a, left, p := |orig|, Leftover(orig, maxSeqLen), DurationPlan(orig, maxSeqLen).0;
      |p| == maxSeqLen &&
      forall i :: a <= i < maxSeqLen ==>
        p[i] == if left > 0 then left / (maxSeqLen - a) + (if i - a < left % (maxSeqLen - a) then 1 else 0) else 0
  {
    ReductionBounds(orig, maxSeqLen);
  }

  /** The total of a spread: the content plus every leftover frame. */
  lemma {:induction false} SpreadedSum(d: seq<int>, a: nat, fixedTotalFrames: int)
    requires a < |d|
    requires fixedTotalFrames - Sum(d[..a]) > 0
    ensures Sum(Spreaded(d, a, fixedTotalFrames)) == fixedTotalFrames
  {
    var left := fixedTotalFrames - Sum(d[..a]);
    var n := |d| - a;
    var q, r := left / n, left % n;
    SpreadSum(n, q, r);
    SumAppend(d[..a], Spread(n, q, r));
    assert n * q + r == left;
  }

  /** `total_frames`: the fixed budget of `2 * max_seq_len` frames when
      there is padding to absorb the leftover, the reduced content total
      when that total is larger or there is no padding. */
  lemma {:induction false} PlanTotal(orig: seq<int>, maxSeqLen: nat)
    requires |orig| <= maxSeqLen
    ensures var content := Sum(Reduced(orig, maxSeqLen)[..|orig|]);
      DurationPlan(orig, maxSeqLen).1 ==
        if |orig| < maxSeqLen then Max(2 * maxSeqLen, content) else content
  {
    var a := |orig|;
    var r := Reduced(orig, maxSeqLen);
    if Leftover(orig, maxSeqLen) > 0 && a < maxSeqLen {
      SpreadedSum(r, a, 2 * maxSeqLen);
    } else {
      ReducedPaddingSum(orig, maxSeqLen);
    }
  }

  /** The durations fill exactly the fixed budget of `2 * max_seq_len`
      frames if and only if an overshoot can be absorbed by the entries
      above 1 and a shortfall can be absorbed by padding. */
  lemma {:induction false} TotalFramesIsBudget(orig: seq<int>, maxSeqLen: nat)
    requires |orig| <= maxSeqLen
    ensures DurationPlan(orig, maxSeqLen).1 == 2 * maxSeqLen <==>
      (Sum(orig) > 2 * maxSeqLen ==> Sum(orig) - 2 * maxSeqLen <= CountAbove1(orig)) &&
      (Sum(orig) < 2 * maxSeqLen ==> |orig| < maxSeqLen)
  {
    var s, b, c := Sum(orig), 2 * maxSeqLen, Sum(Reduced(orig, maxSeqLen)[..|orig|]);
    var total, reducible := DurationPlan(orig, maxSeqLen).1, CountAbove1(orig);
    PlanTotal(orig, maxSeqLen);
    assert total == if |orig| < maxSeqLen then Max(b, c) else c;
    ReductionTotal(orig, maxSeqLen);
    assert s - c == if s > b then Min(s - b, reducible) else 0;
    BudgetCases(s, b, c, reducible, |orig| < maxSeqLen, total);
  }

  /** The case analysis behind `TotalFramesIsBudget`, on the numbers alone:
      the content sum `c` after reducing an overshoot of `s` over the
      budget `b` by at most `reducible`. */
  lemma {:induction false} BudgetCases(s: int, b: int, c: int, reducible: nat, padded: bool, total: int)
    requires s - c == if s > b then Min(s - b, reducible) else 0
    requires total == if padded then Max(b, c) else c
    ensures total == b <==> (s > b ==> s - b <= reducible) && (s < b ==> padded)
  {
  }

  /** With every model duration clipped to at least one frame, as the
      source does, every token keeps at least one frame. */
  lemma {:induction false} PlanKeepsTokens(orig: seq<int>, maxSeqLen: nat)
    requires |orig| <= maxSeqLen
    requires forall i :: 0 <= i < |orig| ==> orig[i] >= 1
    ensures forall i :: 0 <= i < |orig| ==> DurationPlan(orig, maxSeqLen).0[i] >= 1
  {
    var p := DurationPlan(orig, maxSeqLen).0;
    ReductionKeepsPositive(orig, maxSeqLen);
    PlanContent(orig, maxSeqLen);
    forall i | 0 <= i < |orig| ensures p[i] >= 1 {
      assert p[i] == p[..|orig|][i];
    }
  }

  /** No padding entry is negative, whatever the model durations. */
  lemma {:induction false} PlanPaddingNonNegative(orig: seq<int>, maxSeqLen: nat)
    requires |orig| <= maxSeqLen
    ensures forall i :: |orig| <= i < maxSeqLen ==> DurationPlan(orig, maxSeqLen).0[i] >= 0
  {
    var a, left, p := |orig|, Leftover(orig, maxSeqLen), DurationPlan(orig, maxSeqLen).0;
    PlanPadding(orig, maxSeqLen);
    forall i | a <= i < maxSeqLen ensures p[i] >= 0 {
      if left > 0 {
        QuotientNonNegative(left, maxSeqLen - a);
      }
    }
  }

  lemma {:induction false} QuotientNonNegative(x: int, n: int)
    requires x > 0 && n > 0
    ensures x / n >= 0
  {
  }
}
