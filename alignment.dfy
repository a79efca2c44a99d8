/** `np_repeat` and `create_alignment_matrix_` of src/tts/kokoro.cpp: each
    token index is repeated once per frame of its duration, and the
    alignment matrix has one row per token and one column per frame, with
    a single 1 in each column, at the row of the token that frame belongs
    to. */
module Alignment {
  import opened Bytes
  import opened Sorting

  /** `np_repeat(v, times)`: `v[i]` repeated `times[i]` times, in order; a
      negative count repeats nothing. */
  function Repeat(v: seq<int>, times: seq<int>): seq<int>
    requires |times| <= |v|
    decreases |times|
  {
    if times == [] then []
    else
      var n := |times| - 1;
      Repeat(v, times[..n]) + seq(Max(times[n], 0), _ => v[n])
  }

  /** The nested loop of `np_repeat`, pushing one copy at a time. */
  method NpRepeat(v: seq<int>, times: seq<int>) returns (result: seq<int>)
    requires |times| <= |v|
    ensures result == Repeat(v, times)
  {
    result := [];
    var i := 0;
    while i < |times|
      invariant 0 <= i <= |times|
      invariant result == Repeat(v, times[..i])
    {
      ghost var before := result;
      var n := 0;
      while n < times[i]
        invariant 0 <= n <= Max(times[i], 0)
        invariant result == before + seq(n, _ => v[i])
      {
        result := result + [v[i]];
        n := n + 1;
      }
      assert times[..i + 1][..i] == times[..i];
      i := i + 1;
    }
    assert times[..|times|] == times;
  }

  /** With no negative count, the repetition is as long as the counts add
      up to. */
  lemma {:induction false} RepeatLength(v: seq<int>, times: seq<int>)
    requires |times| <= |v| && NonNegative(times)
    ensures |Repeat(v, times)| == Sum(times)
    decreases |times|
  {
    if times != [] {
      var n := |times| - 1;
      assert NonNegative(times[..n]);
      RepeatLength(v, times[..n]);
      SumPrefixStep(times, n);
      assert times[..n + 1] == times;
    }
  }

  /** The `c`-th entry of the repetition is `v[i]` for every `c` in the
      block of `times[i]` positions that starts after the earlier blocks. */
  lemma {:induction false} RepeatBlock(v: seq<int>, times: seq<int>, i: nat, c: int)
    requires |times| <= |v| && NonNegative(times) && i < |times|
    requires 0 <= c && Sum(times[..i]) <= c < Sum(times[..i]) + times[i]
    ensures c < |Repeat(v, times)| && Repeat(v, times)[c] == v[i]
    decreases |times|
  {
    var n := |times| - 1;
    var front := times[..n];
    assert NonNegative(front);
    RepeatLength(v, front);
    if i == n {
      assert front == times[..i];
    } else {
      assert front[..i] == times[..i];
      RepeatBlock(v, front, i, c);
    }
  }

  /** Every position of the repetition lies in the block of some count. */
  lemma {:induction false} RepeatCovered(v: seq<int>, times: seq<int>, c: int)
    requires |times| <= |v| && NonNegative(times)
    requires 0 <= c < |Repeat(v, times)|
    ensures exists i :: 0 <= i < |times| && Sum(times[..i]) <= c < Sum(times[..i]) + times[i]
    decreases |times|
  {
    var n := |times| - 1;
    var front := times[..n];
    assert NonNegative(front);
    RepeatLength(v, front);
    if c < |Repeat(v, front)| {
      RepeatCovered(v, front, c);
      var i :| 0 <= i < |front| && Sum(front[..i]) <= c < Sum(front[..i]) + front[i];
      assert front[..i] == times[..i];
    } else {
      assert front == times[..n];
    }
  }

  /** The frame-to-token indices: frame `c` belongs to token `i` exactly
      when `c` is in the block of token `i`'s duration. */
  lemma {:induction false} IndicesBlock(d: seq<int>, i: nat, c: int)
    requires NonNegative(d) && i < |d|
    requires 0 <= c < |Repeat(Range(|d|), d)|
    ensures Repeat(Range(|d|), d)[c] == i <==> Sum(d[..i]) <= c < Sum(d[..i]) + d[i]
  {
    var ind := Repeat(Range(|d|), d);
    if Sum(d[..i]) <= c < Sum(d[..i]) + d[i] {
      RepeatBlock(Range(|d|), d, i, c);
    } else {
      RepeatCovered(Range(|d|), d, c);
      var j :| 0 <= j < |d| && Sum(d[..j]) <= c < Sum(d[..j]) + d[j];
      RepeatBlock(Range(|d|), d, j, c);
    }
  }

  /** The flat row-major matrix of `rows` by `cols` cells holding 1 at row
      `ind[c]` of every column `c` below `|ind|`, and 0 elsewhere. */
  function Matrix(ind: seq<int>, rows: nat, cols: nat): (m: seq<real>)
    ensures |m| == rows * cols
  {
    seq(rows * cols, p => if cols > 0 && p % cols < |ind| && ind[p % cols] == p / cols then 1.0 else 0.0)
  }

  /** Row `i`, column `c` of a row-major matrix with `cols` columns. */
  lemma {:induction false} CellPosition(i: nat, c: nat, rows: nat, cols: nat)
    requires i < rows && c < cols
    ensures i * cols + c < rows * cols
    ensures (i * cols + c) / cols == i && (i * cols + c) % cols == c
  {
    MulAtLeast(rows - i, cols);
    assert (rows - i) * cols == rows * cols - i * cols;
    DivUnique(i * cols + c, cols, i, c);
  }

  /** Each cell of the matrix, addressed by row and column. */
  lemma {:induction false} MatrixCell(ind: seq<int>, rows: nat, cols: nat, i: nat, c: nat)
    requires i < rows && c < cols
    ensures i * cols + c < rows * cols
    ensures Matrix(ind, rows, cols)[i * cols + c] == if c < |ind| && ind[c] == i then 1.0 else 0.0
  {
    CellPosition(i, c, rows, cols);
  }

  /** `create_alignment_matrix_`: a zeroed `max_seq_len` by `total_frames`
      buffer with a 1 written at row `indices[col]`, column `col` for each
      frame `col`. The frame count must cover the repeated indices, as the
      caller's `total_frames` (the sum of the durations) does; otherwise
      the writes run past the columns. */
  method CreateAlignmentMatrix(predDur: seq<int>, totalFrames: nat, maxSeqLen: nat)
    returns (aln: array<real>)
    requires |predDur| <= maxSeqLen
    requires |Repeat(Range(maxSeqLen), predDur)| <= totalFrames
    ensures fresh(aln)
    ensures aln[..] == Matrix(Repeat(Range(maxSeqLen), predDur), maxSeqLen, totalFrames)
  {
    var indices := NpRepeat(Range(maxSeqLen), predDur);
    aln := new real[maxSeqLen * totalFrames](_ => 0.0);
    var col := 0;
    while col < |indices|
      invariant 0 <= col <= |indices|
      invariant aln[..] == Matrix(indices[..col], maxSeqLen, totalFrames)
    {
      var i := indices[col];
      IndexInRange(predDur, maxSeqLen, col);
      CellPosition(i, col, maxSeqLen, totalFrames);
      WriteStep(indices, col, maxSeqLen, totalFrames, aln[..]);
      aln[i * totalFrames + col] := 1.0;
      col := col + 1;
    }
    assert indices[..|indices|] == indices;
  }

  /** Every repeated index is a row of the matrix. */
  lemma {:induction false} IndexInRange(predDur: seq<int>, maxSeqLen: nat, col: nat)
    requires |predDur| <= maxSeqLen && col < |Repeat(Range(maxSeqLen), predDur)|
    ensures 0 <= Repeat(Range(maxSeqLen), predDur)[col] < maxSeqLen
  {
    RepeatValues(Range(maxSeqLen), predDur, maxSeqLen);
  }

  lemma {:induction false} RepeatValues(v: seq<int>, times: seq<int>, bound: int)
    requires |times| <= |v|
    requires forall k :: 0 <= k < |v| ==> 0 <= v[k] < bound
    ensures forall k :: 0 <= k < |Repeat(v, times)| ==> 0 <= Repeat(v, times)[k] < bound
    decreases |times|
  {
    if times != [] {
      RepeatValues(v, times[..|times| - 1], bound);
    }
  }

  /** Writing the 1 of column `col` extends the matrix by that column. */
  lemma {:induction false} WriteStep(ind: seq<int>, col: nat, rows: nat, cols: nat, m: seq<real>)
    requires col < |ind| && col < cols && 0 <= ind[col] < rows
    requires m == Matrix(ind[..col], rows, cols)
    ensures ind[col] * cols + col < |m|
    ensures m[ind[col] * cols + col := 1.0] == Matrix(ind[..col + 1], rows, cols)
  {
    var p0 := ind[col] * cols + col;
    CellPosition(ind[col], col, rows, cols);
    var m' := m[p0 := 1.0];
    var want := Matrix(ind[..col + 1], rows, cols);
    forall p | 0 <= p < rows * cols ensures m'[p] == want[p] {
      if p != p0 {
        assert p / cols * cols + p % cols == p;
        if p % cols == col {
          assert p / cols != ind[col];
        }
      }
    }
  }

  /** With the durations of the plan, each column of the alignment holds
      a single 1, and row `i` holds its 1s exactly in the columns of token
      `i`'s block of frames. */
  lemma {:induction false} AlignmentRows(predDur: seq<int>, totalFrames: nat, i: nat, c: nat)
    requires NonNegative(predDur) && totalFrames == Sum(predDur)
    requires i < |predDur| && c < totalFrames
    ensures i * totalFrames + c < |predDur| * totalFrames
    ensures Matrix(Repeat(Range(|predDur|), predDur), |predDur|, totalFrames)[i * totalFrames + c] == 1.0
      <==> Sum(predDur[..i]) <= c < Sum(predDur[..i]) + predDur[i]
  {
    var ind := Repeat(Range(|predDur|), predDur);
    RepeatLength(Range(|predDur|), predDur);
    MatrixCell(ind, |predDur|, totalFrames, i, c);
    IndicesBlock(predDur, i, c);
  }
}
