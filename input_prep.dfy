/** The integer bookkeeping of `inference_single_chunk_` in
    src/tts/kokoro.cpp around the neural stages: the short-input doubling
    of `prepare_input_ids_`, the padding mask of
    `compute_external_preprocessing_`, and the un-doubling of the frame
    counts and the audio afterwards. */
module InputPrep {
  import opened Bytes

  /** Inputs of at most this many ids are doubled. */
  const DoubleInputThreshold: nat := 32

  /** The ids of a doubled input, position by position: the content, the
      content again, then zeros, cut at `maxSeqLen` positions. */
  function Doubled(inputIds: seq<int>, actualLen: nat, maxSeqLen: nat): (r: seq<int>)
    requires actualLen <= |inputIds|
    ensures |r| == maxSeqLen
  {
    seq(maxSeqLen, k requires 0 <= k < maxSeqLen =>
      if k < actualLen then inputIds[k]
      else if k < 2 * actualLen then inputIds[k - actualLen]
      else 0)
  }

  /** `prepare_input_ids_`: an input of `actualLen <= 32` ids is replaced
      by its content twice over, padded with zeros or cut to
      `maxSeqLen`, and its active length doubles up to `maxSeqLen`; a
      longer input is left alone. `actualLen` ids must be present. */
  method PrepareInputIds(inputIds: seq<int>, actualLen: nat, maxSeqLen: nat)
    returns (ids: seq<int>, newLen: nat, isDoubled: bool)
    requires actualLen <= |inputIds|
    ensures isDoubled <==> actualLen <= DoubleInputThreshold
    ensures !isDoubled ==> ids == inputIds && newLen == actualLen
    ensures isDoubled ==>
      ids == Doubled(inputIds, actualLen, maxSeqLen) && newLen == Min(2 * actualLen, maxSeqLen)
  {
    isDoubled := false;
    ids, newLen := inputIds, actualLen;
    var originalActualLen := actualLen;
    if actualLen <= DoubleInputThreshold {
      isDoubled := true;
      var validContent := inputIds[..actualLen];
      var doubled := validContent + validContent;
      var paddingLen := maxSeqLen - 2 * actualLen;
      if paddingLen > 0 {
        doubled := doubled + Zeros(paddingLen);
      } else {
        doubled := doubled[..maxSeqLen];
      }
      ids := doubled;
      newLen := Min(originalActualLen * 2, maxSeqLen);
    }
  }

  /** After doubling, the ids below the new active length repeat the
      content with period `actualLen`, and every id from the new active
      length on is padding. */
  lemma {:induction false} DoubledLayout(inputIds: seq<int>, actualLen: nat, maxSeqLen: nat)
    requires 0 < actualLen <= |inputIds|
    ensures var ids := Doubled(inputIds, actualLen, maxSeqLen);
      (forall k :: 0 <= k < Min(2 * actualLen, maxSeqLen) ==> ids[k] == inputIds[k % actualLen]) &&
      (forall k :: Min(2 * actualLen, maxSeqLen) <= k < maxSeqLen ==> ids[k] == 0)
  {
    var ids := Doubled(inputIds, actualLen, maxSeqLen);
    forall k | 0 <= k < Min(2 * actualLen, maxSeqLen) ensures ids[k] == inputIds[k % actualLen] {
      if k >= actualLen {
        DivUnique(k, actualLen, 1, k - actualLen);
      } else {
        DivUnique(k, actualLen, 0, k);
      }
    }
  }

  /** `compute_external_preprocessing_`: `input_lengths` holds the active
      length and the mask has one byte per position, 1 exactly at the
      padding positions. */
  method ComputeExternalPreprocessing(actualLen: int, maxSeqLen: nat)
    returns (inputLengths: seq<int>, textMask: seq<byte>)
    ensures inputLengths == [actualLen]
    ensures |textMask| == maxSeqLen
    ensures forall i :: 0 <= i < maxSeqLen ==> textMask[i] == if i >= actualLen then 1 else 0
  {
    inputLengths := [actualLen];
    textMask := seq(maxSeqLen, _ => 0);
    var i := 0;
    while i < maxSeqLen
      invariant 0 <= i <= maxSeqLen && |textMask| == maxSeqLen
      invariant forall j :: 0 <= j < i ==> textMask[j] == if j >= actualLen then 1 else 0
    {
      textMask := textMask[i := if i >= actualLen then 1 else 0];
      i := i + 1;
    }
  }

  /** The number of 1 bytes in a mask. */
  function Ones(mask: seq<byte>): nat
    decreases |mask|
  {
    if mask == [] then 0 else Ones(mask[..|mask| - 1]) + (if mask[|mask| - 1] == 1 then 1 else 0)
  }

  /** The mask counts the padding positions: `maxSeqLen` less the active
      length, clipped to `0..maxSeqLen`. */
  lemma {:induction false} MaskOnes(mask: seq<byte>, actualLen: int)
    requires forall i :: 0 <= i < |mask| ==> mask[i] == if i >= actualLen then 1 else 0
    ensures Ones(mask) == |mask| - Max(0, Min(actualLen, |mask|))
    decreases |mask|
  {
    if mask != [] {
      MaskOnes(mask[..|mask| - 1], actualLen);
    }
  }

  /** `C++` integer division by 2, which truncates toward zero. */
  function Half(x: int): (h: int)
    ensures x >= 0 ==> 0 <= 2 * h <= x < 2 * h + 2
    ensures x < 0 ==> 2 * h - 2 < x <= 2 * h <= 0
  {
    if x >= 0 then x / 2 else -((-x) / 2)
  }

  /** The un-doubling at the end of `inference_single_chunk_`: for a
      doubled input the audio keeps its first half, `total_frames` halves
      and the content frames are those of the original tokens; otherwise
      the content frames are those of the active tokens. */
  method Undouble<Sample>(audio: seq<Sample>, predDur: seq<int>, totalFrames: int,
                          actualLen: nat, originalActualLen: nat, isDoubled: bool)
    returns (kept: seq<Sample>, contentFrames: int, frames: int)
    requires isDoubled ==> originalActualLen <= |predDur|
    requires !isDoubled ==> actualLen <= |predDur|
    ensures isDoubled ==>
      kept == audio[..|audio| / 2] && frames == Half(totalFrames) &&
      contentFrames == Sum(predDur[..originalActualLen])
    ensures !isDoubled ==>
      kept == audio && frames == totalFrames && contentFrames == Sum(predDur[..actualLen])
  {
    kept, frames := audio, totalFrames;
    if isDoubled {
      contentFrames := Sum(predDur[..originalActualLen]);
      var audioLen := |audio|;
      kept := audio[..audioLen / 2];
      frames := Half(totalFrames);
    } else {
      contentFrames := Sum(predDur[..actualLen]);
    }
  }

  /** The kept audio is the first half, rounded down, of the doubled
      audio: the dropped part is at most one sample longer. */
  lemma {:induction false} UndoubledAudio<Sample>(audio: seq<Sample>)
    ensures audio[..|audio| / 2] + audio[|audio| / 2..] == audio
    ensures |audio[..|audio| / 2]| <= |audio[|audio| / 2..]| <= |audio[..|audio| / 2]| + 1
  {
  }

  /** With durations that are never negative, the content frames never
      exceed all the frames. */
  lemma {:induction false} ContentWithinTotal(predDur: seq<int>, n: nat)
    requires NonNegative(predDur) && n <= |predDur|
    ensures 0 <= Sum(predDur[..n]) <= Sum(predDur)
  {
    SumPrefixMonotone(predDur, 0, n);
    SumPrefixMonotone(predDur, n, |predDur|);
    assert predDur[..0] == [];
    assert predDur[..|predDur|] == predDur;
  }
}
