/** The voice style tensor of src/tts/kokoro.cpp: a voice file holds 510
    rows of 256 float values, and `load_voice_embedding_` picks the row for
    the number of input ids. The float values are never computed with, so
    they are modelled as their 32-bit patterns. */
module Voice {
  import opened Bytes

  type word = bv32

  /** `MAX_PHONEME_LENGTH`: the number of style rows. */
  const MaxPhonemeLength: nat := 510
  /** `STYLE_DIM`: the values per style row. */
  const StyleDim: nat := 256
  /** The size of a voice tensor, in values. */
  const TensorSize: nat := MaxPhonemeLength * StyleDim

  /** The row of the style tensor used for `phonemeLen` input ids: a
      negative length counts as 0, and a length beyond the last row falls
      back to the middle row. */
  function StyleRow(phonemeLen: int): nat {
    var len := Max(phonemeLen, 0);
    if len < MaxPhonemeLength then len else MaxPhonemeLength / 2
  }

  /** `load_voice_embedding_`: the `StyleDim` values of the selected row,
      or `None` where the row lies beyond the tensor (the source then reads
      outside the vector). */
  function LoadVoiceEmbedding(tensor: seq<word>, phonemeLen: int): (r: Option<seq<word>>)
    ensures r.Some? <==> (StyleRow(phonemeLen) + 1) * StyleDim <= |tensor|
    ensures r.Some? ==> |r.value| == StyleDim
  {
    var row := StyleRow(phonemeLen);
    if (row + 1) * StyleDim <= |tensor| then Some(tensor[row * StyleDim..(row + 1) * StyleDim]) else None
  }

  /** The row choice: 0 for a negative length, the length itself below 510,
      row 255 from 510 on; always one of the 510 rows. */
  lemma {:induction false} StyleRowChoice(phonemeLen: int)
    ensures phonemeLen < 0 ==> StyleRow(phonemeLen) == 0
    ensures 0 <= phonemeLen < MaxPhonemeLength ==> StyleRow(phonemeLen) == phonemeLen
    ensures phonemeLen >= MaxPhonemeLength ==> StyleRow(phonemeLen) == 255
    ensures StyleRow(phonemeLen) < MaxPhonemeLength
  {
  }

  /** With a full tensor the embedding always exists and value `j` of it
      is value `j` of the selected row. */
  lemma {:induction false} EmbeddingOfFullTensor(tensor: seq<word>, phonemeLen: int, j: nat)
    requires |tensor| == TensorSize && j < StyleDim
    ensures LoadVoiceEmbedding(tensor, phonemeLen).Some?
    ensures StyleRow(phonemeLen) * StyleDim + j < |tensor|
    ensures LoadVoiceEmbedding(tensor, phonemeLen).value[j] == tensor[StyleRow(phonemeLen) * StyleDim + j]
  {
    var row := StyleRow(phonemeLen);
    assert row + 1 <= MaxPhonemeLength;
    assert (row + 1) * StyleDim <= MaxPhonemeLength * StyleDim;
  }

  /** The value stored in four bytes, as `memcpy` lays them out on a
      little-endian target. */
  function WordOf(b0: byte, b1: byte, b2: byte, b3: byte): word {
    ((b3 as word) << 24) | ((b2 as word) << 16) | ((b1 as word) << 8) | (b0 as word)
  }

  /** The values held by raw bytes, four bytes each; trailing bytes that do
      not fill a value are not part of any. */
  function Words(raw: seq<byte>): (w: seq<word>)
    ensures |w| == |raw| / 4
    decreases |raw|
  {
    if |raw| < 4 then [] else [WordOf(raw[0], raw[1], raw[2], raw[3])] + Words(raw[4..])
  }

  /** Value `k` is made of bytes `4k..4k+3`. */
  lemma {:induction false} WordsAt(raw: seq<byte>, k: nat)
    requires k < |raw| / 4
    ensures 4 * k + 3 < |raw|
    ensures Words(raw)[k] == WordOf(raw[4 * k], raw[4 * k + 1], raw[4 * k + 2], raw[4 * k + 3])
    decreases k
  {
    if k > 0 {
      WordsAt(raw[4..], k - 1);
    }
  }

  /** `voice_tensor_.resize(n)`: the kept prefix, then zeros. */
  function Resize(t: seq<word>, n: nat): (r: seq<word>)
    ensures |r| == n
    ensures forall k :: 0 <= k < n ==> r[k] == if k < |t| then t[k] else 0
  {
    if |t| >= n then t[..n] else t + seq(n - |t|, _ => 0)
  }

  /** The size check of `get_voice_style_` as written: the number of
      whole values in the file must equal the tensor size. */
  predicate SizeCheckAsWritten(raw: seq<byte>) {
    |raw| / 4 == TensorSize
  }

  /** The check passes a file with up to three bytes more than the tensor
      holds, and `memcpy` then copies all of them into the tensor's
      `4 * TensorSize` bytes. */
  lemma {:induction false} SizeCheckAdmitsOverrun()
    ensures var raw := seq(4 * TensorSize + 3, _ => 0 as byte);
      SizeCheckAsWritten(raw) && |raw| > 4 * TensorSize
  {
  }

  /** The intended check: the file holds exactly the tensor's bytes. */
  predicate SizeCheck(raw: seq<byte>) {
    |raw| == 4 * TensorSize
  }

  /** A file that passes the intended check fills the tensor exactly, and
      the check rejects every file whose copy would overrun it. */
  lemma {:induction false} SizeCheckExact(raw: seq<byte>)
    ensures SizeCheck(raw) ==> |Words(raw)| == TensorSize && |raw| == 4 * |Words(raw)|
    ensures |raw| > 4 * TensorSize ==> !SizeCheck(raw)
    ensures SizeCheck(raw) ==> SizeCheckAsWritten(raw)
  {
  }
}
