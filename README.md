# Kokoro TTS: integer and string core

This project models the deterministic part of the Kokoro text-to-speech
pipeline of `ax_tts_api` in Dafny, and proves properties of it. The neural
stages are left abstract. The part modelled is:

- **Tokenizing frontend** (`Frontend`). It has two states: `init` marks it
  ready, and `run` is cleaner → identity normalizer → grapheme-to-phoneme →
  UTF-8 chunking → vocabulary lookup, framed by two sentinel zeros.
- **Text cleaner** (`TextCleaner`). The full-width-to-half-width byte walk,
  whitespace collapsing, trimming and the control-byte filter.
- **Punctuator** (`Punctuation`). The split of a text into (segment, mark)
  pairs.
- **String utilities** (`StringUtils`). `split_utf8`, `str2list`,
  `replace_inplace` and `strip`.
- **Kokoro engine**:
  - `Kokoro`: its state (maximum sequence length, vocabulary, cached voice,
    frontend), `init`, the voice cache of `run`, `get_voice_style_` and
    `load_vocab_`;
  - `Vocab`: the vocabulary line format and `std::stoi`;
  - `Voice`: the voice style tensor and its row selection;
  - `Sorting`: `argsort`, a stable descending sort of indices;
  - `Durations`: the integer part of `process_duration_`;
  - `Alignment`: `np_repeat` and the one-hot alignment matrix;
  - `InputPrep`: short-input doubling, the padding mask and the
    un-doubling bookkeeping.

Text and files are byte strings (`seq<bv8>`). Integers are unbounded. The
float values of a voice file are carried as their 32-bit patterns, because
nothing computes with them. Foreign code becomes a parameter:

- the espeak converter is a function `G2p` from text to phonemes and an
  error code;
- files are given as their contents (`Option<seq<byte>>`, `VoiceFile`).

## Model

| member | source | states |
|---|---|---|
| Bytes.NonSpace | src/utils/text_cleaner.hpp:38-47 | the non-whitespace bytes of a string, in order, are no longer than it and hold no whitespace |
| Bytes.SumPrefixMonotone | src/tts/kokoro.cpp:474-479 | with no negative entry, a longer prefix never sums to less |
| StringUtils.LeadLength | src/utils/string_utils.cpp:23-27 | the unit length announced by a leading byte is 1 to 4 |
| StringUtils.SplitUtf8 | src/utils/string_utils.cpp:18-35 | the chunking loop returns exactly the chunks of `Utf8Chunks`, one unit at a time, each clipped to the bytes left |
| StringUtils.Utf8ChunksJoin | src/utils/string_utils.cpp:18-35 | the chunks concatenate back to the input, none is empty, and only the empty input gives no chunk |
| StringUtils.Utf8ChunkLengths | src/utils/string_utils.cpp:22-29 | every chunk is as long as its leading byte announces, except that the last may be clipped shorter |
| StringUtils.IndexOf | src/tts/kokoro.cpp:212 | the position of the first occurrence of a byte, or the length when absent |
| StringUtils.GetlineFields | src/utils/string_utils.cpp:45 | the fields `getline` reads hold no delimiter |
| StringUtils.GetlineFieldsJoin | src/utils/string_utils.cpp:45 | the fields concatenate to the text without its delimiters |
| StringUtils.GetlineFieldsRoundTrip | src/utils/string_utils.cpp:41-45 | joined back with the delimiter between each two, the fields give the text less one trailing delimiter, so the text is cut exactly at its delimiters |
| StringUtils.Str2List | src/utils/string_utils.cpp:38-55 | the `getline` loop returns exactly `Str2ListSpec`: the non-empty fields, or the whole text when there are none |
| StringUtils.Str2ListProperties | src/utils/string_utils.cpp:38-55 | the result is never empty; it is `[text]` when no field is non-empty; otherwise every piece is non-empty, holds no delimiter, and the pieces concatenate to the text without its delimiters |
| StringUtils.Find | src/utils/string_utils.cpp:62 | `find` from a position gives the first occurrence at or after it, or none when there is none |
| StringUtils.ReplaceInplace | src/utils/string_utils.cpp:57-66 | an empty `from` changes nothing; otherwise the loop computes leftmost non-overlapping replace-all, resuming after the inserted text |
| StringUtils.Splice | src/utils/string_utils.cpp:63 | `replace(pos, n, to)` keeps the bytes before `pos`, puts `to` in place and keeps the bytes after the `n` replaced ones |
| StringUtils.ReplaceAllAbsent | src/utils/string_utils.cpp:57-66 | a string in which `from` never occurs is left unchanged |
| StringUtils.ReplaceAllFirst | src/utils/string_utils.cpp:62-64 | replace-all replaces the first occurrence and continues on the text after it |
| StringUtils.ReplaceResumesAfterInsertion | src/utils/string_utils.cpp:64 | replacing `x` by `yx` in `x` gives `yx` and terminates |
| StringUtils.LeadingSpaces | src/utils/string_utils.cpp:69-70 | the length of the whitespace prefix, which is followed by a non-whitespace byte or the end |
| StringUtils.TrailingSpaces | src/utils/string_utils.cpp:71-72 | the length of the whitespace suffix, which is preceded by a non-whitespace byte or the start |
| StringUtils.StripProperties | src/utils/string_utils.cpp:68-74 | `strip` is empty exactly for all-whitespace input; otherwise it starts and ends with non-whitespace; it is a contiguous substring with only whitespace cut on either side |
| StringUtils.StripIdempotent | src/utils/string_utils.cpp:68-74 | stripping twice is stripping once |
| StringUtils.StripUnchanged | src/utils/string_utils.cpp:68-74 | a string that neither starts nor ends with whitespace is returned as it is |
| TextCleaner.HalfwidthOf | src/utils/text_cleaner.hpp:81-142 | the table maps a 3-byte key to one printable ASCII byte |
| TextCleaner.FullwidthFormsShift | src/utils/text_cleaner.hpp:81-142 | for keys starting with 0xEF, the table holds exactly the full-width forms U+FF01..U+FF5E except U+FF0E, U+FF0F, U+FF3B and U+FF3D, and maps each to its code point less 0xFEE0 |
| TextCleaner.CopyLength | src/utils/text_cleaner.hpp:171-175 | the copy length of an unmatched unit is 1 to 4 |
| TextCleaner.CopyLengthVersusLeadLength | src/utils/text_cleaner.hpp:171-175 | for a non-ASCII byte, the cleaner's copy length agrees with `split_utf8`'s unit length exactly when the byte is below 0xF8 |
| TextCleaner.Halfwidth | src/utils/text_cleaner.hpp:144-183 | the mapped text is never longer than the input |
| TextCleaner.FullwidthToHalfwidth | src/utils/text_cleaner.hpp:144-183 | the index loop computes exactly `Halfwidth`: ASCII copied; a table key at a non-ASCII byte with 3 bytes left replaced; otherwise the unit copied, clipped to the end |
| TextCleaner.HalfwidthNoKey | src/utils/text_cleaner.hpp:144-183 | text containing no table key at any position is returned unchanged |
| TextCleaner.HalfwidthSameLength | src/utils/text_cleaner.hpp:144-183 | the mapping keeps the length exactly when it changes nothing |
| TextCleaner.HalfwidthLength | src/utils/text_cleaner.hpp:158-165 | output length is input length less twice the number of replacements |
| TextCleaner.Collapse | src/utils/text_cleaner.hpp:34-35 | the result is no longer than the input, empty only for empty input, starts with whitespace exactly when the input does, and its only whitespace is single spaces, never two adjacent |
| TextCleaner.CollapseSeparates | src/utils/text_cleaner.hpp:34-35 | a whitespace run of any length and kind between two pieces of text becomes exactly one space, each piece collapsing on its own |
| TextCleaner.CollapseKeepsNonSpace | src/utils/text_cleaner.hpp:34-35 | collapsing keeps every non-whitespace byte, in order |
| TextCleaner.CollapseIdempotent | src/utils/text_cleaner.hpp:34-35 | collapsing twice is collapsing once |
| TextCleaner.KeepOnly | src/utils/text_cleaner.hpp:63-67 | the filter keeps only bytes >= 32 and `\n`, `\r`, `\t`, and is no longer than its input |
| TextCleaner.KeepOnlyAll | src/utils/text_cleaner.hpp:63-67 | a string of kept bytes passes the filter unchanged |
| TextCleaner.FilterControl | src/utils/text_cleaner.hpp:53-67 | the filter loop computes exactly `KeepOnly` |
| TextCleaner.Clean | src/utils/text_cleaner.hpp:27-70 | `run` computes exactly `CleanSpec`: empty stays empty; else map, collapse, trim, filter |
| TextCleaner.CleanProperties | src/utils/text_cleaner.hpp:27-70 | empty or all-whitespace input (also after mapping) cleans to empty; output is no longer than input; every output byte is >= 32; the non-whitespace bytes are those of the mapped input that pass the filter |
| TextCleaner.CleanIdeographicSpace | src/utils/text_cleaner.hpp:100 | U+3000 alone cleans to the empty string |
| TextCleaner.CleanSeparatesWords | src/utils/text_cleaner.hpp:27-70 | two words without whitespace or control bytes, separated in the mapped text by any whitespace run, come out of `run` joined by exactly one space |
| TextCleaner.CleanIdeographicSeparator | src/utils/text_cleaner.hpp:100 | `a`, U+3000, `b` cleans to `a b` |
| TextCleaner.StripOfCollapsed | src/utils/text_cleaner.hpp:34-50 | after collapsing and trimming no `\n`, `\r` or `\t` is left |
| TextCleaner.HalfwidthCopiesUnits | src/utils/text_cleaner.hpp:169-178 | 3-byte units that are not keys are copied through verbatim |
| TextCleaner.CleanBracketed | tests/test_cleaner.cpp:17 | `【`, copied CJK units, `。】` clean to `[`, the same units, `.]`, the shape of the cleaner test's example |
| TextCleaner.CleanLeavesAlone | src/utils/text_cleaner.hpp:27-70 | mapped text with no whitespace and no control byte is the cleaner's output |
| TextCleaner.CleanMayStartWithSpace | src/utils/text_cleaner.hpp:43-67 | trimming comes before the control filter, so `\x01 a` cleans to ` a`, starting with a space |
| Punctuation.RunLength | src/utils/g2p/Punctuator.hpp:71 | the run at the front holds no mark and ends at a mark or the end |
| Punctuation.SplitByMarks | src/utils/g2p/Punctuator.hpp:48-96 | the match loop computes exactly `SplitSpec` |
| Punctuation.Punctuator.Run | src/utils/g2p/Punctuator.hpp:43-45 | `run` is the split by the punctuator's marks |
| Punctuation.SplitJoin | src/utils/g2p/Punctuator.hpp:71-93 | concatenating segment and mark of every pair, in order, gives back the input |
| Punctuation.SplitPairsGood | src/utils/g2p/Punctuator.hpp:71-91 | with marks, no segment holds a mark byte, every mark is empty or one mark byte, and no pair is empty |
| Punctuation.SplitDegenerate | src/utils/g2p/Punctuator.hpp:53-57 | empty text gives no pair; an empty mark set gives the single pair (text, "") |
| Punctuation.SplitMarked | src/utils/g2p/Punctuator.hpp:85-90 | every pair but the last carries a mark: a mark attaches to the pair before it when that one has none |
| Punctuation.LoneMarks | src/utils/g2p/Punctuator.hpp:85-90 | a text of marks only gives one ("", mark) pair per byte |
| Punctuation.TwoSentences | tests/test_punctuator.cpp:17 | text `a m1 b m2` with mark-free `a`, `b` gives [(a, m1), (b, m2)], so `Hello, World!` gives [(Hello, ","), (" World", "!")] |
| Punctuation.EllipsisBytesAreMarks | src/utils/g2p/Punctuator.hpp:61-68 | each byte of a multi-byte default mark (the ellipsis) is a mark on its own |
| Frontend.Lookup | src/tts/tts_frontend.hpp:65-69 | there are never more ids than chunks |
| Frontend.LookupIsKnown | src/tts/tts_frontend.hpp:65-69 | the ids are the ids of the known chunks, one each, in order; unknown chunks are skipped |
| Frontend.LookupAllKnown | src/tts/tts_frontend.hpp:65-69 | when every chunk is known, id k is the id of chunk k |
| Frontend.LookupNoneKnown | src/tts/tts_frontend.hpp:65-69 | when no chunk is known, there is no id |
| Frontend.TokensShape | src/tts/tts_frontend.hpp:59-71 | the result has 2 + the number of known chunks entries, and starts and ends with 0 |
| Frontend.TtsFrontend.Init | src/tts/tts_frontend.hpp:37-41 | `init` always succeeds and marks the frontend ready |
| Frontend.TtsFrontend.Run | src/tts/tts_frontend.hpp:43-73 | before `init`: empty result and error -1; after: the error is the converter's and the tokens are those of the phonemes of the cleaned text, even when there is an error |
| Sorting.Argsort | src/tts/kokoro.cpp:54-71 | the result has `len` entries, each an index of `v` |
| Sorting.ArgsortPermutation | src/tts/kokoro.cpp:54-71 | the result is a permutation of `0..len-1` |
| Sorting.ArgsortOrder | src/tts/kokoro.cpp:54-71 | values never increase along the result, and equal values keep ascending index order |
| Sorting.SortedUnique | src/tts/kokoro.cpp:54-71 | there is only one such order, so `Argsort` is the stable descending sort |
| Durations.ProcessDuration | src/tts/kokoro.cpp:576-650 | the method computes exactly `DurationPlan`: pad, reduce the overshoot, spread the leftover, sum |
| Durations.SpreadLeftover | src/tts/kokoro.cpp:629-647 | the two fill loops give each padding entry `remaining / padding_len`, one more for the first `remaining % padding_len` |
| Durations.ReduceOvershoot | src/tts/kokoro.cpp:607-616 | the single-pass loop computes exactly `Reduce` over the argsort order |
| Durations.ReduceBounds | src/tts/kokoro.cpp:609-616 | each entry is unchanged, or was above 1, is visited and drops by exactly 1 |
| Durations.ReduceLowersFirst | src/tts/kokoro.cpp:607-616 | no entry above 1 is passed over while an entry later in the visiting order is lowered, so over the argsort order the longest durations are shortened |
| Durations.ReduceTotal | src/tts/kokoro.cpp:609-616 | the total drop is `min(need, number of visited entries above 1)` |
| Durations.ReductionBounds | src/tts/kokoro.cpp:601-617 | each token's duration stays or, if above 1, drops by 1; padding stays 0 |
| Durations.ReductionKeepsPositive | src/tts/kokoro.cpp:609-616 | durations of at least 1 stay at least 1 |
| Durations.ReductionTotal | src/tts/kokoro.cpp:601-617 | the content loses `min(overshoot, tokens above 1)` frames when it overshoots `2 * max_seq_len`, none otherwise |
| Durations.SpreadSum | src/tts/kokoro.cpp:636-647 | `n` entries of `q`, the first `r` one more, sum to `n * q + min(r, n)` |
| Durations.PlanContent | src/tts/kokoro.cpp:580-582 | `pred_dur` has length `max_seq_len`, and its token part is the reduced durations |
| Durations.PlanPadding | src/tts/kokoro.cpp:629-647 | padding entry `i` is `left / padding_len` plus 1 iff `i - a < left % padding_len` when frames are left, and 0 otherwise |
| Durations.SpreadedSum | src/tts/kokoro.cpp:636-650 | when frames are left and there is padding, the durations sum to the budget |
| Durations.PlanTotal | src/tts/kokoro.cpp:650 | `total_frames` is `max(2 * max_seq_len, content)` when there is padding, and the content otherwise |
| Durations.TotalFramesIsBudget | src/tts/kokoro.cpp:601-650 | `total_frames == 2 * max_seq_len` exactly when any overshoot is at most the number of reducible tokens and any undershoot has padding to absorb it |
| Durations.PlanKeepsTokens | src/tts/kokoro.cpp:573-616 | every token keeps at least one frame |
| Durations.PlanPaddingNonNegative | src/tts/kokoro.cpp:580-647 | padding entries are never negative |
| Alignment.NpRepeat | src/tts/kokoro.cpp:74-81 | the nested loop computes exactly `Repeat` |
| Alignment.RepeatLength | src/tts/kokoro.cpp:74-81 | with no negative count, the repetition is as long as the counts' sum |
| Alignment.RepeatBlock | src/tts/kokoro.cpp:74-81 | every position in the block of count `i` holds `v[i]` |
| Alignment.RepeatCovered | src/tts/kokoro.cpp:74-81 | every position lies in some count's block |
| Alignment.IndicesBlock | src/tts/kokoro.cpp:662-664 | frame `c` belongs to token `i` exactly when `c` is in `[prefix(i), prefix(i) + d[i])` |
| Alignment.Matrix | src/tts/kokoro.cpp:666 | the matrix has `rows * cols` cells |
| Alignment.MatrixCell | src/tts/kokoro.cpp:666-672 | cell (row `i`, column `c`) is 1 exactly when column `c` has an index and that index is `i` |
| Alignment.CreateAlignmentMatrix | src/tts/kokoro.cpp:654-676 | a fresh row-major buffer holding exactly `Matrix` of the repeated indices |
| Alignment.IndexInRange | src/tts/kokoro.cpp:662-670 | every repeated index is a row of the matrix |
| Alignment.AlignmentRows | src/tts/kokoro.cpp:654-676 | when `total_frames` is the durations' sum, row `i` has its 1s exactly in the columns of token `i`'s block, so each column has one 1 |
| InputPrep.PrepareInputIds | src/tts/kokoro.cpp:509-544 | doubling happens exactly when `actual_len <= 32`, giving `Doubled` and the active length `min(2a, M)`; otherwise nothing changes |
| InputPrep.DoubledLayout | src/tts/kokoro.cpp:519-537 | after doubling, ids below `min(2a, M)` repeat the content with period `a`, and the rest are 0 |
| InputPrep.ComputeExternalPreprocessing | src/tts/kokoro.cpp:546-555 | `input_lengths` is `[actual_len]`; the mask has `max_seq_len` bytes, 1 exactly at positions `>= actual_len` |
| InputPrep.MaskOnes | src/tts/kokoro.cpp:550-554 | the mask has `max_seq_len - clip(actual_len)` ones |
| InputPrep.Half | src/tts/kokoro.cpp:477 | C++ division by 2, truncating toward zero |
| InputPrep.Undouble | src/tts/kokoro.cpp:473-480 | doubled: first half of the audio, halved `total_frames`, content frames of the original tokens; else content frames of the active tokens |
| InputPrep.UndoubledAudio | src/tts/kokoro.cpp:475-476 | the kept audio is a prefix, and the dropped part is at most one sample longer |
| InputPrep.ContentWithinTotal | src/tts/kokoro.cpp:474-479 | with non-negative durations, the content frames are between 0 and all frames |
| Voice.LoadVoiceEmbedding | src/tts/kokoro.cpp:317-327 | the row of the length exists exactly when the tensor reaches its end, and then has 256 values |
| Voice.StyleRowChoice | src/tts/kokoro.cpp:318-324 | row 0 for a negative length, the length itself below 510, row 255 from 510 on; always below 510 |
| Voice.EmbeddingOfFullTensor | src/tts/kokoro.cpp:317-327 | with a full tensor the embedding exists, and value `j` is value `row * 256 + j` of the tensor |
| Voice.Words | src/tts/kokoro.cpp:313 | the file's values, four bytes each: a quarter as many as bytes |
| Voice.WordsAt | src/tts/kokoro.cpp:313 | value `k` is bytes `4k..4k+3` |
| Voice.Resize | src/tts/kokoro.cpp:301 | `resize(n)`: `n` values, the old prefix kept, zeros after |
| Voice.SizeCheckAdmitsOverrun | src/tts/kokoro.cpp:308-313 | the check as written passes a file 3 bytes longer than the tensor |
| Voice.SizeCheckExact | src/tts/kokoro.cpp:308-313 | the corrected check gives exactly the tensor's values, rejects every longer file and implies the check as written |
| Vocab.DigitRun | src/tts/kokoro.cpp:224 | the run of digits at the front ends at a non-digit or the end |
| Vocab.Stoi | src/tts/kokoro.cpp:224 | every value `stoi` returns is a 32-bit `int` |
| Vocab.Decimal | src/tts/kokoro.cpp:224 | a numeral is non-empty and all digits |
| Vocab.DecimalValue | src/tts/kokoro.cpp:224 | the digits of a numeral read back as its number |
| Vocab.StoiDecimal | src/tts/kokoro.cpp:224 | `stoi` reads back any `int` numeral, whatever non-digit follows it |
| Vocab.StoiNegatedDecimal | src/tts/kokoro.cpp:224 | `stoi` reads back a negated numeral down to the smallest `int` |
| Vocab.SkipWithoutTab | src/tts/kokoro.cpp:212-213 | a line is ignored exactly when it has no tab |
| Vocab.UnescapePlain | src/tts/kokoro.cpp:217-222 | a token without a backslash is kept as it is |
| Vocab.ReadLine | src/tts/kokoro.cpp:211-223 | one round of the line loop gives exactly `ParseLine`: a line without a tab is skipped; otherwise the token before the first tab, unescaped, with `stoi` of the text after it, or a failed id when `stoi` throws |
| Vocab.ParseAll | src/tts/kokoro.cpp:210-225 | one parse per line, in order |
| Vocab.ScanSucceeds | src/tts/kokoro.cpp:210-232 | the load succeeds exactly when no line has an id `stoi` rejects |
| Vocab.ScanLastWins | src/tts/kokoro.cpp:224 | a token's id is the one on the last line naming it |
| Vocab.ScanUntouched | src/tts/kokoro.cpp:210-225 | a token no line names keeps its old id, or stays absent |
| Kokoro.VoiceLoadFills | src/tts/kokoro.cpp:293-315 | a successful load fills the tensor with the file's values, from a file of `4 * 510 * 256` to `4 * 510 * 256 + 3` bytes; every attempt past the existence check leaves a full-size tensor; a missing file changes nothing |
| Kokoro.VoiceCacheProperties | src/tts/kokoro.cpp:165-173 | the cached name changes only after a load of the requested voice succeeds; the cached voice is reused, tensor unchanged, exactly when its name is requested; a ready voice is the requested one; the cache stays consistent (tensor complete, or tensor and name both empty) |
| Kokoro.ReadyVoiceStyleRow | src/tts/kokoro.cpp:165-182 | with a consistent cache, a ready voice lacks its style row exactly when its tensor is empty, which needs the voice "" requested while the cached name is still "" |
| Kokoro.EmptyVoiceSkipsLoad | src/tts/kokoro.cpp:165-182 | a fresh engine asked for voice "" skips the load whatever the voice file, and the style row then lies outside the empty tensor |
| Kokoro.ReusedVoiceIsComplete | src/tts/kokoro.cpp:165-173 | with the corrected reload test, a fresh engine always loads, and a reused voice always has its style row |
| Kokoro.VoiceCacheCorrectedProperties | src/tts/kokoro.cpp:165-173 | with the corrected reload test, the cached name changes only after a successful load, and a ready voice is the requested one with a full tensor, whatever was cached |
| Kokoro.Engine.constructor | src/tts/kokoro.cpp:770-774 | a fresh engine: empty vocabulary, no voice name, an empty tensor, a frontend not yet ready, and a consistent cache |
| Kokoro.Engine.Init | src/tts/kokoro.cpp:102-130 | `max_seq_len` is taken first; a missing espeak path, a failed vocabulary load, or models that fail to load make it fail, in that order |
| Kokoro.Engine.LoadVocab | src/tts/kokoro.cpp:201-233 | the line loop leaves the vocabulary and result of `VocabLoad`, and nothing else changes |
| Kokoro.Engine.GetVoiceStyle | src/tts/kokoro.cpp:293-315 | the tensor and result are those of `VoiceLoad`, with the source's `raw.size() / 4` size check and the resize before the read |
| Kokoro.Engine.SelectVoice | src/tts/kokoro.cpp:165-173 | the voice is loaded only when its name differs from the cached one; name, tensor and readiness are those of `VoiceCache`; a ready voice is the requested one; a consistent cache stays consistent |
| Kokoro.Engine.Run | src/tts/kokoro.cpp:159-182 | no voice fails and changes nothing; otherwise it gets past the frontend exactly when the voice is ready, the frontend is inited and the converter reports no error; it then gives the frontend's ids with the 256 values of their style row, or the out-of-range outcome when that row lies outside the tensor, which from a consistent cache happens only for the voice "" with an empty tensor |

## Left out

- Neural stages: the three model runs, the ONNX harmonic session and the matrix product. They are foreign engines and float linear algebra.
- Float math of `run_models_`:
  - the sigmoid, sum and rounding that give the per-token durations (`Durations.ProcessDuration` takes those integers, already clamped to at least 1);
  - the iSTFT reconstruction;
  - the trim ratio of `trim_audio_by_content_`;
  - `linspace` and the fade-out;
  - the speed parameter.
- `inference_single_chunk_` itself is not modelled as one operation. Its integer steps are modelled and proved one by one: `PrepareInputIds`, `ComputeExternalPreprocessing`, `ProcessDuration`, `CreateAlignmentMatrix`, `Undouble`.
- File and model loading:
  - file existence, reading and model loading are I/O, so files are parameters holding their contents;
  - `Kokoro.Engine.Init` takes the models' success as a flag;
  - the output buffers that `init` sizes after loading are not modelled;
  - the `malloc`/`memcpy` of the result audio is not modelled.
- 32-bit overflow: sums of durations and `2 * max_seq_len` use unbounded integers. The source's `int` would wrap on very long inputs.
- `Vocab.Stoi`: an id that `std::stoi` rejects throws in the source. `init` does not catch it. The model returns a failed load that keeps the entries read so far.
- `Voice.Words` reads a float's bytes little-endian, as on the target. Byte order is not a parameter.
- `Voice.LoadVoiceEmbedding`: a row beyond the tensor is an out-of-bounds read in the source. The model gives `None`.
- `Kokoro.Engine.Run`: where the source reads the style row outside the voice tensor, the model stops with `StyleOutOfRange` instead of going on with undefined values.
- `Kokoro.Engine.GetVoiceStyle`: a file of up to three bytes more than the tensor passes the check, as in the source. The `memcpy` of those extra bytes past the tensor's end is not modelled; the tensor holds the file's whole values.
- `Durations.ProcessDuration` requires at most `max_seq_len` tokens. Nothing in the source enforces this: `run_models_` passes `input_ids.size()` uncapped (src/tts/kokoro.cpp:337, 352), and an input of more than 32 ids is not doubled or cut (kokoro.cpp:515). On a longer input the source reads `duration_processed` past its end (kokoro.cpp:569) and then sizes the padding vector with the negative `max_seq_len_ - actual_len` (kokoro.cpp:580); converted to `size_t` that is a huge size, and the vector constructor throws. The model says nothing about such inputs.
- `InputPrep.Undouble` requires `pred_dur` to hold the tokens it sums. For a doubled input with `max_seq_len < original_actual_len <= 32`, the source's `accumulate` over `original_actual_len` entries reads past `pred_dur` (kokoro.cpp:474). The model says nothing about such inputs.
- `Alignment.CreateAlignmentMatrix` requires the frame count to cover the repeated indices, as the caller's `total_frames` does; otherwise the source writes past the buffer. Cells are reals 0 and 1, not 32-bit floats.
- `Punctuation`: marks are bytes. A `-` in a mark string is not escaped, so it can form a range inside the source's bracket expression; ranges are not modelled. The default marks contain no `-`.
- The espeak converter, its global mutex and instance counters, and the text normalizer are not part of this model. The normalizer is the identity and is composed as such. The converter is the `G2p` parameter.
- The C API, the factory and the logging are not part of this model.

## Findings

| source | as written | input that shows it | evidently intended | confidence | as-written member | corrected member |
|---|---|---|---|---|---|---|
| src/tts/kokoro.cpp:165-173, 182 | the voice is reloaded only when the requested name differs from `voice_name_`, which starts empty | voice `""` on a fresh engine: the load is skipped and the style row is read from an empty tensor | reuse a voice only when its tensor is complete | not executed | Kokoro.EmptyVoiceSkipsLoad | Kokoro.VoiceCacheCorrectedProperties |
| src/tts/kokoro.cpp:308-313 | the size check compares `raw.size() / 4` with the tensor size, then `memcpy` copies `raw.size()` bytes | a voice file of `4 * 510 * 256 + 3` bytes passes, and 3 bytes are written past the tensor | accept exactly `4 * 510 * 256` bytes | not executed | Voice.SizeCheckAdmitsOverrun | Voice.SizeCheckExact |
