/** The tokenizing frontend of src/tts/tts_frontend.hpp: cleaner, identity
    normalizer, grapheme-to-phoneme conversion, UTF-8 chunking and
    vocabulary lookup, framed by two sentinel zeros. */
module Frontend {
  import opened Bytes
  import StringUtils
  import TextCleaner

  /** A grapheme-to-phoneme converter: text to phonemes and an error code.
      The espeak-backed converter of the source is foreign code; the model
      takes it as a parameter. */
  type G2p = seq<byte> -> (seq<byte>, int)

  /** The ids of the chunks that are vocabulary keys, in order; the other
      chunks are skipped. */
  function Lookup(chunks: seq<seq<byte>>, vocab: map<seq<byte>, int>): (r: seq<int>)
    ensures |r| <= |chunks|
    decreases |chunks|
  {
    if chunks == [] then []
    else
      var last := chunks[|chunks| - 1];
      Lookup(chunks[..|chunks| - 1], vocab) + (if last in vocab then [vocab[last]] else [])
  }

  /** The chunks that are vocabulary keys, in order. */
  function Known(chunks: seq<seq<byte>>, vocab: map<seq<byte>, int>): (r: seq<seq<byte>>)
    ensures forall k :: 0 <= k < |r| ==> r[k] in vocab
    decreases |chunks|
  {
    if chunks == [] then []
    else
      var last := chunks[|chunks| - 1];
      Known(chunks[..|chunks| - 1], vocab) + (if last in vocab then [last] else [])
  }

  /** The ids are exactly the ids of the known chunks, one per known chunk,
      in order. */
  lemma {:induction false} LookupIsKnown(chunks: seq<seq<byte>>, vocab: map<seq<byte>, int>)
    ensures |Lookup(chunks, vocab)| == |Known(chunks, vocab)|
    ensures forall k :: 0 <= k < |Known(chunks, vocab)| ==>
      Lookup(chunks, vocab)[k] == vocab[Known(chunks, vocab)[k]]
    decreases |chunks|
  {
    if chunks != [] {
      LookupIsKnown(chunks[..|chunks| - 1], vocab);
    }
  }

  /** When every chunk is a key, nothing is skipped. */
  lemma {:induction false} LookupAllKnown(chunks: seq<seq<byte>>, vocab: map<seq<byte>, int>)
    requires forall k :: 0 <= k < |chunks| ==> chunks[k] in vocab
    ensures Lookup(chunks, vocab) == seq(|chunks|, k requires 0 <= k < |chunks| => vocab[chunks[k]])
    decreases |chunks|
  {
    if chunks != [] {
      LookupAllKnown(chunks[..|chunks| - 1], vocab);
    }
  }

  /** When no chunk is a key, every chunk is skipped. */
  lemma {:induction false} LookupNoneKnown(chunks: seq<seq<byte>>, vocab: map<seq<byte>, int>)
    requires forall k :: 0 <= k < |chunks| ==> chunks[k] !in vocab
    ensures Lookup(chunks, vocab) == []
    decreases |chunks|
  {
    if chunks != [] {
      LookupNoneKnown(chunks[..|chunks| - 1], vocab);
    }
  }

  /** The tokens `run` returns for the given phonemes. */
  function Tokens(phonemes: seq<byte>, vocab: map<seq<byte>, int>): seq<int> {
    [0] + Lookup(StringUtils.Utf8Chunks(phonemes), vocab) + [0]
  }

  /** The tokens start and end with the sentinel 0 and hold one id per
      chunk found in the vocabulary in between. */
  lemma {:induction false} TokensShape(phonemes: seq<byte>, vocab: map<seq<byte>, int>)
    ensures |Tokens(phonemes, vocab)| == 2 + |Known(StringUtils.Utf8Chunks(phonemes), vocab)|
    ensures Tokens(phonemes, vocab)[0] == 0
    ensures Tokens(phonemes, vocab)[|Tokens(phonemes, vocab)| - 1] == 0
    ensures phonemes == [] ==> Tokens(phonemes, vocab) == [0, 0]
  {
    LookupIsKnown(StringUtils.Utf8Chunks(phonemes), vocab);
  }

  /** `TTSFrontend`: a two-state machine, not inited until `init`. */
  class TtsFrontend {
    var inited: bool

    constructor()
      ensures !inited
    {
      inited := false;
    }

    /** `init` always succeeds. */
    method Init() returns (ok: bool)
      modifies this
      ensures ok && inited
    {
      inited := true;
      ok := true;
    }

    /** `run`: before `init` the error is -1 and there are no tokens;
        afterwards the error is the converter's and the tokens are built
        from its phonemes whatever the error. */
    method Run(inputText: seq<byte>, vocab: map<seq<byte>, int>, g2p: G2p)
      returns (tokens: seq<int>, err: int)
      ensures !inited ==> tokens == [] && err == -1
      ensures inited ==> err == g2p(TextCleaner.CleanSpec(inputText)).1
      ensures inited ==> tokens == Tokens(g2p(TextCleaner.CleanSpec(inputText)).0, vocab)
    {
      if !inited {
        return [], -1;
      }
      var cleanedText := TextCleaner.Clean(inputText);
      var normalizedText := cleanedText;
      var phonemes;
      phonemes, err := g2p(normalizedText).0, g2p(normalizedText).1;
      tokens := [0];
      var chars := StringUtils.SplitUtf8(phonemes);
      var k := 0;
      while k < |chars|
        invariant 0 <= k <= |chars|
        invariant tokens == [0] + Lookup(chars[..k], vocab)
      {
        var c := chars[k];
        assert chars[..k + 1][..k] == chars[..k];
        if c in vocab {
          tokens := tokens + [vocab[c]];
        }
        k := k + 1;
      }
      assert chars[..|chars|] == chars;
      tokens := tokens + [0];
    }
  }
}
