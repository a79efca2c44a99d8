/** `Kokoro::Impl` of src/tts/kokoro.cpp: its state (the maximum sequence
    length, the vocabulary, the cached voice and the frontend) and the
    integer steps of `init`, `run` and `inference_single_chunk_`. The
    neural stages are parameters: what they compute is not modelled. */
module Kokoro {
  import opened Bytes
  import StringUtils
  import Vocab
  import Voice
  import Frontend
  import TextCleaner
  import InputPrep
  import Durations
  import Alignment
  import Sorting

  /** What reading a voice file gives: no such file, a file that cannot
      be read, or its bytes. */
  datatype VoiceFile = Missing | Unreadable | Contents(raw: seq<byte>)

  /** `get_voice_style_` on the tensor it starts from: whether it
      succeeds, and the tensor it leaves. The tensor is resized before the
      file is read, so every failure after the existence check leaves it
      resized. The size check is the one written in the source (see
      `Voice.SizeCheckAsWritten`): a file up to three bytes longer than the
      tensor passes, and the tensor then holds the file's whole values. */
  function VoiceLoad(tensor: seq<Voice.word>, file: VoiceFile): (bool, seq<Voice.word>) {
    match file
    case Missing => (false, tensor)
    case Unreadable => (false, Voice.Resize(tensor, Voice.TensorSize))
    case Contents(raw) =>
      if Voice.SizeCheckAsWritten(raw) then (true, Voice.Words(raw))
      else (false, Voice.Resize(tensor, Voice.TensorSize))
  }

  /** A successful load fills the tensor with the file's values, from a
      file of `4 * TensorSize` to `4 * TensorSize + 3` bytes; any attempt
      that finds the file leaves a tensor of the full size, and a missing
      file changes nothing. */
  lemma {:induction false} VoiceLoadFills(tensor: seq<Voice.word>, file: VoiceFile)
    ensures VoiceLoad(tensor, file).0 ==>
      file.Contents? && VoiceLoad(tensor, file).1 == Voice.Words(file.raw) &&
      4 * Voice.TensorSize <= |file.raw| < 4 * Voice.TensorSize + 4
    ensures !file.Missing? ==> |VoiceLoad(tensor, file).1| == Voice.TensorSize
    ensures file.Missing? ==> VoiceLoad(tensor, file) == (false, tensor)
  {
  }

  /** The reload test of `run` as written: the voice is loaded only when
      its name differs from the cached one. */
  predicate NeedsReloadAsWritten(requested: seq<byte>, current: seq<byte>) {
    requested != current
  }

  /** The voice cache step of `run`: whether the voice is ready, and the
      cached name and tensor afterwards. */
  function VoiceCache(requested: seq<byte>, current: seq<byte>, tensor: seq<Voice.word>, file: VoiceFile)
    : (seq<byte>, seq<Voice.word>, bool)
  {
    if !NeedsReloadAsWritten(requested, current) then (current, tensor, true)
    else
      var (ok, loaded) := VoiceLoad(tensor, file);
      (if ok then requested else current, loaded, ok)
  }

  /** What the cache always satisfies: the tensor is complete, or nothing
      was ever loaded and both the tensor and the name are empty. */
  predicate CacheConsistent(name: seq<byte>, tensor: seq<Voice.word>) {
    |tensor| == Voice.TensorSize || (tensor == [] && name == [])
  }

  /** The cached name changes only after a successful load of the
      requested voice; the cached voice is reused, tensor and all, exactly
      when its name is asked for; a ready voice is the requested one; and
      the cache stays consistent. */
  lemma {:induction false} VoiceCacheProperties(requested: seq<byte>, current: seq<byte>, tensor: seq<Voice.word>, file: VoiceFile)
    ensures var (name, t, ok) := VoiceCache(requested, current, tensor, file);
      (name != current ==> ok && name == requested && |t| == Voice.TensorSize) &&
      (requested == current ==> ok && t == tensor) &&
      (ok ==> name == requested) &&
      (CacheConsistent(current, tensor) ==> CacheConsistent(name, t))
  {
    VoiceLoadFills(tensor, file);
  }

  /** With a consistent cache, a ready voice lacks the style row exactly
      when its tensor is empty, which happens only when the voice "" is
      asked for before any voice has been loaded. */
  lemma {:induction false} ReadyVoiceStyleRow(requested: seq<byte>, current: seq<byte>, tensor: seq<Voice.word>, file: VoiceFile, phonemeLen: int)
    requires CacheConsistent(current, tensor)
    ensures var (name, t, ok) := VoiceCache(requested, current, tensor, file);
      ok ==>
        (Voice.LoadVoiceEmbedding(t, phonemeLen).None? <==> t == []) &&
        (t == [] ==> requested == [] && current == [])
  {
    VoiceCacheProperties(requested, current, tensor, file);
    var (name, t, ok) := VoiceCache(requested, current, tensor, file);
    if ok && |t| == Voice.TensorSize {
      Voice.EmbeddingOfFullTensor(t, phonemeLen, 0);
    }
    if t == [] {
      Voice.StyleRowChoice(phonemeLen);
    }
  }

  /** A fresh instance caches the empty name and an empty tensor, so a
      request for the voice "" skips the load whatever the voice file, and
      the style row is then read outside the empty tensor for every input
      length. */
  lemma {:induction false} EmptyVoiceSkipsLoad(file: VoiceFile, phonemeLen: int)
    ensures !NeedsReloadAsWritten([], [])
    ensures VoiceCache([], [], [], file) == ([], [], true)
    ensures Voice.LoadVoiceEmbedding([], phonemeLen).None?
  {
    Voice.StyleRowChoice(phonemeLen);
  }

  /** The intended reload test: a voice is reused only when it is the
      cached one and the cached tensor is complete. */
  predicate NeedsReload(requested: seq<byte>, current: seq<byte>, tensor: seq<Voice.word>) {
    requested != current || |tensor| != Voice.TensorSize
  }

  /** Under the intended test, a fresh instance loads whatever voice is
      asked for, and a reused voice always has every style row. */
  lemma {:induction false} ReusedVoiceIsComplete(requested: seq<byte>, current: seq<byte>, tensor: seq<Voice.word>, phonemeLen: int)
    ensures NeedsReload(requested, [], [])
    ensures !NeedsReload(requested, current, tensor) ==> Voice.LoadVoiceEmbedding(tensor, phonemeLen).Some?
  {
    if !NeedsReload(requested, current, tensor) {
      Voice.EmbeddingOfFullTensor(tensor, phonemeLen, 0);
    }
  }

  /** The voice cache step with the intended reload test. */
  function VoiceCacheCorrected(requested: seq<byte>, current: seq<byte>, tensor: seq<Voice.word>, file: VoiceFile)
    : (seq<byte>, seq<Voice.word>, bool)
  {
    if !NeedsReload(requested, current, tensor) then (current, tensor, true)
    else
      var (ok, loaded) := VoiceLoad(tensor, file);
      (if ok then requested else current, loaded, ok)
  }

  /** Under the intended test the cached name still changes only after a
      successful load, and a ready voice is the requested one with a
      complete tensor, whatever was cached before. */
  lemma {:induction false} VoiceCacheCorrectedProperties(requested: seq<byte>, current: seq<byte>, tensor: seq<Voice.word>, file: VoiceFile)
    ensures var (name, t, ok) := VoiceCacheCorrected(requested, current, tensor, file);
      (name != current ==> NeedsReload(requested, current, tensor) && ok && name == requested) &&
      (ok ==> name == requested && |t| == Voice.TensorSize)
  {
    VoiceLoadFills(tensor, file);
  }

  /** What `run` comes to before the neural stages: a failure, the style
      row read outside the voice tensor (undefined behaviour in the
      source), or the input ids with their style row. */
  datatype RunOutcome =
    | Failed
    | StyleOutOfRange(ids: seq<int>)
    | Ready(ids: seq<int>, style: seq<Voice.word>)

  /** What `init` is given: whether the espeak data path is set, the
      vocabulary file, and whether the models load. */
  datatype InitConfig = InitConfig(
    maxSeqLen: nat,
    espeakDataPathSet: bool,
    vocabFile: Option<seq<byte>>,
    modelsLoad: bool)

  class Engine {
    var maxSeqLen: nat
    var vocab: map<seq<byte>, int>
    var voiceName: seq<byte>
    var voiceTensor: seq<Voice.word>
    var frontend: Frontend.TtsFrontend

    /** The voice cache is consistent. */
    predicate Valid()
      reads this
    {
      CacheConsistent(voiceName, voiceTensor)
    }

    /** A fresh instance: empty vocabulary, no voice, a frontend not yet
        inited. The source leaves `max_seq_len_` indeterminate until
        `init`; here it starts at 0, and nothing reads it before `Init`
        sets it. */
    constructor()
      ensures maxSeqLen == 0 && vocab == map[] && voiceName == [] && voiceTensor == []
      ensures fresh(frontend) && !frontend.inited
      ensures Valid()
    {
      maxSeqLen := 0;
      vocab := map[];
      voiceName := [];
      voiceTensor := [];
      frontend := new Frontend.TtsFrontend();
    }

    /** `init`: the maximum sequence length is taken first; a missing
        espeak data path, a vocabulary that does not load, or models that
        do not load make it fail, in that order. */
    method Init(config: InitConfig) returns (ok: bool)
      modifies this, frontend
      ensures maxSeqLen == config.maxSeqLen && frontend == old(frontend)
      ensures voiceName == old(voiceName) && voiceTensor == old(voiceTensor)
      ensures !config.espeakDataPathSet ==> !ok && vocab == old(vocab) && frontend.inited == old(frontend.inited)
      ensures config.espeakDataPathSet ==>
        var (v, vocabOk) := VocabLoad(old(vocab), config.vocabFile);
        vocab == v && frontend.inited == (vocabOk || old(frontend.inited)) &&
        ok == (vocabOk && config.modelsLoad)
    {
      maxSeqLen := config.maxSeqLen;
      if !config.espeakDataPathSet {
        return false;
      }
      ok := LoadVocab(config.vocabFile);
      if !ok {
        return;
      }
      ok := frontend.Init();
      ok := config.modelsLoad;
    }

    /** `load_vocab_` over the file's bytes, read line by line. */
    method LoadVocab(file: Option<seq<byte>>) returns (ok: bool)
      modifies this
      ensures (vocab, ok) == VocabLoad(old(vocab), file)
      ensures maxSeqLen == old(maxSeqLen) && frontend == old(frontend)
      ensures voiceName == old(voiceName) && voiceTensor == old(voiceTensor)
    {
      if file.None? {
        return false;
      }
      var lines := StringUtils.GetlineFields(file.value, '\n' as byte);
      ghost var entries := Vocab.ParseAll(lines);
      var k := 0;
      while k < |lines|
        invariant 0 <= k <= |lines|
        invariant Vocab.Scan(entries[k..], vocab) == Vocab.Scan(entries, old(vocab))
        invariant maxSeqLen == old(maxSeqLen) && frontend == old(frontend)
        invariant voiceName == old(voiceName) && voiceTensor == old(voiceTensor)
      {
        var e := Vocab.ReadLine(lines[k]);
        assert entries[k..] == [e] + entries[k + 1..];
        match e {
          case Skip =>
          case BadId(_) => return false;
          case Pair(token, id) => vocab := vocab[token := id];
        }
        k := k + 1;
      }
      ok := true;
    }

    /** `get_voice_style_`. */
    method GetVoiceStyle(file: VoiceFile) returns (ok: bool)
      modifies this
      ensures (ok, voiceTensor) == VoiceLoad(old(voiceTensor), file)
      ensures maxSeqLen == old(maxSeqLen) && vocab == old(vocab) && frontend == old(frontend)
      ensures voiceName == old(voiceName)
    {
      if file.Missing? {
        return false;
      }
      voiceTensor := Voice.Resize(voiceTensor, Voice.TensorSize);
      if file.Unreadable? {
        return false;
      }
      var raw := file.raw;
      if |raw| / 4 != |voiceTensor| {
        return false;
      }
      // The source copies all of `raw`, up to three bytes past the tensor's
      // end; the tensor keeps the file's whole values.
      voiceTensor := Voice.Words(raw);
      ok := true;
    }

    /** The voice step of `run`: the voice is loaded only when its name
        differs from the cached one, and the name is cached only after a
        successful load. */
    method SelectVoice(requested: seq<byte>, file: VoiceFile) returns (ok: bool)
      modifies this
      ensures (voiceName, voiceTensor, ok) == VoiceCache(requested, old(voiceName), old(voiceTensor), file)
      ensures ok ==> voiceName == requested
      ensures old(Valid()) ==> Valid()
      ensures maxSeqLen == old(maxSeqLen) && vocab == old(vocab) && frontend == old(frontend)
    {
      ok := true;
      if requested != voiceName {
        ok := GetVoiceStyle(file);
        if !ok {
          return;
        }
        voiceName := requested;
      }
      VoiceCacheProperties(requested, old(voiceName), old(voiceTensor), file);
    }

    /** `run` up to the neural stages: a voice must be named and ready,
        and the frontend must report no error; the outcome is then the
        input ids with the style row for their number, or the ids alone
        when that row lies outside the cached tensor, which with a
        consistent cache happens only for the voice "" on an instance that
        never loaded a voice. */
    method Run(text: seq<byte>, voice: Option<seq<byte>>, file: VoiceFile, g2p: Frontend.G2p)
      returns (result: RunOutcome)
      modifies this
      ensures maxSeqLen == old(maxSeqLen) && vocab == old(vocab) && frontend == old(frontend)
      ensures voice.None? ==> result.Failed? && voiceName == old(voiceName) && voiceTensor == old(voiceTensor)
      ensures voice.Some? ==>
        var (name, t, ready) := VoiceCache(voice.value, old(voiceName), old(voiceTensor), file);
        voiceName == name && voiceTensor == t &&
        (!result.Failed? <==> ready && frontend.inited && g2p(TextCleaner.CleanSpec(text)).1 == 0)
      ensures !result.Failed? ==>
        result.ids == Frontend.Tokens(g2p(TextCleaner.CleanSpec(text)).0, vocab)
      ensures result.Ready? ==>
        Voice.LoadVoiceEmbedding(voiceTensor, |result.ids|) == Some(result.style) &&
        |result.style| == Voice.StyleDim
      ensures result.StyleOutOfRange? ==> Voice.LoadVoiceEmbedding(voiceTensor, |result.ids|).None?
      ensures old(Valid()) ==> Valid() && (result.StyleOutOfRange? ==> voiceTensor == [] && voice == Some([]))
    {
      if voice.None? {
        return Failed;
      }
      var ready := SelectVoice(voice.value, file);
      if !ready {
        return Failed;
      }
      var inputIds, err := frontend.Run(text, vocab, g2p);
      if err != 0 {
        return Failed;
      }
      if CacheConsistent(old(voiceName), old(voiceTensor)) {
        ReadyVoiceStyleRow(voice.value, old(voiceName), old(voiceTensor), file, |inputIds|);
      }
      var refS := Voice.LoadVoiceEmbedding(voiceTensor, |inputIds|);
      if refS.None? {
        return StyleOutOfRange(inputIds);
      }
      result := Ready(inputIds, refS.value);
    }
  }

  /** `load_vocab_`'s effect on the vocabulary: a missing file fails and
      changes nothing; otherwise the lines are scanned in order. */
  function VocabLoad(vocab: map<seq<byte>, int>, file: Option<seq<byte>>): (map<seq<byte>, int>, bool) {
    if file.None? then (vocab, false)
    else Vocab.Scan(Vocab.ParseAll(StringUtils.GetlineFields(file.value, '\n' as byte)), vocab)
  }
}
