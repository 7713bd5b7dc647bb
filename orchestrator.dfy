/** Transcript assembly in process_audio (app.py): transcribe every chunk
    of the split stream in order, append each text followed by one space,
    and for the language "Chinese" replace the whole result by one
    refinement over the full text. The speech recogniser and the hosted
    language model are parameters; a failing call (an exception in the
    source) is None and aborts the whole request. */
module Orchestrator {
  import opened Segmenter

  datatype Option<T> = None | Some(value: T)

  /** The language whose transcript is passed through the refinement call. */
  const RefinedLanguage: string := "Chinese"

  /** The transcript text: each fragment followed by exactly one space. */
  function Join(texts: seq<string>): string
  {
    if texts == [] then "" else texts[0] + " " + Join(texts[1..])
  }

  /** Texts of all chunks, in order, or None when any transcription fails. */
  function Transcripts(chunks: seq<Chunk>, transcribe: Chunk -> Option<string>): Option<seq<string>>
  {
    if chunks == [] then Some([])
    else match transcribe(chunks[0])
      case None => None
      case Some(t) =>
        match Transcripts(chunks[1..], transcribe)
        case None => None
        case Some(rest) => Some([t] + rest)
  }

  /** The concatenated transcript of a chunk list. */
  function Combine(chunks: seq<Chunk>, transcribe: Chunk -> Option<string>): Option<string>
  {
    match Transcripts(chunks, transcribe)
    case None => None
    case Some(texts) => Some(Join(texts))
  }

  /** What process_audio returns, as a function of its inputs. */
  function Process(audio: AudioStream, language: string,
                   transcribe: Chunk -> Option<string>,
                   refine: string -> Option<string>): Option<string>
  {
    match Combine(Split(audio, DefaultMaxSizeMb), transcribe)
    case None => None
    case Some(combined) => if language == RefinedLanguage then refine(combined) else Some(combined)
  }

  /** process_audio. `recognise(modelType, language, chunk)` stands for
      loading the named Whisper model and transcribing the exported chunk;
      `refine(text)` for the chat completion with the fixed system
      instruction, over the whole transcript. */
  method ProcessAudio(audio: AudioStream, modelType: string, language: string,
                      recognise: (string, string, Chunk) -> Option<string>,
                      refine: string -> Option<string>)
    returns (transcript: Option<string>)
    ensures transcript == Process(audio, language, c => recognise(modelType, language, c), refine)
  {
    var transcribe := c => recognise(modelType, language, c);
    var splitFiles := SplitAudio(audio, DefaultMaxSizeMb);
    var combinedTranscript := "";
    ghost var texts: seq<string> := [];

    for i := 0 to |splitFiles|
      invariant Transcripts(splitFiles[..i], transcribe) == Some(texts)
      invariant combinedTranscript == Join(texts)
    {
      var result := recognise(modelType, language, splitFiles[i]);
      if result.None? {
        TranscriptsFailsAt(splitFiles, transcribe, i);
        return None;
      }
      TranscriptsSnoc(splitFiles[..i], splitFiles[i], transcribe);
      assert splitFiles[..i + 1] == splitFiles[..i] + [splitFiles[i]];
      JoinAppend(texts, [result.value]);
      combinedTranscript := combinedTranscript + result.value + " ";
      texts := texts + [result.value];
    }
    assert splitFiles[..|splitFiles|] == splitFiles;

    if language == RefinedLanguage {
      transcript := refine(combinedTranscript);
    } else {
      transcript := Some(combinedTranscript);
    }
  }

  // ---------------------------------------------------------------------
  // Properties of the transcript text

  /** Joining two lists of fragments is joining each and concatenating. */
  lemma {:induction false} JoinAppend(a: seq<string>, b: seq<string>)
    ensures Join(a + b) == Join(a) + Join(b)
  {
    if a == [] {
      assert a + b == b;
    } else {
      assert (a + b)[1..] == a[1..] + b;
      JoinAppend(a[1..], b);
    }
  }

  /** Fragment k sits between the fragments before it and those after it. */
  lemma {:induction false} JoinAt(texts: seq<string>, k: nat)
    requires k < |texts|
    ensures Join(texts) == Join(texts[..k]) + texts[k] + " " + Join(texts[k + 1..])
  {
    assert texts == texts[..k] + ([texts[k]] + texts[k + 1..]);
    JoinAppend(texts[..k], [texts[k]] + texts[k + 1..]);
    assert ([texts[k]] + texts[k + 1..])[1..] == texts[k + 1..];
  }

  function TotalLength(texts: seq<string>): nat
  {
    if texts == [] then 0 else |texts[0]| + TotalLength(texts[1..])
  }

  /** The text has one extra character (a space) per fragment, and ends in
      a space whenever there is at least one fragment. */
  lemma {:induction false} JoinShape(texts: seq<string>)
    ensures |Join(texts)| == TotalLength(texts) + |texts|
    ensures texts != [] ==> Join(texts)[|Join(texts)| - 1] == ' '
  {
    if texts != [] {
      JoinShape(texts[1..]);
      if texts[1..] == [] {
        assert Join(texts) == texts[0] + " ";
      }
    }
  }

  // ---------------------------------------------------------------------
  // Properties of per-chunk transcription

  /** Success on a list extended by one chunk. */
  lemma {:induction false} TranscriptsSnoc(chunks: seq<Chunk>, c: Chunk, transcribe: Chunk -> Option<string>)
    requires Transcripts(chunks, transcribe).Some?
    requires transcribe(c).Some?
    ensures Transcripts(chunks + [c], transcribe)
            == Some(Transcripts(chunks, transcribe).value + [transcribe(c).value])
  {
    if chunks != [] {
      assert (chunks + [c])[1..] == chunks[1..] + [c];
      assert (chunks + [c])[0] == chunks[0];
      TranscriptsSnoc(chunks[1..], c, transcribe);
      var t := transcribe(chunks[0]).value;
      var rest := Transcripts(chunks[1..], transcribe).value;
      assert Transcripts(chunks, transcribe).value == [t] + rest;
      assert [t] + (rest + [transcribe(c).value]) == ([t] + rest) + [transcribe(c).value];
    } else {
      assert chunks + [c] == [c] && [c][1..] == [];
      assert Transcripts([c][1..], transcribe) == Some([]);
      assert [transcribe(c).value] + [] == [] + [transcribe(c).value];
    }
  }

  /** One failing chunk makes the whole list fail. */
  lemma {:induction false} TranscriptsFailsAt(chunks: seq<Chunk>, transcribe: Chunk -> Option<string>, k: nat)
    requires k < |chunks|
    requires transcribe(chunks[k]).None?
    ensures Transcripts(chunks, transcribe) == None
  {
    if k > 0 {
      TranscriptsFailsAt(chunks[1..], transcribe, k - 1);
    }
  }

  /** Transcription succeeds exactly when every chunk's call succeeds, and
      then yields one text per chunk, the k-th being chunk k's. */
  lemma {:induction false} TranscriptsSucceed(chunks: seq<Chunk>, transcribe: Chunk -> Option<string>)
    ensures Transcripts(chunks, transcribe).Some?
            <==> forall k :: 0 <= k < |chunks| ==> transcribe(chunks[k]).Some?
    ensures Transcripts(chunks, transcribe).Some? ==>
              |Transcripts(chunks, transcribe).value| == |chunks| &&
              forall k :: 0 <= k < |chunks| ==>
                Transcripts(chunks, transcribe).value[k] == transcribe(chunks[k]).value
  {
    if chunks != [] {
      TranscriptsSucceed(chunks[1..], transcribe);
      if transcribe(chunks[0]).Some? && Transcripts(chunks[1..], transcribe).Some? {
        var texts := Transcripts(chunks, transcribe).value;
        forall k | 0 <= k < |chunks|
          ensures texts[k] == transcribe(chunks[k]).value
        {
          if k > 0 {
            assert chunks[k] == chunks[1..][k - 1];
          }
        }
      } else if transcribe(chunks[0]).Some? {
        var k :| 0 <= k < |chunks[1..]| && transcribe(chunks[1..][k]).None?;
        assert chunks[k + 1] == chunks[1..][k];
      }
    }
  }

  // ---------------------------------------------------------------------
  // Properties of process_audio

  /** Any language but "Chinese": the concatenation is returned unchanged.
      "Chinese": the result is one refinement over the whole concatenation.
      Any failing transcription: no transcript at all. */
  lemma LanguageBranch(audio: AudioStream, language: string,
                       transcribe: Chunk -> Option<string>,
                       refine: string -> Option<string>)
    ensures Combine(Split(audio, DefaultMaxSizeMb), transcribe).None? ==>
              Process(audio, language, transcribe, refine) == None
    ensures Combine(Split(audio, DefaultMaxSizeMb), transcribe).Some? && language != RefinedLanguage ==>
              Process(audio, language, transcribe, refine) == Combine(Split(audio, DefaultMaxSizeMb), transcribe)
    ensures Combine(Split(audio, DefaultMaxSizeMb), transcribe).Some? && language == RefinedLanguage ==>
              Process(audio, language, transcribe, refine)
              == refine(Combine(Split(audio, DefaultMaxSizeMb), transcribe).value)
  {
  }

  /** Order stability: when every call succeeds, the combined text is the
      fragments of the chunks before chunk k, then chunk k's text and one
      space, then the fragments of the chunks after it; when the stream was
      cut, chunk k is the slice with order index k. */
  lemma CombinedInOrder(audio: AudioStream, transcribe: Chunk -> Option<string>, k: nat)
    requires k < |Split(audio, DefaultMaxSizeMb)|
    requires forall j :: 0 <= j < |Split(audio, DefaultMaxSizeMb)| ==>
               transcribe(Split(audio, DefaultMaxSizeMb)[j]).Some?
    ensures Split(audio, DefaultMaxSizeMb)[k].Slice? ==> Split(audio, DefaultMaxSizeMb)[k].index == k
    ensures Combine(Split(audio, DefaultMaxSizeMb), transcribe).Some?
    ensures |Transcripts(Split(audio, DefaultMaxSizeMb), transcribe).value| == |Split(audio, DefaultMaxSizeMb)|
    ensures
      var chunks := Split(audio, DefaultMaxSizeMb);
      var texts := Transcripts(chunks, transcribe).value;
      Combine(chunks, transcribe).value
      == Join(texts[..k]) + transcribe(chunks[k]).value + " " + Join(texts[k + 1..])
  {
    var chunks := Split(audio, DefaultMaxSizeMb);
    TranscriptsSucceed(chunks, transcribe);
    JoinAt(Transcripts(chunks, transcribe).value, k);
  }
}
