# Whisper Streamlit transcriber: segmentation and transcript assembly

This project models the core of a browser app that transcribes uploaded audio
with Whisper (`app.py`). The rest of the app is UI and library calls. The core
has three parts:

- **Segmenter** (`segmenter.dfy`, `split_audio`). A decoded stream is
  abstracted to its byte size and its duration in seconds. If the size fits
  the byte budget (`max_size_mb * 1024 * 1024`, default 25), the stream is
  returned unsplit as a one-element list. Otherwise it is cut into
  `ceil(size / budget)` parts of equal nominal length. Each part is a
  millisecond interval `[start, end)` with its order index. The end of each
  part is clipped to the stream's end by a `min`. The model uses exact reals.
  The lemmas show that in exact arithmetic the `min` never changes a value:
  the parts meet end to start and the last one ends exactly at the stream's
  end. `SplitAudio` is the loop, proved equal to the function `Split`.
- **Orchestrator** (`orchestrator.dfy`, `process_audio`). Each chunk of the
  default split is transcribed in order. The text and one space are appended
  to a running string. For the language `"Chinese"` the whole string is then
  replaced by one refinement call over the full text. Any other language gets
  the string unchanged. Whisper and the chat-completion call are function
  parameters. A failing call is `None`: in the source an exception ends
  `process_audio`, so no partial transcript is ever returned.
- **Filenames** (`filenames.dfy`). The decoder's format is the text after the
  last `.`, lower-cased. The download name is the text before the first `.`
  plus `".txt"`. Both use Python's `str.split`, modelled as `SplitOn` and
  proved inverse to `JoinWith`.

`split_audio` has no special case for a stream of zero duration: over the
byte budget it is cut into `parts` empty intervals `[0, 0)`, and so is the
model. pydub derives the duration from the raw data, so in practice a large
stream does not have zero duration; the model's `AudioStream` treats size and
duration as independent values.

## Model

| member | source | states |
|---|---|---|
| Segmenter.CeilDiv | app.py:35 | `ceil(n / d)` on naturals: `q * d >= n`, and `q - 1` budgets are too few |
| Segmenter.PartsIsLeast | app.py:35 | the part count is the least `k` with `k * budget >= size`, and that many budgets hold the stream |
| Segmenter.PartsAtLeastTwo | app.py:32-35 | a stream over budget is cut into at least two parts |
| Segmenter.DefaultBudget | app.py:27-28 | the default budget is 25 MiB = 26214400 bytes |
| Segmenter.SplitAudio | app.py:27-45 | the loop returns exactly the specification function `Segmenter.Split`: the unsplit stream, or one slice per part in index order |
| Segmenter.SplitCount | app.py:32-35 | the result is `[stream]` if and only if the size is within budget; otherwise its length is the least number of budgets holding the size, at least 2 |
| Segmenter.SplitSlices | app.py:36-43 | over budget, element `k` is a slice with order index `k` that starts at `k * (duration / parts) * 1000` ms |
| Segmenter.NominalEndWithin | app.py:41 | with duration >= 0, the `min` keeps the nominal end `(i+1) * chunk_length * 1000`, and the last part ends at `duration * 1000` |
| Segmenter.SplitBounded | app.py:40-41 | every slice satisfies `0 <= start <= end <= duration * 1000` |
| Segmenter.SplitContiguous | app.py:40-41 | the end of slice `k` equals the start of slice `k+1`: no gap, no overlap |
| Segmenter.SplitCovers | app.py:39-41 | the first slice starts at 0 and the last ends exactly at `duration * 1000` |
| Segmenter.SplitAscending | app.py:39-43 | slices are emitted in ascending order of index and of start time |
| Segmenter.SplitShareWithinBudget | app.py:35-36 | `size / parts <= budget`: each part's uniform-bitrate share of the bytes fits the budget |
| Orchestrator.ProcessAudio | app.py:57-83 | the loop and language branch return exactly the specification function `Orchestrator.Process`: `None` on any failed call, otherwise the in-order fragments, refined once in full for `"Chinese"` |
| Orchestrator.JoinAppend | app.py:63-70 | appending fragments to the running transcript is concatenating their texts |
| Orchestrator.JoinAt | app.py:65-70 | fragment `k` sits after all earlier fragments and before all later ones |
| Orchestrator.JoinShape | app.py:70 | the transcript has exactly one extra character per fragment, and ends in a space when there is a fragment |
| Orchestrator.TranscriptsSnoc | app.py:65-70 | transcribing one more chunk appends exactly its text |
| Orchestrator.TranscriptsFailsAt | app.py:65-70 | one failed chunk call makes the transcription of the whole chunk list fail |
| Orchestrator.TranscriptsSucceed | app.py:65-70 | transcribing the chunks succeeds if and only if every chunk's call succeeds; then text `k` is chunk `k`'s (for `"Chinese"` the refinement call can still fail afterwards; see `Orchestrator.LanguageBranch`) |
| Orchestrator.LanguageBranch | app.py:73-83 | failed transcription gives no result; non-`"Chinese"` returns the concatenation unchanged; `"Chinese"` returns one refinement of the whole concatenation |
| Orchestrator.CombinedInOrder | app.py:62-70 | with every call succeeding, the transcript is the earlier fragments, then chunk `k`'s text and one space, then the later fragments; a cut chunk `k` has order index `k` |
| Filenames.SplitOn | app.py:49 | `str.split` gives at least one piece and no piece contains the separator |
| Filenames.JoinSplit | app.py:49 | joining the pieces of a split with the separator gives back the string |
| Filenames.SplitNoSep | app.py:102 | a name without `.` splits into itself alone |
| Filenames.SplitPrefix | app.py:102 | a `.`-free prefix followed by `.` is the first piece |
| Filenames.SplitJoin | app.py:49 | splitting a join of separator-free pieces gives back the pieces |
| Filenames.SplitPieceCount | app.py:49 | a split has one more piece than the string has separators |
| Filenames.Lower | app.py:49 | lower-casing keeps the length and leaves no upper-case ASCII letter |
| Filenames.LowerProperties | app.py:49 | only upper-case letters change, each by 32 code points; `.` is neither added nor removed; lower-casing is idempotent |
| Filenames.JoinEndsWithLast | app.py:49 | a join ends with its last piece, right after a separator when there are two or more pieces |
| Filenames.DownloadName | app.py:102 | the download name ends in `.txt`; its stem has no `.`, is a prefix of the upload name, and is the whole name or stops right before its first `.` |
| Filenames.SourceFormat | app.py:49 | the format has no `.` and is the lower-cased suffix of the name after its last `.`, or the whole name lower-cased when there is no `.` |

## Left out

- Streamlit UI, page setup, widgets, spinner, audio player and download button (app.py:11-16, 86-113): presentation only.
- The API-key text box and the process-wide `OPENAI_API_KEY` assignment (app.py:19-21): ambient I/O.
- pydub decoding and export, `BytesIO`, and cutting samples with `audio_data[start:end]` (app.py:42, 50-53, 59, 67): foreign library calls. A cut segment is only its interval descriptor.
- Whisper model loading and transcription, and the chat-completion call with the `gpt-4` model and its fixed system instruction (app.py:68-69, 74-81): external services. They are the parameters `recognise` and `refine`.
- Temporary files and writing then re-reading the transcript file (app.py:66, 104-108): file-system I/O.
- Floating-point rounding in `chunk_length`, the millisecond products and the float division inside `math.ceil`. The model uses exact reals and integer ceiling division. The `min` at app.py:41 is kept: it exists to absorb rounding, and in exact arithmetic it never changes a value.
- Segmenter.SplitAudio: requires `max_size_mb > 0`, a natural number. With 0 and a non-empty stream the source raises `ZeroDivisionError` at app.py:35. With a negative value the source raises `ZeroDivisionError` at app.py:36 when the size is below the budget's magnitude (`parts` is 0), and returns an empty list otherwise (`parts` is negative, so the loop runs zero times). Fractional budgets such as 0.5 are not modelled. The only caller passes the default 25.
- Filenames.Lower: lower-cases ASCII `A`-`Z` only. Python's `str.lower` also folds non-ASCII letters.
