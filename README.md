# Subtitle generation core, modelled in Dafny

This project models the core of an audio/video subtitle generator. The
generator converts an uploaded file to 16 kHz mono WAV with `ffmpeg` and
sends it to a speech-recognition service. It then turns the timed
sentences of the response into an SRT subtitle document and removes the
temporary WAV file. The model covers everything after the external calls
return:

- the SRT time code `HH:MM:SS,mmm` of a millisecond offset (`format_time_srt`);
- reading the recognition response: status check, the `sentence` / `sentences`
  fallback, "no speech" and service errors;
- assembling the SRT blocks in a loop and joining them with newlines;
- the temporary path `splitext(path)[0] + "_temp_16k.wav"`, the choice of the
  file sent to the recogniser, and the cleanup decision.

Modules, one per concern of `audio_processor.py`:

- `Wrappers` holds `Option` and `Result`.
- `Decimal` holds Python's `str(n)` and the `{n:02}` / `{n:03}` zero padding of
  non-negative ints, with the decoding of digit strings.
- `TimeCode` holds `format_time_srt` as the function `Format`, its field
  arithmetic and a parser `Parse` for the layout.
- `TempFiles` holds POSIX `os.path.splitext`, the temporary path, the
  audio-source choice and the cleanup target.
- `Subtitles` holds the response datatypes, the specification `Assemble` /
  `Document` of the SRT text, its interpretation `Interpret`, and the
  assembly loop `BuildSrt`.
- `Pipeline` holds `generate_srt` as the method `GenerateSrt`.

External parts become inputs. The transcoder is a boolean: did `ffmpeg`
succeed. The recognition call is a function from the audio path to either a
response or the exception it raised. `os.path.exists` in the `finally`
clause is a boolean.

Behaviour of the code that a reader might not expect, and that the model keeps:

- Block indices are `i + 1` over **all** sentences (audio_processor.py:75,82). A
  skipped sentence leaves a gap in the indices; they are not renumbered
  (`SkippedSentenceLeavesGap`). Indices are therefore not contiguous after a
  skipped sentence.
- The only checks are begin present, end present and text non-empty
  (audio_processor.py:81). A sentence whose end is before its begin is kept
  (`ReversedRangeKept`). No ordering check between begin and end is made.
- Blocks are joined with `"\n"` (audio_processor.py:86). Each block ends in a
  newline, so consecutive blocks are separated by one blank line and the
  last block has no blank line after it (`JoinThenNewline`).
- An exception raised by the recognition call itself propagates unchanged
  (audio_processor.py:63,90-91). It is modelled as `CallFault` and is not
  turned into a service error.
- A 200 response whose sentence list is non-empty but holds only malformed
  sentences succeeds with the empty document `""`; it is not "no speech",
  because audio_processor.py:70 tests the list, not its entries
  (`Pipeline.Outcome` together with `Subtitles.DocumentEmptyIff`).
- Sentences are taken in the order the backend gives them; nothing is re-sorted.
- The temporary path is removed whenever a file exists there, whether or not
  this run's conversion succeeded (audio_processor.py:94). That file may be a
  stale one from an earlier run or partial `ffmpeg` output. The input is never
  removed. Temporary files are not namespaced per run.

## Model

| member | source | states |
|---|---|---|
| Decimal.Show | audio_processor.py:15 | `str(n)`: at least one digit, decodes back to `n`, a leading `0` only for `n == 0`, one digit below 10, at most two below 100, at most three below 1000 |
| Decimal.ZeroPad | audio_processor.py:15 | `{n:0w}`: all digits, decodes back to `n`, length is `w` or the length of `str(n)` if longer (never truncated) |
| Decimal.LeadingZerosAddNothing | audio_processor.py:15 | zero padding does not change a field's value |
| TimeCode.Split | audio_processor.py:10-14 | minutes and seconds are below 60, milliseconds below 1000 |
| TimeCode.SplitRecombines | audio_processor.py:10-14 | `hours*3600000 + minutes*60000 + secs*1000 + millis == ms` |
| TimeCode.Format | audio_processor.py:6-15 | the result has the layout `\d{2,}:\d{2}:\d{2},\d{3}` |
| TimeCode.FieldsOfLayout | audio_processor.py:15 | the four printed fields sit at fixed positions counted from the end of the code |
| TimeCode.FormatFields | audio_processor.py:10-15 | hours field has exactly `max(2, len(str(hours)))` digits and holds `ms / 3600000` with no wrap at 24; minutes and seconds fields have 2 digits below 60; millis field has 3 digits holding `ms % 1000` |
| TimeCode.Parse | audio_processor.py:15 | the parser accepts only text in the time-code layout |
| TimeCode.ParseFormat | audio_processor.py:6-15 | round trip: `Parse(Format(ms)) == Some(ms)` for every `ms >= 0` |
| TimeCode.FormatInjective | audio_processor.py:6-15 | distinct offsets give distinct time codes |
| TimeCode.FormatZero | audio_processor.py:6-15 | `format_time_srt(0) == "00:00:00,000"` |
| TimeCode.FormatOneHourOneMinuteOneAndAHalfSeconds | audio_processor.py:6-15 | `format_time_srt(3661500) == "01:01:01,500"` |
| TimeCode.FormatThirtyHours | audio_processor.py:6-15 | `format_time_srt(108000000) == "30:00:00,000"`: hours are not wrapped |
| TimeCode.FormatOneAndAHalfSeconds | audio_processor.py:6-15 | `format_time_srt(1500) == "00:00:01,500"` |
| TimeCode.FormatThreeSeconds | audio_processor.py:6-15 | `format_time_srt(3000) == "00:00:03,000"` |
| TempFiles.RFind | audio_processor.py:41 | the last index holding the character, or -1 when none does |
| TempFiles.SplitExt | audio_processor.py:41 | root and extension concatenate to the path; the extension is empty or starts with its only dot and has no `/` |
| TempFiles.SplitExtFindsExtension | audio_processor.py:41 | the extension is non-empty iff the last component has a dot with a non-dot character somewhere before it |
| TempFiles.TempPathReplacesExtension | audio_processor.py:41 | `TempPath` ends with `_temp_16k.wav` after a prefix of the input; that prefix is the whole input iff the input has no extension |
| TempFiles.TempPathDiffers | audio_processor.py:41 | the temporary path never equals the input path |
| TempFiles.TempPathOfMediaFile | audio_processor.py:41 | `uploads/talk.mp4` converts to `uploads/talk_temp_16k.wav` |
| TempFiles.TempPathOfDoubleExtension | audio_processor.py:41 | only the last extension is replaced: `clip.tar.gz` gives `clip.tar_temp_16k.wav` |
| TempFiles.TempPathOfDottedDirectory | audio_processor.py:41 | a dot in a directory name is not an extension |
| TempFiles.TempPathOfHiddenFile | audio_processor.py:41 | the leading dot of a hidden file is not an extension |
| TempFiles.AudioSource | audio_processor.py:50-56 | the recogniser gets the temporary file iff conversion succeeded, and the original file iff it failed |
| TempFiles.CleanupTarget | audio_processor.py:94 | whatever is removed is the temporary path and not the input path; it does not depend on whether the conversion succeeded |
| TempFiles.CleanupRemovesOnlyTemp | audio_processor.py:94 | a file is removed iff the temporary file exists; the input is never removed |
| Subtitles.FirstNonEmpty | audio_processor.py:66-68 | the result is empty iff every lookup is; otherwise it is the first non-empty lookup |
| Subtitles.SelectedSentences | audio_processor.py:66-68 | the list used is `output['sentence']` when non-empty, else `output['sentences']` (or `[]`) |
| Subtitles.Assemble | audio_processor.py:75-84 | at most one entry per sentence, each index in `1..N` |
| Subtitles.TimeLineReadsBack | audio_processor.py:83 | the time line is two time codes around ` --> `, which parse back to the begin and end offsets |
| Subtitles.Render | audio_processor.py:83-84 | every block ends in a newline |
| Subtitles.RenderAll | audio_processor.py:84 | one rendered block per entry |
| Subtitles.RenderAllAt | audio_processor.py:84 | block `i` is the rendering of entry `i` |
| Subtitles.BuildSrt | audio_processor.py:74-86 | the loop's output is the `Document` of the sentence list |
| Subtitles.Interpret | audio_processor.py:65-88 | service error carrying `code` and `message` iff the status is not 200; "no speech" iff the status is 200 and both keys are empty or missing; a document otherwise |
| Subtitles.InterpretSuccess | audio_processor.py:65-86 | on success the document is built from the primary list when non-empty, else from the alternate list |
| Subtitles.AssembleSound | audio_processor.py:75-84 | every entry's index `k` is in `1..N`, sentence `k` has an entry, and the entry carries that sentence's times and text |
| Subtitles.AssembleIncreasing | audio_processor.py:75-84 | entry indices strictly increase: input order is kept |
| Subtitles.AssembleComplete | audio_processor.py:75-84 | sentence `k` has begin, end and non-empty text iff some entry has index `k + 1` |
| Subtitles.AssembleHasIndex | audio_processor.py:75-84 | a sentence with begin, end and non-empty text yields an entry whose index is its 1-based position |
| Subtitles.AssembleAllValid | audio_processor.py:75-84 | with no sentence skipped there are N entries indexed exactly 1..N |
| Subtitles.AssembleNoneValid | audio_processor.py:75-84 | with every sentence skipped there are no entries |
| Subtitles.JoinThenNewline | audio_processor.py:86 | the join plus one newline is the newline-terminated concatenation: one separator between blocks and none after the last |
| Subtitles.Join | audio_processor.py:86 | `"\n".join`: the result starts with the first block and ends with the last |
| Subtitles.Document | audio_processor.py:74-86 | the document is `""` iff there are no entries |
| Subtitles.DocumentEmptyIff | audio_processor.py:74-86 | the document is `""` iff no sentence has an entry |
| Subtitles.DocumentNonEmpty | audio_processor.py:84-86 | at least one block gives a non-empty document |
| Subtitles.JoinTwo | audio_processor.py:86 | two blocks join as the first, a newline, and the second |
| Subtitles.DocumentOfTwoValid | audio_processor.py:74-86 | two sentences with entries give block 1, a newline, and block 2 |
| Subtitles.TwoSentenceDocument | audio_processor.py:74-86 | (0, 1500, "hello") and (1500, 3000, "world") give `"1\n00:00:00,000 --> 00:00:01,500\nhello\n\n2\n00:00:01,500 --> 00:00:03,000\nworld\n"` |
| Subtitles.SkippedSentenceLeavesGap | audio_processor.py:75-84 | a sentence after a skipped one keeps index 2 |
| Subtitles.ReversedRangeKept | audio_processor.py:81 | a sentence whose end precedes its begin still gets an entry |
| Subtitles.EmptyTextSkipped | audio_processor.py:81 | an empty text is treated as missing |
| Pipeline.GenerateSrt | audio_processor.py:17-98 | the file sent is the temporary file iff conversion succeeded; the outcome is the interpretation of that call's result; the cleanup target does not depend on the outcome |
| Pipeline.Outcome | audio_processor.py:63-91 | a call exception propagates; a non-200 status is a service error; status 200 with both lookups empty is "no speech"; success iff status 200 and a lookup is non-empty, with the document of that list |

## Left out

- The `ffmpeg` subprocess (audio_processor.py:50-51) is an external process. Only its success or failure is an input.
- Constructing `Recognition` and the network call `rec.call` (audio_processor.py:60-63) are external. The call is an input function returning a response or an exception.
- The process-wide assignment `dashscope.api_key = api_key` (audio_processor.py:32) is foreign global state and is not modelled.
- `print` logging, `os.path.exists` and `os.remove` (audio_processor.py:47,55,62,94-98) are I/O. Existence is an input. Removal is reported as the path to remove. A failed removal is swallowed in the source and has no effect in the model.
- The human-readable exception messages (audio_processor.py:71,88) are not modelled. The errors carry only what distinguishes them: "no speech", or the backend's code and message.
- TimeCode.Format: computes with integers, not the source's floats. The two agree for non-negative integer offsets below about 2^53/1000 ms. Larger offsets, where float rounding differs, are not modelled.
- Subtitles.Sentence: begin and end times are non-negative integers. The source does not define sensible output for negative or non-integer times.
- Subtitles.Output: the response output is always a dictionary of sentence lists. A missing output, or a non-list value under either key, is not modelled.
- TempFiles.SplitExt: follows the POSIX `splitext`. Windows paths with `\` separators and drive letters are not modelled.
- The re-raise wrapper `except Exception as e: raise e` (audio_processor.py:90-91) does not change behaviour and is not modelled separately.
- app.py, the Streamlit front end, is not part of this model. That covers its file upload, progress display, translation table, preview truncation and download button.
