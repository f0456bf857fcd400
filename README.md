# Voice-message transcription core, modelled in Dafny

The bot takes a Telegram voice message and turns it into text with OpenAI's
Whisper endpoint. The endpoint refuses uploads over a size limit, so
`transcribe_audio` (app/transcription.py) does the following:

- converts an `.ogg` upload to a WAV;
- for a WAV over 20 MiB, cuts it into segments each at or under 20 MiB. It
  exports a trial slice, and when the slice is too large it removes it and
  tries again with three quarters of the length;
- transcribes the segments in order, stops at the first reply that looks
  like an error, and otherwise joins the texts with single spaces;
- removes the segment files and the WAV.

Before the summary is sent back in Telegram's MarkdownV2 parse mode, the bot
escapes it with `escape_markdown_v2` (app/bot.py).

The project has three modules:

- `PyStr` (pystr.dfy) holds the Python `str` operations the pipeline uses,
  with CPython's semantics: `endswith`, `replace`, `in`, `" ".join`,
  `str(n)` and `s[:-k]`. `lower` is the exception: it folds only the ASCII
  capitals (see "Left out").
- `Bot` (bot.dfy) models `escape_markdown_v2` as a recursive function over
  strings. It carries lemmas for length, concatenation, position, the
  inverse and the no-op case.
- `Transcription` (transcription.dfy) models `transcribe_audio` imperatively.
  - `SplitAudio` is the `while` loop of lines 45-63.
  - `TranscribeSegments` is the `for` loop of lines 66-75.
  - `SplitAndTranscribe`, `ConvertUpload` and `TranscribeAudio` are the rest
    of the function.

  Each method is proved equal to a specification function. `SplitFrom` /
  `SplitFromStart` specify the loop from any state. `Oversize` specifies
  lines 36-75. `Pipeline` specifies the whole call. The lemmas prove what
  the code promises about those functions.

What the pipeline gets from foreign code is passed in as parameters:

- The disk is a `map<string, nat>` from path to size in bytes. It is an
  input and an output of every method.
  - `os.path.getsize` is a lookup.
  - `os.path.exists` is key membership.
  - An export writes an entry.
  - `os.remove` takes one away.
- `Media` stands for what pydub makes of the upload:
  - whether it decodes, and if not, the message of the exception;
  - the size of the WAV written for an `.ogg` upload;
  - the duration in milliseconds;
  - the size of the WAV exported for each slice `[start, end)`.
- `transcribe_segment` is reduced to what the endpoint answers for a path:
  a text, a rejected request's body, or an exception's message.
- Each method returns the paths it sent, in order, so the number and order
  of requests can be stated.

## Model

| member | source | states |
|---|---|---|
| PyStr.EndsWith | app/transcription.py:24 | `s.endswith(suffix)`; its properties are carried by ReplaceOggSuffix, ConvertedPath and Cleanup |
| PyStr.Contains | app/transcription.py:69 | `sub in s`: some position holds an occurrence; used by LooksLikeError, whose properties are carried by ErrorPrefixDetected and LooksLikeErrorAnyCase |
| PyStr.Replace | app/transcription.py:28 | `s.replace(pat, rep)`, every non-overlapping occurrence from the left; its properties are carried by ReplaceLength, ReplaceAbsent, ReplaceSuffix and ReplaceOggSuffix |
| PyStr.JoinSpace | app/transcription.py:75 | `" ".join(parts)`; its properties are carried by JoinSpaceAppend and JoinSpaceLength |
| PyStr.DropLast | app/transcription.py:48 | `file_path[:-4]` has four characters fewer, or is empty for a shorter path, and is a prefix of the path |
| PyStr.LowerChar | app/transcription.py:69 | each ASCII capital maps to its own lower-case letter (code point plus 32) and every other character is unchanged |
| PyStr.Lower | app/transcription.py:69 | lower-casing keeps the length and lower-cases each character in place |
| PyStr.LowerSlice | app/transcription.py:69 | lower-casing commutes with slicing |
| PyStr.LowerAppend | app/transcription.py:69 | lower-casing distributes over concatenation |
| PyStr.ReplaceLength | app/transcription.py:28 | replacing ".ogg" by ".wav" everywhere keeps the length of the path |
| PyStr.ReplaceAbsent | app/transcription.py:28 | `replace` changes nothing when the pattern does not occur |
| PyStr.ReplaceSuffix | app/transcription.py:28 | a text ending in a pattern that cannot overlap itself ends in the replacement after `replace` |
| PyStr.ReplaceOggSuffix | app/transcription.py:24-28 | a path ending in ".ogg" ends in ".wav" after `replace(".ogg", ".wav")` |
| PyStr.JoinSpaceAppend | app/transcription.py:75 | joining one more part appends one space and that part |
| PyStr.JoinSpaceLength | app/transcription.py:75 | the joined text has every part's characters plus one separator between neighbours |
| PyStr.NatToString | app/transcription.py:48 | `str(n)` is never empty |
| PyStr.ParseNatToString | app/transcription.py:48 | reading the decimal digits back gives the number |
| PyStr.NatToStringInjective | app/transcription.py:48 | different indexes have different decimal strings |
| Bot.IsSpecialIff | app/bot.py:23 | the code-point ranges hold exactly the nineteen characters of the character class |
| Bot.Escape | app/bot.py:21-24 | the output is the input plus one backslash per reserved character |
| Bot.EscapeAppend | app/bot.py:24 | escaping distributes over concatenation |
| Bot.CountSpecialAppend | app/bot.py:24 | the count of reserved characters is additive |
| Bot.EscapeAt | app/bot.py:24 | character i lands after the i characters and the backslashes before it; a reserved one has a backslash just in front |
| Bot.UnescapeEscape | app/bot.py:23-24 | dropping each backslash before a reserved character gives the input back |
| Bot.EscapeWellEscaped | app/bot.py:24 | every output has the escaped shape: a reserved character only ever follows an inserted backslash |
| Bot.EscapeUnescape | app/bot.py:24 | every text of the escaped shape is the escape of its unescaping, so escaping is a bijection onto that shape |
| Bot.EscapeKeepsPlain | app/bot.py:24 | the non-reserved characters come through unchanged and in order |
| Bot.PlainAppend | app/bot.py:24 | the non-reserved characters of a concatenation are those of the parts |
| Bot.EscapeIdentity | app/bot.py:24 | the text comes back unchanged exactly when it holds no reserved character |
| Bot.EscapeBackslashAndPeriod | app/bot.py:23 | a backslash becomes two backslashes, a period becomes `\.`, and "a.b" becomes `a\.b` |
| Transcription.LooksLikeError | app/transcription.py:69 | `"error" in s.lower()`; its properties are carried by ErrorPrefixDetected, LooksLikeErrorAnyCase, SegmentText, FirstFailure and OversizeFailureIsError |
| Transcription.LooksLikeErrorAnyCase | app/transcription.py:69 | the test is case-insensitive: "error" spelt in any mix of cases anywhere in the text makes it fail |
| Transcription.ErrorPrefixDetected | app/transcription.py:59 | every message starting with "Transcription error: " contains "error" once lower-cased |
| Transcription.SegmentText | app/transcription.py:91-118 | a 200 reply yields its text; any other reply or an exception yields the error prefix followed by exactly the body or message, which the check at line 69 recognises |
| Transcription.ConvertedPath | app/transcription.py:24-30 | an ".ogg" upload turns into a different path of the same length ending in ".wav"; any other upload is used as is |
| Transcription.SegmentPath | app/transcription.py:48 | a segment's name is longer than the WAV's |
| Transcription.SegmentPathInjective | app/transcription.py:48 | two indexes give the same segment name only when they are equal |
| Transcription.Shrink | app/transcription.py:56 | `int(ms * 0.75)` never grows and strictly shrinks a positive length |
| Transcription.CandidatesAreShrinks | app/transcription.py:15 | the lengths tried are 120000 and its successive shrinks down to 12012; all are between 12012 and 120000, and the shrink of 12012 is below 10000 |
| Transcription.CandidateBounds | app/transcription.py:56-57 | every length tried is between the 10000 ms floor and 120000 |
| Transcription.ShrinkCandidate | app/transcription.py:56-57 | a shrunk length is the next candidate, or falls below 10000, and it falls below only from 12012 |
| Transcription.SplitFrom | app/transcription.py:45-63 | the loop from any state (offset, length, kept segments), terminating on (total - start, length); its properties are carried by the step lemmas and SplitExtends, SplitNamed, SplitUnderCeiling, SplitContiguous, SplitDurations and SplitRejectedLength |
| Transcription.SplitFromStart | app/transcription.py:40-63 | the loop from offset 0, length 120000 and no segments; its properties are carried by SegmentSizes, SegmentLengths, SplitCoversAudio, SegmentNamesDistinct and UnsplittableLeavesSegments |
| Transcription.SplitShrinkStep | app/transcription.py:53-60 | an oversize trial that can still shrink retries the same offset with the shorter length |
| Transcription.SplitGiveUpStep | app/transcription.py:53-59 | an oversize trial that cannot shrink any more ends the loop with that trial rejected |
| Transcription.SplitAcceptStep | app/transcription.py:62-63 | a trial at or under the ceiling is kept, and the offset moves on by the length, not by the clamped length |
| Transcription.SplitExtends | app/transcription.py:45-63 | segments once kept are never dropped or changed |
| Transcription.NamedStep | app/transcription.py:48 | keeping a trial named after the count of kept segments keeps segment i named as number i |
| Transcription.SplitNamed | app/transcription.py:48 | segment i is exported as number i, and a rejected trial under the name of the next segment |
| Transcription.SplitUnderCeiling | app/transcription.py:49-62 | every kept segment is its slice's export and at or under 20 MiB; the rejected trial is over it |
| Transcription.SegmentSizes | app/transcription.py:45-63 | the same, for the segmentation `transcribe_audio` performs |
| Transcription.ContiguousStep | app/transcription.py:46 | keeping a trial cut at the offset extends the back-to-back run of segments |
| Transcription.SplitContiguous | app/transcription.py:42-63 | the segments are non-empty and back to back from 0; a finished split ends at the total; a rejected trial starts where the segments end |
| Transcription.DurationsShrinkStep | app/transcription.py:56 | shrinking keeps the loop's length state |
| Transcription.DurationsAcceptStep | app/transcription.py:62-63 | keeping a trial keeps the loop's length state |
| Transcription.SplitDurations | app/transcription.py:45-63 | no segment is longer than 120000 ms, all but the last are a candidate long, and lengths never increase |
| Transcription.SplitRejectedLength | app/transcription.py:53-59 | the loop gives up only on a 12012 ms trial, or on the rest of the audio when that is shorter |
| Transcription.SegmentLengths | app/transcription.py:40-63 | both facts above, for the segmentation `transcribe_audio` performs |
| Transcription.ContiguousOrdered | app/transcription.py:63 | back-to-back segments do not overlap |
| Transcription.ContiguousCoverOnce | app/transcription.py:45-63 | back-to-back segments cover every millisecond up to their end exactly once |
| Transcription.SplitCoversAudio | app/transcription.py:42-63 | a finished segmentation covers every millisecond of [0, total) exactly once |
| Transcription.PathSetAppend | app/transcription.py:62 | the names of the segments grow by the name of the one appended |
| Transcription.WrittenOther | app/transcription.py:49 | exporting the segments leaves every other path as it was |
| Transcription.WrittenHas | app/transcription.py:49 | every exported segment exists afterwards |
| Transcription.WrittenThenRemoved | app/transcription.py:49-73 | exporting the segments and then removing them all leaves the disk as it was, less those names |
| Transcription.UnsplittableLeavesSegments | app/transcription.py:55-59 | on "Unable to split" the kept segments' files stay on disk and the rejected trial's file is gone |
| Transcription.SplitAudio | app/transcription.py:40-63 | the loop computes the segmentation `SplitFromStart` and leaves the disk `SplitFiles` says; it terminates on (total - start, length) |
| Transcription.Paths | app/transcription.py:66 | one path per segment |
| Transcription.Texts | app/transcription.py:68 | one text per segment |
| Transcription.FirstFailure | app/transcription.py:69-71 | every text before the index passes the check at line 69, and the one at the index fails it |
| Transcription.FirstFailureStep | app/transcription.py:69 | a text no later than the first failure is that failure exactly when it looks like an error |
| Transcription.RemoveNext | app/transcription.py:73 | each segment's file still exists when `os.remove` comes to it |
| Transcription.TranscribeSegments | app/transcription.py:66-75 | segments are sent in order up to and including the first failure; that text is returned as is; otherwise the texts are joined; exactly the files of the segments that passed are removed |
| Transcription.Converted | app/transcription.py:24-29 | the disk after an `.ogg` upload is exported as a WAV at ConvertedPath; its properties are carried by ConvertUpload and PipelineKeepsUpload |
| Transcription.Cleanup | app/transcription.py:80-82 | a path ending in ".wav" no longer exists afterwards, and nothing else changes |
| Transcription.SegmentNamesLonger | app/transcription.py:48 | every file a segmentation writes has a longer name than the WAV |
| Transcription.SplitKeepsShortName | app/transcription.py:45-63 | a file with a name no longer than the WAV's keeps its state through the segmentation |
| Transcription.PrefixNamesLonger | app/transcription.py:66-73 | the removed segment names are all longer than the WAV's |
| Transcription.SegmentNamesDistinct | app/transcription.py:48 | the kept segments have pairwise different names |
| Transcription.Oversize | app/transcription.py:36-75 | where the oversize branch leaves the run; its properties are carried by SplitAndTranscribe, OversizeFailureIsError, OversizeKeepsShortName, OversizeFinishedIsClean, OversizeCalls and OversizeFailureLeaks |
| Transcription.Pipeline | app/transcription.py:17-89 | the result, disk and requests of one call; its properties are carried by TranscribeAudio and the Pipeline lemmas below |
| Transcription.OversizeFailureIsError | app/transcription.py:36-75 | whenever the oversize branch returns early, the value fails the check the callers apply |
| Transcription.OversizeKeepsShortName | app/transcription.py:36-75 | the oversize branch never touches a file with a name no longer than the WAV's |
| Transcription.OversizeFinishedIsClean | app/transcription.py:66-75 | when the oversize branch runs to the end, no file is left that was not there before |
| Transcription.OversizeCalls | app/transcription.py:66-68 | the requests sent are a prefix of the segment files in order, and the WAV itself is never sent |
| Transcription.PipelineSingleRequest | app/transcription.py:36-77 | a file at or under 20 MiB gets exactly one request, for the whole file, with its text returned; a larger one never gets that single whole-file request |
| Transcription.PipelineUnsplittable | app/transcription.py:53-59 | when no segment fits, the run returns "Transcription error: Unable to split audio under 20MB" with no request sent, leaving the WAV and the kept segments on disk |
| Transcription.PipelineJoinsSegments | app/transcription.py:66-82 | when every segment passes, the run returns the texts joined by single spaces in order, sends each segment once in order, and removes the segments and then the WAV |
| Transcription.PipelineKeepsUpload | app/transcription.py:17-89 | an upload whose name does not end in ".wav" is never removed or overwritten |
| Transcription.PipelineSuccessIsClean | app/transcription.py:73-82 | any result that passes the check leaves no file that was not there before |
| Transcription.PipelineEarlyErrors | app/transcription.py:20-89 | a missing upload or an undecodable `.ogg` gives "Transcription error: " followed by exactly the exception's message, with no request and no file changed |
| Transcription.OversizeFailureLeaks | app/transcription.py:69-71 | when a segment fails, its text is returned, no later segment is sent, and the later segments' files and the WAV stay on disk |
| Transcription.LaterNamesNotEarlier | app/transcription.py:48 | no segment from index k on shares a name with one before k |
| Transcription.SplitAndTranscribe | app/transcription.py:36-75 | the oversize branch computes what `Oversize` says: the stage reached, the returned text, the disk and the requests |
| Transcription.ConvertUpload | app/transcription.py:24-32 | an `.ogg` upload is exported as a WAV at `ConvertedPath`, or reported undecodable with the disk unchanged; any other upload is untouched |
| Transcription.TranscribeAudio | app/transcription.py:17-89 | the whole call returns the result, disk and requests `Pipeline` describes |

## Behaviour worth noting

The model follows the code in each of these places:

- Files are left behind in two cases. `PipelineUnsplittable` and
  `OversizeFailureLeaks` state exactly what is left:
  - on "Unable to split" (line 59), the kept segments and the WAV stay;
  - when a segment's transcription fails, the `return` at line 71 skips the
    removals, so that segment, the later ones and the WAV stay.
- The duration is `len(audio)` from pydub (line 39). There is no default
  duration: a decode failure at line 38 ends the run with an error message.
- An upload that is itself a `.wav` is removed by the clean-up at lines
  80-82. `PipelineKeepsUpload` is stated for every other upload.
- An oversize WAV whose duration is 0 ms yields no segments, and the run
  returns the empty string.

## Left out

- Decoding, resampling to 16 kHz mono and WAV export in pydub (lines 26-29,
  38, 47-49): these are foreign library code. `Media` supplies their
  outcomes: a decode failure, the WAV size, the duration and the size of
  each slice's export.
- The HTTP request in `transcribe_segment` (lines 91-118): network I/O. Only
  its result shape is kept (`Reply` and `SegmentText`). The endpoint's answer
  is modelled as a function of the path alone.
- Errors raised by an export, by `os.path.getsize` on a segment or by
  `os.remove`: these are disk failures outside the model. The only
  exceptions modelled are the missing upload at line 20 and the decode
  failures at lines 26 and 38.
- Files converted from `.ogg`: the model assumes the second decode at line
  38 succeeds. `decodeError` describes the upload, and an `.ogg` upload that
  decoded once is not made to fail again.
- The exact text of exception messages: the missing-file message is given
  CPython's form for `FileNotFoundError`. `repr` quoting of unusual
  characters in the path is not modelled.
- `PyStr.Lower`: it folds only the ASCII capitals. Python's `str.lower` also
  folds other capitals, and can change the length (U+0130 becomes two code
  points). The test at line 69 is applied to every transcribed text, so the
  model's verdict on such text rests on an argument that is not proved here.
  In Unicode's case mappings, no character other than the ASCII letters
  'E', 'R', 'O', 'e', 'r' and 'o' lower-cases to a text that contains 'e',
  'r' or 'o'. So "error" occurs in Python's lower-casing of a text exactly
  when it occurs in this model's lower-casing.
- Floating point: `int(ms * 0.75)` is exactly `ms * 3 / 4`, because 0.75 is
  a dyadic fraction and the values are far below 2^53.
- Paths are plain strings on a flat disk. Directories, permissions and
  concurrent writers are not modelled.
- Logging throughout, and `TARGET_SAMPLE_RATE`, which only reaches pydub.
- The rest of app/bot.py: the Telegram handlers, and the `asyncio.Lock`
  around the call to `transcribe_audio`. They are framework code and
  concurrency. The rest of the repository is not part of this model:
  `summarize_text`, the database layer, the FastAPI endpoint and the
  settings.
