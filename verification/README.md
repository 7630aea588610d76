# Caption pipeline of reels-generator, in Dafny

reels-generator turns a Greek story into a narrated short video with burnt-in
captions. A language model writes the story; a text-to-speech service reads it
aloud; ffmpeg puts the narration, a looped background clip and a SubRip (`.srt`)
caption file together. This project models the pure core of that pipeline, which
is everything between those outside services:

- **Story clean-up** (`StoryCleanup`): numbering, timing notes, quotes and
  whitespace runs are removed from the model's reply. The sentences are then
  counted, and the story is either kept with a closing full stop or sent back
  for regeneration.
- **Caption units** (`Segmentation`): narration is split at `.` `!` `;` `·`.
  Each piece is trimmed and empty ones are dropped. A sentence longer than 80
  characters is cut again at commas and at Greek conjunctions.
- **Three timing schemes**:
  - `Captions`: even slots with a 0.5 s gap.
  - `StorySrt`: narration-time estimates scaled to a target duration and laid
    end to end.
  - `Resync`: equal contiguous slices of the measured narration length.
- **SubRip time and layout** (`SrtTime`, `SrtDocument`): seconds become
  hours, minutes, seconds and milliseconds, written `HH:MM:SS,mmm`. A record
  is four lines. The reader opens a document in text mode, so `\r\n` and a
  lone `\r` end a line just as `\n` does, and keeps its text lines.
- **File numbering** (`Numbering`): the least free number, or one more than
  the largest number parsed out of a directory's names.
- **ffmpeg-facing decisions** (`Video`):
  - escaping the caption path inside the `subtitles` filter;
  - the filter text;
  - the choice of font;
  - the loop count;
  - whether the background is looped at all.

Supporting modules:

- `Text`: whitespace, strip, join, decimal numerals, Python's `int()`.
- `Patterns`: the handful of regular expressions used, as a closed datatype
  with leftmost, non-overlapping `re.sub` / `re.split` / `str.split` semantics.
- `Segments`: the (index, start, end, text) record and its timing predicates.
- `Wrappers`: `Option` and `Result`.

Modelling choices:

- Seconds are exact reals.
- Python's `//` and `%` on floats are floored, so they are written with `.Floor`.
- Python's `int()` on a float truncates toward zero (`Video.Truncate`).
- Whitespace is the six ASCII whitespace characters, and digits are `0`–`9`.
- The file system is a set of existing numbers or names, or a directory's list
  of names.
- Durations that ffprobe reports are parameters.

## Model

| member | source | states |
|---|---|---|
| Segmentation.PrimarySentences | caption_generator.py:62-65 | every piece kept by the first split is non-empty, has no whitespace at either end and contains none of `.` `!` `;` `·` |
| Segmentation.RefineGood | caption_generator.py:69-77 | a trimmed sentence is refined into units that are non-empty, trimmed, free of sentence ends, and that contain no comma and no clause break whenever they are longer than 80 characters |
| Segmentation.SplitIntoSentences | caption_generator.py:58-79 | every returned unit is non-empty and trimmed, has no `.` `!` `;` `·`, and a unit longer than 80 characters has no comma and no clause break left in it |
| Segmentation.SplitIntoSentencesAppend | caption_generator.py:62-77 | splitting text with a sentence end between two parts gives the units of the first part followed by the units of the second, so sentences are refined in place and in order |
| Segmentation.SingleSentence | caption_generator.py:65-77 | a text without sentence ends gives nothing if blank, its stripped self if at most 80 characters, and otherwise the stripped non-empty comma/conjunction pieces in order |
| Segmentation.NoBoundaryIsOneUnit | caption_generator.py:69-77 | a trimmed sentence with no comma or conjunction boundary passes through as one unit, whatever its length |
| Segmentation.ShortSentencesRoundTrip | caption_generator.py:58-79 | short sentences joined with `. ` and closed by `.` split back into exactly those sentences |
| Segmentation.UnbrokenHasNoComma | caption_generator.py:72 | a text the clause-break pattern does not match anywhere has no comma |
| Captions.PlacedGap | caption_generator.py:24-35 | the next caption starts exactly 0.5 s after the previous one ends |
| Captions.PlacedTiming | caption_generator.py:21-44 | captions are numbered 1..N, caption i starts at i·slot and lasts slot − 0.5, consecutive captions are 0.5 s apart, and a caption has positive length exactly when the slot exceeds 0.5 s |
| Captions.PlacedLastEnd | caption_generator.py:31-35 | the last of N captions ends at N·slot − 0.5 |
| Captions.EvenLayoutShape | caption_generator.py:31-44 | every non-empty unit gets exactly one caption, placed at its own position in input order |
| Captions.EvenSegmentsPlaced | caption_generator.py:18-44 | with the duration split evenly over the units, caption i is unit i, stripped, placed in slot i |
| Captions.EvenSegmentAt | caption_generator.py:31-43 | caption i is numbered i + 1, starts at i·D/N, ends 0.5 s before the next slot and carries unit i |
| Captions.EvenSegmentsEnd | caption_generator.py:21-35 | the last caption ends 0.5 s before the duration |
| Captions.ToItems | caption_generator.py:38-44 | each item keeps its caption's number and text, and its start and end times are within a millisecond below the exact times |
| Captions.ItemsTiming | caption_generator.py:34-43 | the items of evenly placed captions carry numbers 1..N and times within a millisecond of i·slot and i·slot + slot − 0.5 |
| Captions.CreateCaptions | caption_generator.py:11-44 | one item per unit of the text, in order, with the unit's text and the even timing |
| Captions.ManualCaptions | caption_generator.py:90-109 | one item per tuple, numbered from 1 in input order, with stripped text and times within a millisecond of the given ones |
| Captions.ThreeUnits | caption_generator.py:58-79 | `Μια. Δύο. Τρία.` gives the three units `Μια`, `Δύο`, `Τρία` |
| Captions.ThreeSentencesOverNineSeconds | caption_generator.py:11-44 | those three units over 9 s become [0, 2.5], [3, 5.5] and [6, 8.5] |
| SrtTime.SecondsToSrtTime | caption_generator.py:81-88 | minutes and seconds are below 60, milliseconds below 1000, hours are non-negative for non-negative input, and the time is at most the input and less than a millisecond below it |
| SrtTime.SecondsToSrtTimeExact | create_stories_with_srt.py:50-58 | the floored divisions and remainders of the writer give fields in range that add up to within a millisecond below the input |
| SrtTime.PadWidth | create_stories_with_srt.py:61 | `:02d` and `:03d` of a number in range are exactly 2 or 3 digits that read back as the number |
| SrtTime.FormatReadBack | create_stories_with_srt.py:61 | a clock written `HH:MM:SS,mmm` is 12 characters that read back as the same hours, minutes, seconds and milliseconds |
| SrtTime.InRangeWritable | create_stories_with_srt.py:50-61 | a time from 0 up to 100 hours has every field in its padded width |
| SrtTime.RangeOfClocks | create_final_videos.py:109 | two clocks joined by ` --> ` form a line the timing-line pattern matches, and each clock reads back from its place |
| SrtTime.TimestampLineRecognised | create_stories_with_srt.py:61 | a written timing line is 29 characters, the reader recognises it, and it reads back as the two converted times |
| Text.Strip | caption_generator.py:65 | the result has no whitespace at either end, is an infix of the input with only whitespace before and after it, is empty exactly when the input is blank, and leaves a trimmed text unchanged |
| Text.NonBlankAppend | caption_generator.py:65 | keeping the stripped non-blank pieces of two lists, one after the other, is doing it for their concatenation |
| Text.ParseDecimal | generate_captions.py:17 | `int()` of a decimal numeral gives its value |
| Text.ZeroPad | create_stories_with_srt.py:61 | zero padding gives only digits, at least the width, exactly the width when the number fits, and reads back as the number |
| Patterns.SubChars | story_generator.py:61-64 | every character left by a substitution comes from the input or from the replacement |
| Patterns.SplitCharsFrom | caption_generator.py:62 | every piece of a split consists of characters of the input |
| Patterns.SplitPiecesUnbroken | caption_generator.py:72 | no piece of a split contains a match of the pattern it was split on |
| Patterns.SplitUnbroken | caption_generator.py:72 | a text without a match splits into itself alone |
| Patterns.UnbrokenAnyOf | caption_generator.py:62 | a one-character class has no match in a text exactly when the text avoids the class |
| Patterns.SplitAtSeparator | caption_generator.py:62 | splitting at a separator character gives the pieces of the text before it followed by the pieces after it |
| Patterns.JoinSplit | create_final_videos.py:104 | joining the pieces of a split with the separator gives the text back |
| Patterns.SplitJoin | create_final_videos.py:104 | splitting lines joined with a separator they do not contain gives the lines back |
| Patterns.SubUnbroken | story_generator.py:61-64 | a substitution leaves a text without a match unchanged |
| Patterns.SubAvoids | story_generator.py:63 | removing a character class leaves no character of the class |
| Patterns.SubKeepsAvoids | story_generator.py:64 | a substitution whose replacement avoids some characters does not bring any of them in |
| Patterns.SubEachChar | create_final_videos.py:138 | replacing every character of a class by one character keeps the length, puts the replacement at each position holding a class character and leaves every other position as it was |
| SrtDocument.Lines | create_stories_with_srt.py:60-63 | every record is written as exactly four lines |
| SrtDocument.LinesAt | create_stories_with_srt.py:60-63 | record i is written as line 4i, its number; line 4i + 1, its timing line; line 4i + 2, its text; and line 4i + 3, empty |
| SrtDocument.KeepTextFrom | create_final_videos.py:103-111 | every kept line is a stripped line of the input that is non-empty, not all digits and not a timing line |
| SrtDocument.KeepTextAll | create_final_videos.py:103-111 | every stripped input line that is non-empty, not all digits and not a timing line is kept |
| SrtDocument.KeepTextAppend | create_final_videos.py:105-111 | lines are filtered one by one, so the kept lines of two blocks are kept in order |
| SrtDocument.ReadText | create_final_videos.py:98-99 | what a text-mode read returns holds no `\r`; text without `\r` is returned unchanged, and blank text stays blank |
| SrtDocument.ReadTextAppend | create_final_videos.py:98-99 | a part without `\r` in front of the rest is read as itself, so the translation only touches what follows |
| SrtDocument.ReadLineEnd | create_final_videos.py:98-99 | a `\r\n`, and a `\r` not followed by `\n`, are each read as one `\n` in front of the read rest |
| SrtDocument.ExtractTextLines | create_final_videos.py:98-111 | every extracted line is a trimmed text line with neither `\n` nor `\r` in it |
| SrtDocument.NarrationText | create_final_videos.py:40-50 | the narration is the text lines joined by single spaces and has no line break |
| SrtDocument.TimingLineShape | create_final_videos.py:107-109 | a timing line is non-empty, trimmed, not all digits and has no line break |
| SrtDocument.DecimalLineShape | create_final_videos.py:108 | a record number line is trimmed and all digits, so the reader drops it |
| SrtDocument.KeepRecord | create_final_videos.py:105-111 | of a record's four lines the reader keeps exactly the text |
| SrtDocument.KeepLines | create_final_videos.py:103-111 | of a list of records' lines the reader keeps exactly the texts, in order |
| SrtDocument.BodyLines | create_final_videos.py:98-104 | splitting a written document at line breaks gives its lines back |
| SrtDocument.ReadBack | create_final_videos.py:98-111 | reading a written document, with any trailing whitespace, gives back the texts of its records in order |
| SrtDocument.SegmentsReadBack | create_stories_with_srt.py:60-67 | reading back records written from segments with trimmed, non-numeric texts that hold neither `\n` nor `\r` gives the texts |
| StorySrt.Estimate | create_stories_with_srt.py:10-25 | the estimate is never negative and is positive exactly for a non-empty text |
| StorySrt.EstimateAppend | create_stories_with_srt.py:14-25 | the estimate of two texts together is the sum of their estimates |
| StorySrt.StorySentences | create_stories_with_srt.py:30 | every sentence is non-empty, trimmed and has no full stop |
| StorySrt.Total | create_stories_with_srt.py:36 | the total estimate of non-empty sentences is non-negative, and positive when there is one |
| StorySrt.ScaleFills | create_stories_with_srt.py:39 | the scale factor times the total estimate is the target |
| StorySrt.SumScaled | create_stories_with_srt.py:36-45 | scaling every estimate by one factor scales their sum by it |
| StorySrt.TimelineShape | create_stories_with_srt.py:41-65 | sentences laid end to end are numbered in order, last exactly their durations, are contiguous, and run from the start to the start plus the sum of the durations |
| StorySrt.TimelineScaled | create_stories_with_srt.py:39-47 | each duration is its estimate times the common factor, and the last end is the factor times the total |
| StorySrt.StorySegmentsShape | create_stories_with_srt.py:36-65 | the segments carry the sentences in order, are numbered from 1, start at 0, are contiguous and end exactly at the target |
| StorySrt.StoryDurations | create_stories_with_srt.py:39-45 | every sentence lasts its estimate times the target over the total |
| StorySrt.StorySegmentsInRange | create_stories_with_srt.py:42-58 | for a target below 100 hours every start and end lies between 0 and the target |
| StorySrt.CreateSrtFromStory | create_stories_with_srt.py:27-33 | there is no document exactly when the story has no non-blank sentence |
| StorySrt.CreateSrtReadBack | create_stories_with_srt.py:27-67 | reading the written document back gives the story's sentences |
| StorySrt.SentencesReadBack | create_stories_with_srt.py:44-67 | reading back the document written from any readable sentences gives those sentences |
| Segments.ContiguousBounds | create_stories_with_srt.py:42-47 | in a contiguous list of segments every segment lies between the first start and the last end |
| Segments.SlotsFill | create_final_videos.py:114-119 | N slices of width A/N add up to A |
| Resync.Slices | create_final_videos.py:117-119 | line i gets the slice from i·w to (i + 1)·w, numbered i + 1 |
| Resync.SlicesTiming | create_final_videos.py:117-119 | slice i starts at i·w and is w long |
| Resync.Resync | create_final_videos.py:113-119 | it fails exactly when there is no text line; otherwise it keeps the lines in order, numbers them from 1, starts at 0, is contiguous and ends at the duration |
| Resync.ResyncTiming | create_final_videos.py:114-119 | every slice is exactly A/N long and slice i starts at i·A/N |
| Resync.ResyncInRange | create_final_videos.py:114-130 | for a duration below 100 hours every slice boundary can be written as a clock |
| Resync.WrittenLines | create_final_videos.py:132-134 | the three writes per record give the record's four lines, each ended by a line break |
| Resync.WrittenReadBack | create_final_videos.py:103-134 | reading back the file written from segments with readable texts gives the texts |
| Resync.SyncedSrt | create_final_videos.py:95-134 | the re-timed file cannot be written exactly when the original has no text line |
| Resync.SyncedSrtReadBack | create_final_videos.py:98-134 | the re-timed file has the same text lines as the original |
| Resync.SyncedSrtIdempotent | create_final_videos.py:98-134 | re-timing a re-timed file to the same duration gives the same file |
| Resync.SyncedNarration | create_final_videos.py:40-50 | the narration read from the re-timed file is the narration of the original |
| Resync.FourLinesOverFortySeconds | create_final_videos.py:114-119 | four lines over 40 s get [0, 10], [10, 20], [20, 30], [30, 40] |
| Resync.Slashes | create_final_videos.py:138 | each backslash becomes a slash and every other character stays where it was, so the length is kept and no backslash is left |
| Resync.SubtitlePathAsWritten | create_final_videos.py:137-145 | after a successful re-timing the synced path is used; after a failed probe no path exists; when the file has no text line the synced path is still used |
| Resync.EmptyFileUsesUnwrittenFile | create_final_videos.py:114-145 | for a caption file with no text line the re-timing fails, yet the as-written choice still names the synced file |
| Resync.SubtitlePath | create_final_videos.py:138-142 | the path has no backslash, is the original file's after a failure, and agrees with the as-written choice after success |
| Numbering.LeastFree | create_final_videos.py:6-11 | the probing loop returns the least number from 1 on that is not taken |
| Numbering.NextFinalFileNumber | create_final_videos.py:6-11 | `get_next_number` returns the least positive number whose `final_<i>.mp4` is absent |
| Numbering.NextStoryNumber | create_stories_with_srt.py:69-74 | the least positive number for which neither the story nor the caption file exists |
| Numbering.Max | create_final_videos.py:219 | the largest number is in the list and no number exceeds it |
| Numbering.NextAfter | generate_captions.py:21 | above every number, 1 for no numbers, and otherwise one more than a number present |
| Numbering.NextAfterUnique | generate_captions.py:21 | those three properties determine the result |
| Numbering.Middle | generate_captions.py:17 | the slice between prefix and suffix, empty for an empty suffix because `-0` is `0` |
| Numbering.EntryNumber | generate_captions.py:15-20 | only names with the prefix and the suffix, or `final_` and `.mp4`, can yield a number |
| Numbering.NextNumber | generate_captions.py:11-21 | the next number exceeds the number of every qualifying name, is 1 when none parses, and whenever some name parses is one more than a parsed number, hence one more than the largest |
| Numbering.EmptySuffixGivesOne | generate_captions.py:17 | with an empty suffix no name parses and the next number is 1 |
| Numbering.AffixedReadBack | generate_captions.py:15-18 | a name written `<prefix><n><suffix>` parses back to n |
| Numbering.FinalEntry | create_final_videos.py:213-216 | the number of `final_<d>_<rest>.mp4` is `int(d)` |
| Numbering.FinalVideoReadBack | create_final_videos.py:211-221 | an output name `final_<n>_story_<m>.mp4` parses back to n |
| StoryCleanup.CollapseSpaces | story_generator.py:64 | collapsing whitespace leaves no two whitespace characters in a row and only spaces, and keeps a text empty exactly when it was |
| StoryCleanup.CleanShape | story_generator.py:58-65 | the cleaned story is trimmed, single-spaced, has no quote and is no longer than the reply |
| StoryCleanup.EnsurePeriod | story_generator.py:78-79 | the result ends with `.`, is the story itself when it already did, and is otherwise the story plus one `.` |
| StoryCleanup.EnsurePeriodIdempotent | story_generator.py:78-79 | adding the full stop twice is adding it once |
| StoryCleanup.PeriodKeepsSentences | story_generator.py:68-79 | the closing full stop does not change the sentence count |
| StoryCleanup.Judge | story_generator.py:68-79 | regeneration exactly when fewer than 12 sentences, a warning exactly when more, and the kept story ends with the full stop |
| StoryCleanup.PeriodKeepsShape | story_generator.py:77-79 | the full stop keeps a cleaned text trimmed, single-spaced and quote-free |
| StoryCleanup.JudgedStory | story_generator.py:68-79 | a kept story ends with `.`, keeps the cleaned shape and has at least 12 sentences |
| StoryCleanup.AcceptedStory | story_generator.py:58-81 | a kept story ends with `.`, has no quote, no outer whitespace, no whitespace run, is at most one character longer than the reply and has at least 12 sentences |
| Video.EscapeChar | video_processor.py:233 | a backslash or colon becomes two characters, a backslash and itself; anything else stays |
| Video.EscapeIsEscaped | video_processor.py:233 | the two chained replacements escape character by character |
| Video.EscapedLength | video_processor.py:233 | the escaped length is the length plus the number of backslashes and colons |
| Video.UnescapeEscaped | video_processor.py:233 | decoding each `\x` pair as `x` recovers the path |
| Video.EscapeRoundTrip | video_processor.py:233 | the escape's length grows by the backslashes and colons, and decoding it gives the path back |
| Video.EscapeInjective | video_processor.py:233 | distinct paths have distinct escapes |
| Video.SubtitleFilter | video_processor.py:229-241 | the filter is `subtitles='` + escaped path + `'`, and it ends with the fixed style exactly when a font is usable |
| Video.FilterCaption | video_processor.py:233-235 | the caption path can be decoded back out of the filter |
| Video.FilterIgnoresFontPath | video_processor.py:237-239 | which usable font is given does not change the filter |
| Video.SubtitleFilterAsWritten | video_processor.py:235-241 | as written the filter fails exactly when a font is usable, and otherwise is the plain filter |
| Video.FirstIn | video_processor.py:260-266 | the result exists and every candidate before it does not, and it is none exactly when no candidate exists |
| Video.FirstExisting | video_processor.py:260-266 | the search loop returns what `FirstIn` defines: the first candidate that exists, or none exactly when no candidate exists |
| Video.GreekFontPath | video_processor.py:243-266 | none exactly when no candidate font exists, otherwise the first of the seven candidates, in their order, that exists |
| Video.FontsDirFontMissed | video_processor.py:253-254 | with only the fonts-directory font present, the lookup as written fails while the intended lookup returns that font |
| Video.LoopCount | video_processor.py:134 | the loop count is undefined exactly when the clip length is 0 |
| Video.LoopCountCovers | video_processor.py:127-134 | for a positive clip length the count is at least 1, the loops cover more than the target, and one loop fewer does not |
| Video.Compose | video_processor.py:175-203 | the output always lasts as long as the audio, the background is looped exactly when it is shorter than the audio, and there is no result only for a zero-length background |
| Video.ComposeLoopCount | video_processor.py:134-137 | the count handed to the `loop` filter is the least number of whole copies of the clip that outlasts the audio |
| Video.ComposeNeverRuns | video_processor.py:167 | as written every call fails on the undefined configuration, while as intended a background with a length gives an output as long as the audio |

## Left out

- The language-model call (story_generator.py:47-56), the text-to-speech service and its voice listing (audio_generator.py) are network calls: the model's reply is the input of `StoryCleanup.GenerateStory`.
- The ffmpeg and ffprobe runs and the ffmpeg-python graph building are external processes. This covers the probe and run calls in video_processor.py, create_final_videos.py:82-91 and 150-192, and prepare_background_once.py. The durations they report are parameters.
- pysrt's serialisation and parsing (caption_generator.py:50, 123) belong to a library that is not part of this model. A `SubRipFile` is the list of its items (`Captions.Item`).
- The file system: existence checks are sets of existing numbers or names, and directory listings are lists of names. Directory creation, moves, reads and writes are left out; the written text is returned.
- Writes in text mode (create_stories_with_srt.py:104) turn `\n` into the platform's line ending; the model writes `\n`, as on POSIX. A `\r\n` written elsewhere is read back as `\n` by `SrtDocument.ReadText`.
- Floating point: seconds are exact reals, so IEEE rounding in `% 1 * 1000` and `//` is not modelled.
- Unicode whitespace and digits: `strip`, `\s`, `isdigit` and `\d` use the six ASCII whitespace characters and `0`–`9` only.
- StoryCleanup.Judge: the recursive retry at story_generator.py:75 is modelled as the `Regenerate` outcome; the model is not called again.
- The `words` count in `estimate_narration_time` (create_stories_with_srt.py:15) is computed and never used, so it is not modelled.
- `escaped_font_path` (video_processor.py:238) and the ffmpeg stream graph with `loops_needed` in `prepare_background_video` (video_processor.py:24-40) do not affect any result, so they are not modelled.
- SrtTime.InRangeWritable: times of 100 hours or more are written with three-digit hours, and the reader does not recognise such a timing line. The read-back lemmas therefore require every time to be below 100 hours.
- Resync.SyncedSrtReadBack: requires a narration shorter than 100 hours, for the reason above.
- StorySrt.CreateSrtReadBack: requires a target below 100 hours and sentences that are not all digits, do not begin with a timing line and hold no line break, neither `\n` nor `\r`. The source's reader drops or splits such sentences too: its text-mode read ends a line at a lone `\r` as well. The stories come from `generate_story`, which turns every whitespace run, `\r` included, into one space (story_generator.py:64), so they hold no line break.
- Video.Compose: the length of the background clip that reaches the final command is not stated. `_loop_video` hands ffmpeg `loop=<n>:1:0` (video_processor.py:137), and in ffmpeg's `loop` filter the second argument is the number of frames repeated, so the first frame alone is repeated. What ffmpeg makes of that is outside the model; only the count `n` is stated (`Video.ComposeLoopCount`).
- Video.FontCandidates: `pathlib`'s separator is the parameter `sep`, because it depends on the operating system.
- Quotes or special characters in the caption path other than `\` and `:` are passed to ffmpeg unescaped, as in the source; no property about ffmpeg's own parsing of the filter is stated.
- Orchestration scripts (main.py, demo.py, batch_beach_stories.py, create_beach_story.py, generate_new_stories.py, setup.py) only sequence the stages, and config.py only holds the constants, whose values are copied into `Video`.

## Findings

| source | as written | input that shows it | evidently intended | confidence | as-written member | corrected member |
|---|---|---|---|---|---|---|
| create_final_videos.py:140-145 | line 145 overwrites the fallback path chosen in the `except` branch with the synced file's path | a caption file with no text line: line 114 divides by zero, the synced file is never written, yet line 145 still picks it (after a failed probe the name is unbound) | fall back to the original caption file when re-timing fails | not executed | Resync.EmptyFileUsesUnwrittenFile | Resync.SubtitlePath |
| video_processor.py:239 | `Config` is used but the module never imports it | any usable font: building the style raises `NameError` | use the configured font size and outline width | not executed | Video.SubtitleFilterAsWritten | Video.SubtitleFilter |
| video_processor.py:253-254 | the font candidate list names `Config.FONTS_DIR` without importing `Config` | any call: building the list raises `NameError` before a file is tried | look up the fonts in the configured directory | not executed | Video.FontsDirFontMissed | Video.GreekFontPath |
| video_processor.py:167 | the first statement of `create_video_with_captions` builds the output path from `Config.OUTPUT_DIR` without importing `Config` | any call, for instance a 10 s narration over a 20 s background: `NameError` before either duration is probed | write the video into the configured output directory | not executed | Video.ComposeNeverRuns | Video.Compose |
