# Whisper server: transcript normalisation

This project models how the `/inference` handler of `whisper_server_fast.py` turns the
speech backend's output into the JSON transcript it returns, and proves properties of that model. The backend output is an
ordered list of segments plus language information. Each segment has a text and,
possibly, word-level data.

The handler works in three stages:

- **Word extraction.** For every segment it strips the text. It then reads the segment's
  words, strips each one and drops blank ones. Each remaining word becomes a record, with
  times rounded to two decimals and confidence to three. Two lists grow as it goes:
  `words_data` (the records) and `full_text_parts` (text fragments).
  - Which fragments a segment adds depends on how its words could be read. They may be
    absent or `None`; the list may be empty; reading may fail; or the list may be
    non-empty.
  - In the last case the segment adds the texts of its accepted words.
  - Otherwise it adds the stripped segment text. When words are absent, it adds the text
    only if the text is not empty.
- **Fallback.** If no record was produced and the joined text is not empty, the text is
  split on whitespace. Token `i` becomes a record covering `[0.5 i, 0.5 (i + 1)]` seconds
  with confidence 0.75.
- **Assembly.** The returned record holds the fragments joined with one space and the
  backend's language and language probability, unchanged. It also holds the records and
  the total duration: the last record's `end`, or 0.0 when there is none.

Layout:

- `Text.dfy` holds Python's `str.strip()`, `str.split()` and `" ".join` over code
  points. Whitespace is the set `str.isspace()` accepts.
- `Rounding.dfy` holds `round(x, 2)` and `round(x, 3)` as round-half-even on exact reals.
- `Seqs.dfy` holds `FlatMap`. It is the shape shared by every accumulating loop here:
  each element appends its contribution to a list. The file also holds its generic
  lemmas.
- `Transcription.dfy` holds the data model and the specification functions. Its
  imperative methods mirror the handler's loops and are proved to compute those
  functions:
  - `AppendAccepted` is the per-word loop;
  - `ExtractWords` is the segment loop;
  - `SynthesizeFallback` is the fallback loop;
  - `Transcribe` is the whole handler.
- `TranscriptionProperties.dfy` holds the properties of the specification functions.
- `Examples.dfy` holds concrete inputs and the transcripts they produce.

The backend's word list is modelled as `WordsAvail`:

- `Absent`: no `words` attribute, or `None`.
- `Present(ws)`: the list was read in full.
- `ReadFailed(handled)`: an exception was raised inside the `try` after the words in
  `handled` had been processed. The records and fragments of those words stay appended,
  and the stripped segment text is appended after them (lines 121-123).
  `ReadFailed([])` is a failure of `list(segment.words)` itself.

A non-empty word list whose words are all blank adds nothing to the full text. The segment text
is used only when the list itself is empty (lines 105-120). One might expect the
segment text to take the place of a list of blank words. The handler does not do that,
and the model follows the code (`TranscriptionExamples.OnlyBlankWord`).

## Model

| member | source | states |
|---|---|---|
| Transcription.AppendAccepted | whisper_server_fast.py:106-117 | the per-word loop appends to the two lists exactly the records and the texts that the specification functions `AcceptedWords` and `AcceptedTexts` assign to the word list |
| Transcription.ExtractWords | whisper_server_fast.py:91-128 | the segment loop, with its four word-availability branches, leaves `words_data` equal to `ExtractedWords` and `full_text_parts` equal to `TextParts` of the segments |
| Transcription.SynthesizeFallback | whisper_server_fast.py:138-149 | the fallback loop, which rounds `0.5 i` and `0.5 (i + 1)` to two decimals and keeps `word.strip()`, yields exactly `FallbackWords` of the text |
| Transcription.Transcribe | whisper_server_fast.py:86-161 | the handler's result is `Normalize` of the backend output; its text is the `" "`-join of the fragments; language and language probability are passed through unchanged |
| Transcription.Emitted | whisper_server_fast.py:107-113 | the record of an accepted word has an already stripped word, empty exactly when the backend word is blank; start and end in whole hundredths within 0.005 of the backend's; a confidence in whole thousandths within 0.0005; and a span that starts at or after 0.0 and ends at or after its start whenever the backend's does |
| Transcription.AcceptedTextsStripped | whisper_server_fast.py:106-116 | every fragment the word loop appends is already stripped, and there is at most one per word |
| Transcription.SegmentParts | whisper_server_fast.py:99-128 | the fragments of one segment, by word availability: each is already stripped; there is at most one more than the words delivered; with absent words the segment adds nothing exactly when its text is all whitespace |
| Transcription.FallbackWords | whisper_server_fast.py:140-149 | one synthesised word per whitespace token: none exactly when the text is all whitespace; each word non-empty and free of whitespace; the first starts at 0.0 and each next one starts where the one before ended |
| Transcription.TotalDuration | whisper_server_fast.py:160 | 0.0 for no words; not negative when no end time is; at least every word's end when the end times are in order |
| Transcription.Normalize | whisper_server_fast.py:86-161 | the text is the joined fragments and language information passes through; with any real word the words are the extracted ones, and otherwise the fallback's, whose empty-text guard at line 138 makes no difference because an empty text has no token; the duration is that of the words returned |
| TranscriptionProperties.BlankWordSkipped | whisper_server_fast.py:106-108 | a word whose stripped text is empty contributes neither a record nor a fragment, wherever it stands |
| TranscriptionProperties.NonBlankWordKept | whisper_server_fast.py:106-116 | a word that is not blank contributes its stripped text with start and end rounded to 2 decimals and confidence to 3, as a record and as a fragment, between the contributions of the words before and after it |
| TranscriptionProperties.AcceptedWordsAtMost | whisper_server_fast.py:106-115 | a word list never yields more records than it has words |
| TranscriptionProperties.AcceptedTextsAreWordTexts | whisper_server_fast.py:109-116 | the fragments the word loop appends are exactly the `word` fields of the records it appends, in the same order |
| TranscriptionProperties.AcceptedWordsClean | whisper_server_fast.py:107-113 | every record has a non-empty, already stripped word, start and end in whole hundredths and a confidence in whole thousandths |
| TranscriptionProperties.AcceptedWordsEmptyIff | whisper_server_fast.py:106-108 | a word list yields no record if and only if every word in it is blank |
| TranscriptionProperties.AcceptedWordsEndsNotNegative | whisper_server_fast.py:112 | records have non-negative end times when the backend's words do |
| TranscriptionProperties.AcceptedWordsStartsOrdered | whisper_server_fast.py:106-115 | records are ordered by start time whenever the backend's non-blank words are, because rounding to two decimals preserves order |
| TranscriptionProperties.AcceptedWordsWellFormed | whisper_server_fast.py:106-115 | records start at or after 0.0 and end at or after their start whenever the backend's words do |
| TranscriptionProperties.ExtractedWordsInBackendOrder | whisper_server_fast.py:91-115 | the extracted records are those of the non-blank backend words taken segment by segment, then word by word, and there are at most as many as backend words |
| TranscriptionProperties.SegmentPartsCases | whisper_server_fast.py:99-128 | per segment: absent words add no record and add the stripped text only when non-empty; an empty list adds no record and adds the stripped text even when empty; a failed read adds the texts of the records made before the failure, then the stripped text; a non-empty list adds exactly the texts of its records, so nothing at all when all its words are blank |
| TranscriptionProperties.TextIsExtractedWords | whisper_server_fast.py:105-131 | when every segment has a non-empty word list, the full text is the `" "`-join of the extracted words and nothing else |
| TranscriptionProperties.WordTextsAt | whisper_server_fast.py:109 | the list of `word` fields has one entry per record, at the same index |
| TranscriptionProperties.FallbackWordsShape | whisper_server_fast.py:138-149 | one synthesised word per whitespace token of the text, in order; token `i` covers `[0.5 i, 0.5 (i + 1)]` with confidence 0.75; each word is non-empty and stripped; word `i` ends where word `i + 1` starts |
| TranscriptionProperties.FallbackKeepsText | whisper_server_fast.py:140-146 | the synthesised words, concatenated, are exactly the non-whitespace characters of the full text |
| TranscriptionProperties.OutputWordsClean | whisper_server_fast.py:107-108 | every word of the transcript, real or synthesised, has non-empty, already stripped text |
| TranscriptionProperties.RealWordSuppressesFallback | whisper_server_fast.py:138 | one non-blank backend word anywhere means no fallback: the transcript's words are the extracted ones and the duration is the last one's end |
| TranscriptionProperties.FallbackApplies | whisper_server_fast.py:138-160 | with no record and a non-empty full text, the words are the synthesised ones, one per token, and the duration is 0.5 seconds per token |
| TranscriptionProperties.BlankTextGivesNoWords | whisper_server_fast.py:138-149 | when there is no record and the full text is only whitespace, the fallback runs but yields no words, and the duration is 0.0 |
| TranscriptionProperties.TotalDurationNotNegative | whisper_server_fast.py:160 | the total duration is not negative whenever the backend's end times are not |
| TranscriptionProperties.NoSegments | whisper_server_fast.py:86-87 | with no segments the text is empty, the words are empty, the duration is 0.0 and the language information is passed through |
| TranscriptionProperties.OutputStartsOrdered | whisper_server_fast.py:91-149 | the transcript's words are ordered by start time whenever the backend's non-blank words are, real or synthesised |
| TranscriptionProperties.FallbackStartsOrdered | whisper_server_fast.py:138-149 | without a real word the transcript's words have strictly increasing start times, whatever the backend gave |
| TranscriptionProperties.OutputSpansWellFormed | whisper_server_fast.py:91-149 | every word of the transcript starts at or after 0.0 and ends at or after its start whenever the backend's words do; synthesised words always do |
| TranscriptionExamples.ArabicWords | whisper_server_fast.py:91-161 | two Arabic words with two-decimal times come out unchanged, joined with a space, with duration 0.7 |
| TranscriptionExamples.HelloWorldFallback | whisper_server_fast.py:124-149 | a segment without word data yields "hello" over [0.0, 0.5] and "world" over [0.5, 1.0], both with confidence 0.75, and duration 1.0 |
| TranscriptionExamples.OnlyBlankWord | whisper_server_fast.py:105-120 | a segment whose only word is blank yields an empty text, no words and duration 0.0: its segment text is not used |
| TranscriptionExamples.TwoEmptyFragments | whisper_server_fast.py:118-149 | an empty segment text with an empty word list, followed by one whose word read fails, gives the text " ", a fallback with no token and no words |
| TranscriptionExamples.HelloWorldTokens | whisper_server_fast.py:140 | `"hello world".split()` is `["hello", "world"]` |
| Text.Strip | whisper_server_fast.py:92 | the stripped text neither starts nor ends with whitespace, and it is empty exactly when the text is all whitespace |
| Text.StripDecomposes | whisper_server_fast.py:92 | the text is leading whitespace, then the stripped text, then trailing whitespace: only surrounding whitespace is removed |
| Text.StripTrimmed | whisper_server_fast.py:107 | a text that neither starts nor ends with whitespace is its own stripped form |
| Text.StripIdempotent | whisper_server_fast.py:107 | stripping twice is stripping once |
| Text.StripNoSpace | whisper_server_fast.py:145-146 | a whitespace-free token is its own stripped form, so the fallback's `word.strip()` test always passes |
| Text.IsSpace | whisper_server_fast.py:92 | the whitespace of `str.isspace()`: space, tab, newline and carriage return are whitespace; ASCII letters and digits, U+200B and U+FEFF are not; nothing above U+3000 is |
| Text.Split | whisper_server_fast.py:140 | every token is non-empty and free of whitespace, and there is no token exactly when the text is all whitespace |
| Text.SplitAtSpace | whisper_server_fast.py:140 | every whitespace character, tab and newline included, separates tokens: the tokens of `a + [c] + b` for whitespace `c` are those of `a` followed by those of `b`, so runs of whitespace act as one separator |
| Text.SplitWord | whisper_server_fast.py:140 | a non-empty run without whitespace is a single token; with `Split`'s empty case and `SplitAtSpace` this fixes every token boundary |
| Text.SplitJoin | whisper_server_fast.py:131-140 | splitting the `" "`-join of non-empty whitespace-free tokens gives the tokens back |
| Text.SplitKeepsNonSpace | whisper_server_fast.py:140 | the tokens, concatenated, are exactly the non-whitespace characters of the text |
| Text.Join | whisper_server_fast.py:131 | with a non-empty separator the joined text is empty exactly when there are no parts or a single empty part |
| Rounding.RoundHalfEven | whisper_server_fast.py:111-113 | the result is within 0.5 of its argument, and a tie goes to the even integer |
| Rounding.RoundHalfEvenUnique | whisper_server_fast.py:111-113 | those two properties determine the rounding uniquely |
| Rounding.Round2 | whisper_server_fast.py:111-112 | `round(x, 2)` is a whole number of hundredths within 0.005 of `x`, and not negative when `x` is not |
| Rounding.Round3 | whisper_server_fast.py:113 | `round(x, 3)` is a whole number of thousandths within 0.0005 of `x`, and not negative when `x` is not |
| Rounding.Round2Exact | whisper_server_fast.py:145-146 | a value with two decimals, such as a multiple of 0.5, is unchanged by `round(x, 2)` |
| Rounding.Round3Exact | whisper_server_fast.py:113 | a value with three decimals is unchanged by `round(x, 3)` |
| Rounding.RoundHalfEvenMonotone | whisper_server_fast.py:111-113 | rounding never reverses the order of two values |
| Rounding.Round2Monotone | whisper_server_fast.py:111-112 | `round(x, 2)` never reverses the order of two values |

## Left out

- HTTP handling is not modelled: routing, the multipart field checks, the 400/500 responses and the health endpoint. That is request plumbing, not normalisation.
- Saving and deleting the temporary audio file is not modelled. That is file I/O.
- Model loading and the `model.transcribe` call are not modelled. That is an opaque third-party call; its output (segments and language information) is the model's input.
- `list(segments)`, which only materialises that input, is not modelled.
- Logging is not modelled. It does not affect the result.
- The threaded server start-up is not modelled. That is concurrency and process start-up.
- Rounding.Round2: applies round-half-even to the exact real value. Python's `round` acts on the binary float nearest the decimal, so a value such as 2.675 can round differently. Floating point is not modelled.
- Rounding.Round3: the same as `Rounding.Round2`, at three decimals.
- An exception outside the `try` is not modelled, for example `segment.text.strip()` failing on a non-string. It ends the request with an error and produces no transcript.
- `whisper_server_simple.py` is not part of this model. It wraps a different backend and only strips text and fills in defaults.
- Determinism and repeatability of the normalisation are not stated as lemmas. They hold by construction: every stage is a function of the backend output.
