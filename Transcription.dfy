/** The result normalisation of the `/inference` handler: the backend's ordered
    segments and its language information become one word-level transcript.
    The specification functions come first; the methods after them do the
    work the way the handler does, by appending to two lists in loops. */
module Transcription {
  import opened Text
  import opened Rounding
  import opened Seqs

  /** A word with its timing in seconds and its confidence. The backend
      produces these, and the transcript holds them (with `word` stripped and
      the numbers rounded, or synthesised by the fallback). */
  datatype WordSpan = WordSpan(word: string, start: real, end: real, probability: real)

  /** What reading a segment's `words` gives. */
  datatype WordsAvail =
      /** no `words` attribute, or `words` is `None` */
    | Absent
      /** an exception was raised after the words in `handled` had been
          processed; `ReadFailed([])` is a failure of `list(segment.words)` */
    | ReadFailed(handled: seq<WordSpan>)
      /** the word list was read in full */
    | Present(words: seq<WordSpan>)

  datatype Segment = Segment(text: string, words: WordsAvail)

  datatype LanguageInfo = LanguageInfo(language: string, languageProbability: real)

  /** The JSON object the handler returns on success. */
  datatype TranscriptionResult = TranscriptionResult(
    text: string,
    language: string,
    languageProbability: real,
    words: seq<WordSpan>,
    totalDuration: real)

  /** Seconds given to each synthesised word. */
  const EstimatedWordDuration: real := 0.5
  /** Confidence given to each synthesised word. */
  const FallbackProbability: real := 0.75

  /** A backend word whose stripped text is empty is skipped. */
  predicate IsBlank(w: WordSpan) {
    Strip(w.word) == []
  }

  /** A word as the transcript holds it: non-empty and already stripped. */
  predicate IsCleanWord(s: string) {
    s != [] && Strip(s) == s
  }

  /** The record emitted for an accepted backend word: its word is already
      stripped, and empty exactly when the backend word is blank; its times
      are whole hundredths within 0.005 of the backend's, its confidence
      whole thousandths within 0.0005; a well-ordered, non-negative span
      stays so. */
  function Emitted(w: WordSpan): (r: WordSpan)
    ensures Strip(r.word) == r.word && (r.word == [] <==> IsBlank(w))
    ensures IsCents(r.start) && w.start - 0.005 <= r.start <= w.start + 0.005
    ensures IsCents(r.end) && w.end - 0.005 <= r.end <= w.end + 0.005
    ensures IsMillis(r.probability)
      && w.probability - 0.0005 <= r.probability <= w.probability + 0.0005
    ensures 0.0 <= w.start <= w.end ==> 0.0 <= r.start <= r.end
  {
    StripIdempotent(w.word);
    assert w.start <= w.end ==> Round2(w.start) <= Round2(w.end) by {
      if w.start <= w.end {
        Round2Monotone(w.start, w.end);
      }
    }
    WordSpan(Strip(w.word), Round2(w.start), Round2(w.end), Round3(w.probability))
  }

  /** The record one backend word adds to `words_data`, if any. */
  function AcceptWord(w: WordSpan): seq<WordSpan> {
    if IsBlank(w) then [] else [Emitted(w)]
  }

  /** The fragment one backend word adds to `full_text_parts`, if any. */
  function AcceptText(w: WordSpan): seq<string> {
    if IsBlank(w) then [] else [Strip(w.word)]
  }

  /** The records the word loop emits for `ws`, in order. */
  function AcceptedWords(ws: seq<WordSpan>): seq<WordSpan> {
    FlatMap(AcceptWord, ws)
  }

  /** The fragments the word loop appends for `ws`, in order. */
  function AcceptedTexts(ws: seq<WordSpan>): seq<string> {
    FlatMap(AcceptText, ws)
  }

  function WordText(w: WordSpan): seq<string> {
    [w.word]
  }

  /** The `word` fields of `ws`, in order. */
  function WordTexts(ws: seq<WordSpan>): seq<string> {
    FlatMap(WordText, ws)
  }

  /** The backend words the handler gets to process for one segment. */
  function Delivered(a: WordsAvail): seq<WordSpan> {
    match a
    case Absent => []
    case ReadFailed(handled) => handled
    case Present(ws) => ws
  }

  /** The records one segment adds to `words_data`. */
  function SegmentWords(seg: Segment): seq<WordSpan> {
    AcceptedWords(Delivered(seg.words))
  }

  /** Every fragment of the word loop is already stripped, and there is at
      most one per word. */
  lemma AcceptedTextsStripped(ws: seq<WordSpan>)
    ensures forall k :: 0 <= k < |AcceptedTexts(ws)| ==> Strip(AcceptedTexts(ws)[k]) == AcceptedTexts(ws)[k]
    ensures |AcceptedTexts(ws)| <= |ws|
  {
    forall k, j | 0 <= k < |ws| && 0 <= j < |AcceptText(ws[k])|
      ensures Strip(AcceptText(ws[k])[j]) == AcceptText(ws[k])[j]
    {
      StripIdempotent(ws[k].word);
    }
    FlatMapAll(AcceptText, s => Strip(s) == s, ws);
    FlatMapAtMostOne(AcceptText, ws);
  }

  /** The fragments one segment adds to `full_text_parts`: the texts of its
      accepted words; then the stripped segment text, if words were absent
      (only when that text is not empty), if the word list was empty, or if
      reading the words failed. Every fragment is already stripped; there is
      at most one more than the words delivered; with absent words the
      segment adds nothing exactly when its text is all whitespace. */
  function SegmentParts(seg: Segment): (r: seq<string>)
    ensures forall k :: 0 <= k < |r| ==> Strip(r[k]) == r[k]
    ensures |r| <= |Delivered(seg.words)| + 1
    ensures seg.words.Absent? ==> (r == [] <==> AllSpace(seg.text))
  {
    var text := Strip(seg.text);
    AcceptedTextsStripped(Delivered(seg.words));
    StripIdempotent(seg.text);
    match seg.words
    case Absent => if text != [] then [text] else []
    case ReadFailed(handled) => AcceptedTexts(handled) + [text]
    case Present(ws) => if ws == [] then [text] else AcceptedTexts(ws)
  }

  /** `words_data` after the segment loop. */
  function ExtractedWords(segs: seq<Segment>): seq<WordSpan> {
    FlatMap(SegmentWords, segs)
  }

  /** `full_text_parts` after the segment loop. */
  function TextParts(segs: seq<Segment>): seq<string> {
    FlatMap(SegmentParts, segs)
  }

  /** `" ".join(full_text_parts)`. */
  function FullText(segs: seq<Segment>): string {
    Join(TextParts(segs), " ")
  }

  /** The synthesised record for the token at index `i`. */
  function FallbackWord(token: string, i: nat): WordSpan {
    WordSpan(token, i as real * EstimatedWordDuration, (i + 1) as real * EstimatedWordDuration,
             FallbackProbability)
  }

  /** One synthesised record per whitespace-separated token of `text`: none
      exactly when the text is all whitespace; each word non-empty and free of
      whitespace; the first starting at 0.0 and each next one starting where
      the one before ended. */
  function FallbackWords(text: string): (r: seq<WordSpan>)
    ensures |r| == |Split(text)|
    ensures r == [] <==> AllSpace(text)
    ensures forall i :: 0 <= i < |r| ==> r[i].word != [] && NoSpace(r[i].word)
    ensures r != [] ==> r[0].start == 0.0
    ensures forall i :: 0 <= i < |r| - 1 ==> r[i].end == r[i + 1].start
  {
    var tokens := Split(text);
    seq(|tokens|, i requires 0 <= i < |tokens| => FallbackWord(tokens[i], i))
  }

  /** `words_data[-1]["end"] if words_data else 0.0`: 0.0 for no words, not
      negative when no end time is, and reaching every word's end when the
      end times are in order. */
  function TotalDuration(words: seq<WordSpan>): (r: real)
    ensures words == [] ==> r == 0.0
    ensures (forall k :: 0 <= k < |words| ==> words[k].end >= 0.0) ==> r >= 0.0
    ensures (forall i, j :: 0 <= i <= j < |words| ==> words[i].end <= words[j].end) ==>
      forall k :: 0 <= k < |words| ==> words[k].end <= r
  {
    if words == [] then 0.0 else words[|words| - 1].end
  }

  /** The whole normalisation as one function of the backend's output. The
      text is the joined fragments and the language information is passed
      through; real words win, and without any the words are the fallback's
      (the `full_text` test only spares splitting an empty text, which has no
      token); the duration is that of the words returned. */
  function Normalize(segs: seq<Segment>, info: LanguageInfo): (r: TranscriptionResult)
    ensures r.text == FullText(segs)
    ensures r.language == info.language && r.languageProbability == info.languageProbability
    ensures ExtractedWords(segs) != [] ==> r.words == ExtractedWords(segs)
    ensures ExtractedWords(segs) == [] ==> r.words == FallbackWords(r.text)
    ensures r.totalDuration == TotalDuration(r.words)
  {
    var extracted := ExtractedWords(segs);
    var text := FullText(segs);
    var words := if extracted == [] && text != [] then FallbackWords(text) else extracted;
    TranscriptionResult(text, info.language, info.languageProbability, words, TotalDuration(words))
  }

  /** The per-word loop: appends the record and the text of every word of `ws`
      whose stripped text is not empty. */
  method AppendAccepted(ws: seq<WordSpan>, wordsIn: seq<WordSpan>, partsIn: seq<string>)
    returns (wordsData: seq<WordSpan>, fullTextParts: seq<string>)
    ensures wordsData == wordsIn + AcceptedWords(ws)
    ensures fullTextParts == partsIn + AcceptedTexts(ws)
  {
    wordsData, fullTextParts := wordsIn, partsIn;
    for j := 0 to |ws|
      invariant wordsData == wordsIn + AcceptedWords(ws[..j])
      invariant fullTextParts == partsIn + AcceptedTexts(ws[..j])
    {
      var wordInfo := ws[j];
      var wordText := Strip(wordInfo.word);
      FlatMapSnoc(AcceptWord, ws, j);
      FlatMapSnoc(AcceptText, ws, j);
      AppendAssoc(wordsIn, AcceptedWords(ws[..j]), AcceptWord(wordInfo));
      AppendAssoc(partsIn, AcceptedTexts(ws[..j]), AcceptText(wordInfo));
      if wordText != [] {
        var wordData := WordSpan(wordText, Round2(wordInfo.start), Round2(wordInfo.end),
                                 Round3(wordInfo.probability));
        assert AcceptWord(wordInfo) == [wordData];
        assert AcceptText(wordInfo) == [wordText];
        wordsData := wordsData + [wordData];
        fullTextParts := fullTextParts + [wordText];
      } else {
        assert AcceptWord(wordInfo) == [];
        assert AcceptText(wordInfo) == [];
      }
    }
    assert ws[..|ws|] == ws;
  }

  /** The segment loop. */
  method ExtractWords(segments: seq<Segment>)
    returns (wordsData: seq<WordSpan>, fullTextParts: seq<string>)
    ensures wordsData == ExtractedWords(segments)
    ensures fullTextParts == TextParts(segments)
  {
    wordsData, fullTextParts := [], [];
    for i := 0 to |segments|
      invariant wordsData == ExtractedWords(segments[..i])
      invariant fullTextParts == TextParts(segments[..i])
    {
      var segment := segments[i];
      var segmentText := Strip(segment.text);
      FlatMapSnoc(SegmentWords, segments, i);
      FlatMapSnoc(SegmentParts, segments, i);
      match segment.words {
        case Absent =>
          if segmentText != [] {
            fullTextParts := fullTextParts + [segmentText];
          }
        case Present(wordsList) =>
          if wordsList != [] {
            wordsData, fullTextParts := AppendAccepted(wordsList, wordsData, fullTextParts);
          } else {
            fullTextParts := fullTextParts + [segmentText];
          }
        case ReadFailed(handled) =>
          wordsData, fullTextParts := AppendAccepted(handled, wordsData, fullTextParts);
          fullTextParts := fullTextParts + [segmentText];
      }
    }
    assert segments[..|segments|] == segments;
  }

  /** The fallback loop: one record per token of `fullText.split()`. */
  method SynthesizeFallback(fullText: string) returns (wordsData: seq<WordSpan>)
    ensures wordsData == FallbackWords(fullText)
  {
    var tokens := Split(fullText);
    wordsData := [];
    for i := 0 to |tokens|
      invariant |wordsData| == i
      invariant forall k :: 0 <= k < i ==> wordsData[k] == FallbackWord(tokens[k], k)
    {
      var word := tokens[i];
      StripNoSpace(word);
      if Strip(word) != [] {
        var start := i as real * EstimatedWordDuration;
        var end := (i + 1) as real * EstimatedWordDuration;
        assert start * 100.0 == (50 * i) as real;
        assert end * 100.0 == (50 * (i + 1)) as real;
        Round2Exact(start);
        Round2Exact(end);
        wordsData := wordsData + [WordSpan(Strip(word), Round2(start), Round2(end),
                                           FallbackProbability)];
      }
    }
  }

  /** The handler from the backend's output to the returned record. */
  method Transcribe(segments: seq<Segment>, info: LanguageInfo)
    returns (result: TranscriptionResult)
    ensures result == Normalize(segments, info)
    ensures result.text == Join(TextParts(segments), " ")
    ensures result.language == info.language
    ensures result.languageProbability == info.languageProbability
  {
    var wordsData, fullTextParts := ExtractWords(segments);
    var fullText := Join(fullTextParts, " ");
    assert fullText == FullText(segments);
    if wordsData == [] && fullText != [] {
      wordsData := SynthesizeFallback(fullText);
    }
    var totalDuration := if wordsData != [] then wordsData[|wordsData| - 1].end else 0.0;
    assert totalDuration == TotalDuration(wordsData);
    result := TranscriptionResult(
      fullText, info.language, info.languageProbability, wordsData, totalDuration);
  }
}
