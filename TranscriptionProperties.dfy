/** What the normalisation promises, proved about the specification functions
    of `Transcription` (which the methods there are proved to compute). */
module TranscriptionProperties {
  import opened Text
  import opened Rounding
  import opened Seqs
  import opened Transcription

  // ----- the word loop -----------------------------------------------------

  /** A blank word contributes neither a record nor a fragment. */
  lemma BlankWordSkipped(a: seq<WordSpan>, w: WordSpan, b: seq<WordSpan>)
    requires IsBlank(w)
    ensures AcceptedWords(a + [w] + b) == AcceptedWords(a + b)
    ensures AcceptedTexts(a + [w] + b) == AcceptedTexts(a + b)
  {
    FlatMapSkip(AcceptWord, a, w, b);
    FlatMapSkip(AcceptText, a, w, b);
  }

  /** A word that is not blank contributes its stripped text with its times
      rounded to two decimals and its confidence to three, between the
      contributions of the words before it and those after it. */
  lemma NonBlankWordKept(a: seq<WordSpan>, w: WordSpan, b: seq<WordSpan>)
    requires !IsBlank(w)
    ensures AcceptedWords(a + [w] + b) == AcceptedWords(a)
      + [WordSpan(Strip(w.word), Round2(w.start), Round2(w.end), Round3(w.probability))]
      + AcceptedWords(b)
    ensures AcceptedTexts(a + [w] + b) == AcceptedTexts(a) + [Strip(w.word)] + AcceptedTexts(b)
  {
    FlatMapMiddle(AcceptWord, a, w, b);
    FlatMapMiddle(AcceptText, a, w, b);
  }

  /** There are never more records than backend words. */
  lemma AcceptedWordsAtMost(ws: seq<WordSpan>)
    ensures |AcceptedWords(ws)| <= |ws|
  {
    FlatMapAtMostOne(AcceptWord, ws);
  }

  /** The fragments of the word loop are exactly the texts of the records it
      emits, in the same order. */
  lemma AcceptedTextsAreWordTexts(ws: seq<WordSpan>)
    ensures AcceptedTexts(ws) == WordTexts(AcceptedWords(ws))
  {
    forall k | 0 <= k < |ws| ensures FlatMap(WordText, AcceptWord(ws[k])) == AcceptText(ws[k]) {
      if !IsBlank(ws[k]) {
        FlatMapSingle(WordText, Emitted(ws[k]));
      }
    }
    FlatMapFlatMap(AcceptWord, WordText, AcceptText, ws);
  }

  /** The shape of an emitted record: a non-empty, already stripped word,
      times in whole hundredths and a confidence in whole thousandths. */
  predicate IsCleanRecord(w: WordSpan) {
    IsCleanWord(w.word) && IsCents(w.start) && IsCents(w.end) && IsMillis(w.probability)
  }

  lemma AcceptedWordsClean(ws: seq<WordSpan>)
    ensures forall i :: 0 <= i < |AcceptedWords(ws)| ==> IsCleanRecord(AcceptedWords(ws)[i])
  {
    forall k | 0 <= k < |ws| && !IsBlank(ws[k]) ensures IsCleanRecord(Emitted(ws[k])) {
      StripIdempotent(ws[k].word);
    }
    FlatMapAll(AcceptWord, IsCleanRecord, ws);
  }

  /** The word loop emits nothing exactly when every word is blank. */
  lemma AcceptedWordsEmptyIff(ws: seq<WordSpan>)
    ensures AcceptedWords(ws) == [] <==> forall k :: 0 <= k < |ws| ==> IsBlank(ws[k])
  {
    FlatMapEmptyIff(AcceptWord, ws);
    assert forall k :: 0 <= k < |ws| ==> (AcceptWord(ws[k]) == [] <==> IsBlank(ws[k]));
  }

  predicate EndNotNegative(w: WordSpan) {
    w.end >= 0.0
  }

  lemma AcceptedWordsEndsNotNegative(ws: seq<WordSpan>)
    requires forall k :: 0 <= k < |ws| ==> ws[k].end >= 0.0
    ensures forall i :: 0 <= i < |AcceptedWords(ws)| ==> AcceptedWords(ws)[i].end >= 0.0
  {
    assert forall k :: 0 <= k < |ws| && !IsBlank(ws[k]) ==> EndNotNegative(Emitted(ws[k]));
    FlatMapAll(AcceptWord, EndNotNegative, ws);
  }

  predicate StartsInOrder(x: WordSpan, y: WordSpan) {
    x.start <= y.start
  }

  /** Two backend words are in order of start time, unless one of them is
      blank and so never becomes a record. */
  predicate KeptStartsInOrder(x: WordSpan, y: WordSpan) {
    !IsBlank(x) && !IsBlank(y) ==> x.start <= y.start
  }

  /** Rounding keeps the order of the start times: backend words whose
      non-blank ones are ordered by start give records ordered by start. */
  lemma AcceptedWordsStartsOrdered(ws: seq<WordSpan>)
    requires forall i, j :: 0 <= i < j < |ws| && !IsBlank(ws[i]) && !IsBlank(ws[j]) ==>
      ws[i].start <= ws[j].start
    ensures forall i, j :: 0 <= i < j < |AcceptedWords(ws)| ==>
      AcceptedWords(ws)[i].start <= AcceptedWords(ws)[j].start
  {
    forall x, y | KeptStartsInOrder(x, y) && |AcceptWord(x)| == 1 && |AcceptWord(y)| == 1
      ensures StartsInOrder(AcceptWord(x)[0], AcceptWord(y)[0])
    {
      Round2Monotone(x.start, y.start);
    }
    assert forall i, j :: 0 <= i < j < |ws| ==> KeptStartsInOrder(ws[i], ws[j]);
    FlatMapOrdered(AcceptWord, KeptStartsInOrder, StartsInOrder, ws);
  }

  /** The span of a word is well formed: it starts at or after 0.0 and ends
      at or after its start. */
  predicate WellFormedSpan(w: WordSpan) {
    0.0 <= w.start <= w.end
  }

  /** Records of words with well-formed spans have well-formed spans. */
  lemma AcceptedWordsWellFormed(ws: seq<WordSpan>)
    requires forall k :: 0 <= k < |ws| ==> 0.0 <= ws[k].start <= ws[k].end
    ensures forall i :: 0 <= i < |AcceptedWords(ws)| ==>
      0.0 <= AcceptedWords(ws)[i].start <= AcceptedWords(ws)[i].end
  {
    assert forall k :: 0 <= k < |ws| && !IsBlank(ws[k]) ==> WellFormedSpan(Emitted(ws[k]));
    FlatMapAll(AcceptWord, WellFormedSpan, ws);
  }

  // ----- the segment loop --------------------------------------------------

  function SegmentDelivered(seg: Segment): seq<WordSpan> {
    Delivered(seg.words)
  }

  /** Every backend word the handler gets to process, segment by segment. */
  function DeliveredWords(segs: seq<Segment>): seq<WordSpan> {
    FlatMap(SegmentDelivered, segs)
  }

  /** The extracted records are those of the non-blank backend words taken in
      segment order, then word order; hence no more than there are words. */
  lemma ExtractedWordsInBackendOrder(segs: seq<Segment>)
    ensures ExtractedWords(segs) == AcceptedWords(DeliveredWords(segs))
    ensures |ExtractedWords(segs)| <= |DeliveredWords(segs)|
  {
    FlatMapFlatMap(SegmentDelivered, AcceptWord, SegmentWords, segs);
    AcceptedWordsAtMost(DeliveredWords(segs));
  }

  /** What one segment appends to each list, case by case. */
  lemma SegmentPartsCases(seg: Segment)
    ensures seg.words.Absent? ==>
      SegmentWords(seg) == []
      && SegmentParts(seg) == (if Strip(seg.text) == [] then [] else [Strip(seg.text)])
    ensures seg.words == Present([]) ==>
      SegmentWords(seg) == [] && SegmentParts(seg) == [Strip(seg.text)]
    ensures seg.words.ReadFailed? ==>
      SegmentParts(seg) == WordTexts(SegmentWords(seg)) + [Strip(seg.text)]
    ensures seg.words.Present? && seg.words.words != [] ==>
      SegmentParts(seg) == WordTexts(SegmentWords(seg))
    ensures (seg.words.Present? && seg.words.words != []
             && forall k :: 0 <= k < |seg.words.words| ==> IsBlank(seg.words.words[k])) ==>
      SegmentWords(seg) == [] && SegmentParts(seg) == []
  {
    AcceptedTextsAreWordTexts(Delivered(seg.words));
    AcceptedWordsEmptyIff(Delivered(seg.words));
  }

  /** When every segment delivers a non-empty word list, the full text is
      made of the extracted words and nothing else. */
  lemma TextIsExtractedWords(segs: seq<Segment>)
    requires forall k :: 0 <= k < |segs| ==> segs[k].words.Present? && segs[k].words.words != []
    ensures TextParts(segs) == WordTexts(ExtractedWords(segs))
    ensures FullText(segs) == Join(WordTexts(ExtractedWords(segs)), " ")
  {
    forall k | 0 <= k < |segs| ensures FlatMap(WordText, SegmentWords(segs[k])) == SegmentParts(segs[k]) {
      SegmentPartsCases(segs[k]);
    }
    FlatMapFlatMap(SegmentWords, WordText, SegmentParts, segs);
  }

  // ----- the fallback ------------------------------------------------------

  lemma WordTextsAt(ws: seq<WordSpan>)
    ensures |WordTexts(ws)| == |ws|
    ensures forall k :: 0 <= k < |ws| ==> WordTexts(ws)[k] == ws[k].word
  {
    FlatMapExactlyOne(WordText, ws);
  }

  /** The synthesised words: one per token, in token order, token `i` covering
      [0.5 i, 0.5 (i + 1)] with confidence 0.75, each clean, each strictly
      later than the one before and starting where it ended. */
  lemma FallbackWordsShape(text: string)
    ensures |FallbackWords(text)| == |Split(text)|
    ensures WordTexts(FallbackWords(text)) == Split(text)
    ensures forall i :: 0 <= i < |FallbackWords(text)| ==>
      var w := FallbackWords(text)[i];
      IsCleanWord(w.word) && w.start == i as real * 0.5 && w.end == (i + 1) as real * 0.5
      && w.probability == 0.75 && w.start < w.end
    ensures forall i :: 0 <= i < |FallbackWords(text)| - 1 ==>
      FallbackWords(text)[i].end == FallbackWords(text)[i + 1].start
  {
    var r := FallbackWords(text);
    var tokens := Split(text);
    WordTextsAt(r);
    forall i | 0 <= i < |r| ensures IsCleanWord(r[i].word) {
      StripNoSpace(tokens[i]);
    }
  }

  /** The words of a fallback transcript, put together, are exactly the
      non-whitespace characters of the full text. */
  lemma FallbackKeepsText(text: string)
    ensures Concat(WordTexts(FallbackWords(text))) == NonSpaceChars(text)
  {
    FallbackWordsShape(text);
    SplitKeepsNonSpace(text);
  }

  // ----- the returned record ----------------------------------------------

  /** Every word of the transcript, real or synthesised, has non-empty,
      already stripped text. */
  lemma OutputWordsClean(segs: seq<Segment>, info: LanguageInfo)
    ensures forall k :: 0 <= k < |Normalize(segs, info).words| ==>
      IsCleanWord(Normalize(segs, info).words[k].word)
  {
    if ExtractedWords(segs) != [] {
      ExtractedWordsInBackendOrder(segs);
      AcceptedWordsClean(DeliveredWords(segs));
    } else {
      FallbackWordsShape(FullText(segs));
    }
  }

  /** One non-blank backend word anywhere suppresses the fallback: the
      transcript's words are then exactly the extracted ones. */
  lemma RealWordSuppressesFallback(segs: seq<Segment>, info: LanguageInfo, k: nat)
    requires k < |DeliveredWords(segs)| && !IsBlank(DeliveredWords(segs)[k])
    ensures ExtractedWords(segs) != []
    ensures Normalize(segs, info).words == ExtractedWords(segs)
    ensures Normalize(segs, info).totalDuration == ExtractedWords(segs)[|ExtractedWords(segs)| - 1].end
  {
    ExtractedWordsInBackendOrder(segs);
    AcceptedWordsEmptyIff(DeliveredWords(segs));
  }

  /** With no real word and a non-empty full text, the transcript's words are
      the synthesised ones, one per token of the text; the duration is half a
      second per token. */
  lemma FallbackApplies(segs: seq<Segment>, info: LanguageInfo)
    requires ExtractedWords(segs) == [] && FullText(segs) != []
    ensures Normalize(segs, info).words == FallbackWords(FullText(segs))
    ensures WordTexts(Normalize(segs, info).words) == Split(FullText(segs))
    ensures Normalize(segs, info).totalDuration == |Split(FullText(segs))| as real * 0.5
  {
    FallbackWordsShape(FullText(segs));
  }

  /** With no real word, a full text made only of whitespace (such as the
      " " that joins two empty segment texts) triggers the fallback, which
      finds no token: the transcript has no words and lasts 0.0. */
  lemma BlankTextGivesNoWords(segs: seq<Segment>, info: LanguageInfo)
    requires ExtractedWords(segs) == [] && AllSpace(FullText(segs))
    ensures Normalize(segs, info).words == []
    ensures Normalize(segs, info).totalDuration == 0.0
  {
  }

  /** If the backend's word end times are not negative, neither is the total
      duration. */
  lemma TotalDurationNotNegative(segs: seq<Segment>, info: LanguageInfo)
    requires forall k :: 0 <= k < |DeliveredWords(segs)| ==> DeliveredWords(segs)[k].end >= 0.0
    ensures Normalize(segs, info).totalDuration >= 0.0
  {
    var words := Normalize(segs, info).words;
    if words != [] {
      if ExtractedWords(segs) != [] {
        ExtractedWordsInBackendOrder(segs);
        AcceptedWordsEndsNotNegative(DeliveredWords(segs));
      } else {
        FallbackWordsShape(FullText(segs));
      }
    }
  }

  /** With no segments the transcript is empty and lasts 0.0; the language
      information is passed through. */
  lemma NoSegments(info: LanguageInfo)
    ensures Normalize([], info)
      == TranscriptionResult([], info.language, info.languageProbability, [], 0.0)
  {
  }

  /** The transcript's words are ordered by start time whenever the
      backend's non-blank words are: real words keep the backend's order, and
      synthesised ones follow each other whatever the backend gave. */
  lemma OutputStartsOrdered(segs: seq<Segment>, info: LanguageInfo)
    requires forall i, j ::
      (0 <= i < j < |DeliveredWords(segs)|
       && !IsBlank(DeliveredWords(segs)[i]) && !IsBlank(DeliveredWords(segs)[j])) ==>
      DeliveredWords(segs)[i].start <= DeliveredWords(segs)[j].start
    ensures forall i, j :: 0 <= i < j < |Normalize(segs, info).words| ==>
      Normalize(segs, info).words[i].start <= Normalize(segs, info).words[j].start
  {
    ExtractedWordsInBackendOrder(segs);
    AcceptedWordsStartsOrdered(DeliveredWords(segs));
    FallbackWordsShape(FullText(segs));
  }

  /** Without a real word the transcript's words are ordered by start time,
      whatever the backend gave. */
  lemma FallbackStartsOrdered(segs: seq<Segment>, info: LanguageInfo)
    requires ExtractedWords(segs) == []
    ensures forall i, j :: 0 <= i < j < |Normalize(segs, info).words| ==>
      Normalize(segs, info).words[i].start < Normalize(segs, info).words[j].start
  {
    FallbackWordsShape(FullText(segs));
  }

  /** Every span of the transcript is well formed (starts at or after 0.0 and
      ends at or after its start) whenever the spans of the backend's words
      are: rounding keeps them so, and synthesised spans always are. */
  lemma OutputSpansWellFormed(segs: seq<Segment>, info: LanguageInfo)
    requires forall k :: 0 <= k < |DeliveredWords(segs)| ==>
      0.0 <= DeliveredWords(segs)[k].start <= DeliveredWords(segs)[k].end
    ensures forall k :: 0 <= k < |Normalize(segs, info).words| ==>
      0.0 <= Normalize(segs, info).words[k].start <= Normalize(segs, info).words[k].end
  {
    ExtractedWordsInBackendOrder(segs);
    AcceptedWordsWellFormed(DeliveredWords(segs));
    FallbackWordsShape(FullText(segs));
  }
}
