/** The normalisation on concrete backend outputs. */
module TranscriptionExamples {
  import opened Text
  import opened Rounding
  import opened Seqs
  import opened Transcription

  const Marhaba := WordSpan("مرحبا", 0.0, 0.4, 0.91)
  const Bik := WordSpan("بك", 0.4, 0.7, 0.88)

  /** Both words already have two-decimal times and three-decimal
      confidences, so rounding leaves them as they are. */
  lemma ArabicRounding()
    ensures Round2(0.0) == 0.0 && Round2(0.4) == 0.4 && Round2(0.7) == 0.7
    ensures Round3(0.91) == 0.91 && Round3(0.88) == 0.88
  {
    Round2Exact(0.0);
    Round2Exact(0.4);
    Round2Exact(0.7);
    Round3Exact(0.91);
    Round3Exact(0.88);
  }

  lemma ArabicAccepted()
    ensures AcceptWord(Marhaba) == [Marhaba] && AcceptWord(Bik) == [Bik]
  {
    ArabicRounding();
    StripTrimmed(Marhaba.word);
    StripTrimmed(Bik.word);
  }

  lemma ArabicRecords()
    ensures AcceptedWords([Marhaba, Bik]) == [Marhaba, Bik]
  {
    ArabicAccepted();
    FlatMapPair(AcceptWord, Marhaba, Bik);
  }

  lemma ArabicTexts()
    ensures AcceptedTexts([Marhaba, Bik]) == ["مرحبا", "بك"]
  {
    StripTrimmed(Marhaba.word);
    StripTrimmed(Bik.word);
    FlatMapPair(AcceptText, Marhaba, Bik);
  }

  /** Two Arabic words with word timings: the text is the words joined, the
      records are the words as given, and the duration is the last end. */
  lemma ArabicWords()
    ensures Normalize([Segment("مرحبا بك", Present([Marhaba, Bik]))], LanguageInfo("ar", 0.98))
      == TranscriptionResult("مرحبا بك", "ar", 0.98, [Marhaba, Bik], 0.7)
  {
    ArabicRecords();
    ArabicTexts();
    var seg := Segment("مرحبا بك", Present([Marhaba, Bik]));
    assert SegmentWords(seg) == [Marhaba, Bik];
    assert SegmentParts(seg) == ["مرحبا", "بك"];
    FlatMapSingle(SegmentWords, seg);
    FlatMapSingle(SegmentParts, seg);
    assert Join(["مرحبا", "بك"], " ") == "مرحبا" + " " + "بك";
    assert FullText([seg]) == "مرحبا بك";
  }

  lemma HelloWorldTokens()
    ensures Split("hello world") == ["hello", "world"]
  {
    SplitJoin(["hello", "world"]);
    assert Join(["hello", "world"], " ") == "hello world";
  }

  lemma HelloWorldSynthesised()
    ensures FallbackWords("hello world")
      == [WordSpan("hello", 0.0, 0.5, 0.75), WordSpan("world", 0.5, 1.0, 0.75)]
  {
    HelloWorldTokens();
    var fw := FallbackWords("hello world");
    assert fw[0] == WordSpan("hello", 0.0, 0.5, 0.75);
    assert fw[1] == WordSpan("world", 0.5, 1.0, 0.75);
  }

  /** A segment without word timings: the fallback synthesises one word per
      token, half a second each. */
  lemma HelloWorldFallback()
    ensures Normalize([Segment("hello world", Absent)], LanguageInfo("en", 0.9))
      == TranscriptionResult("hello world", "en", 0.9,
           [WordSpan("hello", 0.0, 0.5, 0.75), WordSpan("world", 0.5, 1.0, 0.75)], 1.0)
  {
    var seg := Segment("hello world", Absent);
    StripTrimmed("hello world");
    FlatMapSingle(SegmentWords, seg);
    FlatMapSingle(SegmentParts, seg);
    assert FullText([seg]) == "hello world";
    HelloWorldSynthesised();
  }

  lemma OnlyBlankWordLists(w: WordSpan, seg: Segment)
    requires w == WordSpan("  ", 0.0, 0.1, 0.5) && seg == Segment("hello", Present([w]))
    ensures ExtractedWords([seg]) == [] && TextParts([seg]) == []
  {
    assert Strip(w.word) == [];
    FlatMapSingle(AcceptWord, w);
    FlatMapSingle(AcceptText, w);
    FlatMapSingle(SegmentWords, seg);
    FlatMapSingle(SegmentParts, seg);
  }

  /** A segment whose only word is blank: the word is dropped and, since the
      word list was not empty, the segment text is not used either. */
  lemma OnlyBlankWord()
    ensures Normalize([Segment("hello", Present([WordSpan("  ", 0.0, 0.1, 0.5)]))],
                      LanguageInfo("en", 0.9))
      == TranscriptionResult("", "en", 0.9, [], 0.0)
  {
    var w := WordSpan("  ", 0.0, 0.1, 0.5);
    OnlyBlankWordLists(w, Segment("hello", Present([w])));
  }

  lemma TwoEmptyFragmentsLists(s1: Segment, s2: Segment)
    requires s1 == Segment("", Present([])) && s2 == Segment("", ReadFailed([]))
    ensures ExtractedWords([s1, s2]) == [] && TextParts([s1, s2]) == ["", ""]
  {
    FlatMapPair(SegmentWords, s1, s2);
    FlatMapPair(SegmentParts, s1, s2);
  }

  /** Two segments with empty text, one with an empty word list and one whose
      word list cannot be read: each contributes an empty fragment, the full
      text is a single space, and the fallback finds no token. */
  lemma TwoEmptyFragments()
    ensures Normalize([Segment("", Present([])), Segment("", ReadFailed([]))],
                      LanguageInfo("en", 0.5))
      == TranscriptionResult(" ", "en", 0.5, [], 0.0)
  {
    var s1, s2 := Segment("", Present([])), Segment("", ReadFailed([]));
    TwoEmptyFragmentsLists(s1, s2);
    assert Join(["", ""], " ") == " ";
    assert AllSpace(" ");
  }
}
