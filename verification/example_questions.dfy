/** Which questions `create_training_pairs` derives from the examples the loaders build:
    the regular expression finds exactly the cleaned text a loader put in the leading
    element, so the threshold applies to that text's length. */
module ExampleQuestions {
  import opened Strings
  import opened Wrappers
  import opened Normalizer
  import opened Tags
  import opened Extract
  import opened Records
  import opened Serialize
  import opened Augment

  /** The search for `t` finds the cleaned body of a leading `t` element. */
  lemma LeadingCleanFound(s: string, t: Tag, clean: string)
    requires StartsWith(s, Element(Segment(t, clean)))
    requires Tidy(clean) && !Contains(clean, Close(t))
    ensures FindInner(s, t) == Some(clean)
  {
    TidyHasNoNewline(clean);
    InnerOfLeadingElement(s, t, clean);
  }

  /** An example whose leading element is `<t>clean</t>` earns the question quoting
      `preview` exactly when `clean` passes the threshold and `preview` is its first
      50 code points. */
  lemma LeadingQuestion(text: string, t: Tag, clean: string, threshold: Threshold, preview: string)
    requires StartsWith(text, Element(Segment(t, clean)))
    requires Tidy(clean) && !Contains(clean, Close(t))
    ensures Quotes(text, t, threshold, preview)
            <==> threshold.Admits(|clean|) && preview == Take(clean, PreviewLength)
  {
    LeadingCleanFound(text, t, clean);
  }

  /** A Quran example earns the ayah question exactly when its cleaned Arabic text is
      longer than 20 code points (unless that text itself contains `</ayah>`). */
  lemma QuranAyahQuestion(dec: Decomposition, loc: Location, arabic: string,
                          translations: Option<seq<TranslationEntry>>, words: Option<seq<WordEntry>>,
                          preview: string)
    requires QuranExample(dec, loc, arabic, translations, words).Some?
    requires !Contains(Clean(dec, arabic), Close(Ayah))
    ensures var text := QuranExample(dec, loc, arabic, translations, words).value;
            Derive(AskElement(AyahPrompt, preview), text) in TrainingPairs(Preparation, [text])
            <==> |Clean(dec, arabic)| > AyahThreshold && preview == Take(Clean(dec, arabic), PreviewLength)
  {
    var text := QuranExample(dec, loc, arabic, translations, words).value;
    var clean := Clean(dec, arabic);
    TrainingPairsSingle(Preparation, text);
    AyahQuestionExactly(Preparation, text, preview);
    LeadingQuestion(text, Ayah, clean, Preparation.ayah, preview);
  }

  /** A hadith example with Arabic text earns the hadith question exactly when that
      cleaned text is longer than 30 code points (unless it contains `</hadith>`). */
  lemma HadithQuestion(dec: Decomposition, collection: string, h: HadithEntry, preview: string)
    requires HadithExample(dec, collection, h).Some?
    requires Clean(dec, h.textArabic.GetOr("")) != ""
    requires !Contains(Clean(dec, h.textArabic.GetOr("")), Close(Hadith))
    ensures var text := HadithExample(dec, collection, h).value;
            var clean := Clean(dec, h.textArabic.GetOr(""));
            Derive(AskElement(HadithPrompt, preview), text) in TrainingPairs(Preparation, [text])
            <==> |clean| > HadithThreshold && preview == Take(clean, PreviewLength)
  {
    var text := HadithExample(dec, collection, h).value;
    var clean := Clean(dec, h.textArabic.GetOr(""));
    TrainingPairsSingle(Preparation, text);
    HadithQuestionExactly(Preparation, text, preview);
    LeadingQuestion(text, Hadith, clean, Preparation.hadith, preview);
  }

  /** A tafsir example earns the ayah question on the same terms as a Quran example. */
  lemma TafsirAyahQuestion(text: string, clean: string, commentary: string, loc: Location, preview: string)
    requires TafsirFrame(text, clean, commentary, loc)
    requires Tidy(clean) && !Contains(clean, Close(Ayah))
    ensures Derive(AskElement(AyahPrompt, preview), text) in TrainingPairs(Preparation, [text])
            <==> |clean| > AyahThreshold && preview == Take(clean, PreviewLength)
  {
    TafsirFrameOpens(text, clean, commentary, loc);
    TrainingPairsSingle(Preparation, text);
    AyahQuestionExactly(Preparation, text, preview);
    LeadingQuestion(text, Ayah, clean, Preparation.ayah, preview);
  }
}
