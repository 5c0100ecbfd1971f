/** The parsed JSON inputs of the data-preparation script. Every object key is an
    `Option`: `None` when the key is absent from the object. */
module Records {
  import opened Wrappers

  /** One entry of an ayah's `translations` list. Only `text` is read. */
  datatype TranslationEntry = TranslationEntry(text: Option<string>)

  /** One entry of an ayah's `words` list. */
  datatype WordEntry = WordEntry(arabic: Option<string>, meaning: Option<string>)

  datatype AyahEntry = AyahEntry(
    ayahNumber: Option<int>,
    arabicText: Option<string>,
    translations: Option<seq<TranslationEntry>>,
    words: Option<seq<WordEntry>>)

  datatype SurahEntry = SurahEntry(
    nameEnglish: Option<string>,
    number: Option<int>,
    ayahs: Option<seq<AyahEntry>>)

  datatype QuranFile = QuranFile(surahs: Option<seq<SurahEntry>>)

  datatype HadithEntry = HadithEntry(
    textArabic: Option<string>,
    textEnglish: Option<string>,
    narrator: Option<string>,
    grade: Option<string>,
    reference: Option<string>)

  datatype HadithFile = HadithFile(collection: Option<string>, hadiths: Option<seq<HadithEntry>>)

  datatype TafsirSource = TafsirSource(
    author: Option<string>,
    commentary: Option<string>,
    keyPoints: Option<seq<string>>)

  datatype TafsirEntry = TafsirEntry(
    ayahNumber: Option<int>,
    arabicText: Option<string>,
    tafsirSources: Option<seq<TafsirSource>>)

  datatype TafsirFile = TafsirFile(
    surahName: Option<string>,
    surahNumber: Option<int>,
    tafsir: Option<seq<TafsirEntry>>)

  /** A source file: its parsed contents, or text that `json.load` rejects. */
  datatype Document<T> = Parsed(doc: T) | Malformed

  /** Why a run is aborted: a `KeyError` on a required key, an uncaught
      `json.JSONDecodeError`, or the `ZeroDivisionError` of the average-length statistic
      when no example was produced at all. */
  datatype LoadError = MissingKey(key: string) | MalformedJson | NothingLoaded

  // ---------------------------------------------------------------------------
  // The inputs of the training script's older loaders

  datatype LegacyAyah = LegacyAyah(text: Option<string>, translation: Option<string>)

  datatype LegacySurah = LegacySurah(ayahs: Option<seq<LegacyAyah>>)

  datatype LegacyQuran = LegacyQuran(surahs: Option<seq<LegacySurah>>)

  /** A hadith file is a top-level list of these. */
  datatype LegacyHadith = LegacyHadith(text: Option<string>, arabic: Option<string>, source: Option<string>)

  /** A tafsir file is a top-level list of these. */
  datatype LegacyTafsir = LegacyTafsir(text: Option<string>, verse: Option<string>)
}
