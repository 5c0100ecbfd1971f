/** The three loaders of the data-preparation script and the order in which
    `prepare_all_data` concatenates their output before augmentation. Reading a file is
    replaced by its parsed contents (or `Malformed`), so a loader is a pure function of
    the document. */
module Loaders {
  import opened Strings
  import opened Wrappers
  import opened Seqs
  import opened Normalizer
  import opened Tags
  import opened Records
  import opened Serialize
  import opened Augment

  /** The training text of a Quran or Tafsir example: opened by `<ayah>`, closed by
      `</context>`. */
  predicate AyahShaped(t: string) {
    StartsWith(t, Open(Ayah)) && EndsWith(t, Close(Context))
  }

  /** Every text of the list is Quran-shaped. */
  predicate AllShaped(ts: seq<string>) {
    forall k :: 0 <= k < |ts| ==> AyahShaped(ts[k])
  }

  /** Concatenating lists of Quran-shaped texts keeps every text shaped. */
  lemma ShapedAppend(a: seq<string>, b: seq<string>)
    requires AllShaped(a) && AllShaped(b)
    ensures AllShaped(a + b)
  {
    forall k | 0 <= k < |a + b|
      ensures AyahShaped((a + b)[k])
    {
      if k < |a| {
        assert (a + b)[k] == a[k];
      } else {
        assert (a + b)[k] == b[k - |a|];
      }
    }
  }

  /** The training text of a hadith: opened by `<hadith>` or, without Arabic text, by the
      space before `<translation>`; closed by `</context>`. */
  predicate HadithShaped(t: string) {
    && (StartsWith(t, Open(Hadith)) || (|t| > 0 && t[0] == ' '))
    && EndsWith(t, Close(Context))
  }

  /** No loader output is itself a question. */
  predicate Unasked(texts: seq<string>) {
    forall k :: 0 <= k < |texts| ==> !StartsWith(texts[k], Open(Question))
  }

  // ---------------------------------------------------------------------------
  // Quran

  /** The keys `load_quran_data` indexes with `[...]`. */
  const QuranKeys: set<string> := {"surahs", "nameEnglish", "number", "ayahs", "ayahNumber", "arabicText"}

  predicate AyahComplete(a: AyahEntry) {
    a.ayahNumber.Some? && a.arabicText.Some?
  }

  predicate SurahComplete(s: SurahEntry) {
    && s.nameEnglish.Some? && s.number.Some? && s.ayahs.Some?
    && forall k :: 0 <= k < |s.ayahs.value| ==> AyahComplete(s.ayahs.value[k])
  }

  /** Every key the Quran loop reads is present. */
  predicate QuranComplete(f: QuranFile) {
    f.surahs.Some? && forall k :: 0 <= k < |f.surahs.value| ==> SurahComplete(f.surahs.value[k])
  }

  /** A Quran example is opened by `<ayah>` and closed by `</context>`. */
  lemma QuranExampleShaped(t: string, clean: string, loc: Location)
    requires StartsWith(t, Element(Segment(Ayah, clean)))
    requires EndsWith(t, " " + Element(Segment(Context, ContextBody(loc))))
    ensures AyahShaped(t)
  {
    ElementEdges(t, Segment(Ayah, clean));
    EndsWithPart(t, " ", Element(Segment(Context, ContextBody(loc))));
    ElementEdges(t, Segment(Context, ContextBody(loc)));
  }

  /** The example one ayah yields, if any. */
  function AyahTexts(dec: Decomposition, name: string, number: int, a: AyahEntry): (r: seq<string>)
    requires AyahComplete(a)
    ensures |r| <= 1
    ensures AllShaped(r)
  {
    var e := QuranExample(dec, Location(number, a.ayahNumber.value, name), a.arabicText.value,
                          a.translations, a.words);
    AyahExampleShaped(dec, name, number, a);
    if e.Some? then [e.value] else []
  }

  lemma AyahExampleShaped(dec: Decomposition, name: string, number: int, a: AyahEntry)
    requires AyahComplete(a)
    ensures var e := QuranExample(dec, Location(number, a.ayahNumber.value, name), a.arabicText.value,
                                  a.translations, a.words);
            e.Some? ==> AyahShaped(e.value)
  {
    var loc := Location(number, a.ayahNumber.value, name);
    var e := QuranExample(dec, loc, a.arabicText.value, a.translations, a.words);
    if e.Some? {
      QuranExampleShaped(e.value, Clean(dec, a.arabicText.value), loc);
    }
  }

  /** The example of a kept ayah holds its cleaned text first and its location last. */
  lemma AyahTextsFrame(dec: Decomposition, name: string, number: int, a: AyahEntry)
    requires AyahComplete(a)
    ensures AyahTexts(dec, name, number, a) == [] <==> Clean(dec, a.arabicText.value) == ""
    ensures var r := AyahTexts(dec, name, number, a);
            r != [] ==>
              && StartsWith(r[0], Element(Segment(Ayah, Clean(dec, a.arabicText.value))))
              && EndsWith(r[0], " " + Element(Segment(Context,
                   ContextBody(Location(number, a.ayahNumber.value, name)))))
  {
  }

  /** The ayahs of one surah, in order; a missing `ayahNumber` or `arabicText` aborts. */
  function LoadAyahs(dec: Decomposition, name: string, number: int, ayahs: seq<AyahEntry>)
    : (r: Result<seq<string>, LoadError>)
    ensures r.Success? <==> forall k :: 0 <= k < |ayahs| ==> AyahComplete(ayahs[k])
    ensures r.Success? ==> |r.value| <= |ayahs|
    ensures r.Success? ==> AllShaped(r.value)
    ensures r.Failure? ==> r.error.MissingKey? && r.error.key in QuranKeys
    decreases |ayahs|
  {
    if |ayahs| == 0 then Success([])
    else
      var a := ayahs[0];
      if !AyahComplete(a) then
        Failure(MissingKey(if a.ayahNumber.None? then "ayahNumber" else "arabicText"))
      else
        var rest := LoadAyahs(dec, name, number, ayahs[1..]);
        assert forall k :: 1 <= k < |ayahs| ==> ayahs[k] == ayahs[1..][k - 1];
        if rest.Failure? then rest
        else
          var here := AyahTexts(dec, name, number, a);
          ShapedAppend(here, rest.value);
          Success(here + rest.value)
  }

  /** The examples of each ayah of a surah, one list per ayah. */
  function PerAyah(dec: Decomposition, name: string, number: int, ayahs: seq<AyahEntry>)
    : (r: seq<seq<string>>)
    requires forall k :: 0 <= k < |ayahs| ==> AyahComplete(ayahs[k])
    ensures |r| == |ayahs|
    ensures forall k :: 0 <= k < |ayahs| ==> r[k] == AyahTexts(dec, name, number, ayahs[k])
  {
    seq(|ayahs|, k requires 0 <= k < |ayahs| => AyahTexts(dec, name, number, ayahs[k]))
  }

  /** When every ayah is complete, the surah yields the examples of its ayahs, in order. */
  lemma {:induction false} LoadAyahsFlat(dec: Decomposition, name: string, number: int,
                                         ayahs: seq<AyahEntry>)
    requires forall k :: 0 <= k < |ayahs| ==> AyahComplete(ayahs[k])
    ensures LoadAyahs(dec, name, number, ayahs) == Success(Flatten(PerAyah(dec, name, number, ayahs)))
    decreases |ayahs|
  {
    if |ayahs| > 0 {
      var tail := ayahs[1..];
      assert forall k :: 0 <= k < |tail| ==> tail[k] == ayahs[k + 1];
      LoadAyahsFlat(dec, name, number, tail);
      var per := PerAyah(dec, name, number, ayahs);
      assert per[1..] == PerAyah(dec, name, number, tail);
    }
  }

  /** The surahs, in order; a missing `nameEnglish`, `number` or `ayahs` aborts. */
  function LoadSurahs(dec: Decomposition, surahs: seq<SurahEntry>): (r: Result<seq<string>, LoadError>)
    ensures r.Success? <==> forall k :: 0 <= k < |surahs| ==> SurahComplete(surahs[k])
    ensures r.Success? ==> AllShaped(r.value)
    ensures r.Failure? ==> r.error.MissingKey? && r.error.key in QuranKeys
    decreases |surahs|
  {
    if |surahs| == 0 then Success([])
    else
      var s := surahs[0];
      assert forall k :: 1 <= k < |surahs| ==> surahs[k] == surahs[1..][k - 1];
      if s.nameEnglish.None? then Failure(MissingKey("nameEnglish"))
      else if s.number.None? then Failure(MissingKey("number"))
      else if s.ayahs.None? then Failure(MissingKey("ayahs"))
      else
        var here := LoadAyahs(dec, s.nameEnglish.value, s.number.value, s.ayahs.value);
        if here.Failure? then here
        else
          var rest := LoadSurahs(dec, surahs[1..]);
          if rest.Failure? then rest
          else
            ShapedAppend(here.value, rest.value);
            Success(here.value + rest.value)
  }

  /** `load_quran_data`: an unparseable file or a missing required key aborts the run;
      otherwise one example per ayah whose cleaned Arabic text is non-empty. */
  function LoadQuran(dec: Decomposition, doc: Document<QuranFile>): (r: Result<seq<string>, LoadError>)
    ensures r == Failure(MalformedJson) <==> doc.Malformed?
    ensures r.Success? <==> doc.Parsed? && QuranComplete(doc.doc)
    ensures r.Success? ==> AllShaped(r.value)
    ensures r.Failure? && doc.Parsed? ==> r.error.MissingKey? && r.error.key in QuranKeys
  {
    match doc
    case Malformed => Failure(MalformedJson)
    case Parsed(f) =>
      if f.surahs.None? then Failure(MissingKey("surahs")) else LoadSurahs(dec, f.surahs.value)
  }

  /** The examples of one complete surah: those of its ayahs, in order. */
  function SurahTexts(dec: Decomposition, s: SurahEntry): seq<string>
    requires SurahComplete(s)
  {
    Flatten(PerAyah(dec, s.nameEnglish.value, s.number.value, s.ayahs.value))
  }

  /** The examples of each surah, one list per surah. */
  function PerSurah(dec: Decomposition, surahs: seq<SurahEntry>): (r: seq<seq<string>>)
    requires forall k :: 0 <= k < |surahs| ==> SurahComplete(surahs[k])
    ensures |r| == |surahs|
    ensures forall k :: 0 <= k < |surahs| ==> r[k] == SurahTexts(dec, surahs[k])
  {
    seq(|surahs|, k requires 0 <= k < |surahs| => SurahTexts(dec, surahs[k]))
  }

  /** When every surah is complete, the surahs yield their ayahs' examples, surah by
      surah and ayah by ayah. */
  lemma {:induction false} LoadSurahsFlat(dec: Decomposition, surahs: seq<SurahEntry>)
    requires forall k :: 0 <= k < |surahs| ==> SurahComplete(surahs[k])
    ensures LoadSurahs(dec, surahs) == Success(Flatten(PerSurah(dec, surahs)))
    decreases |surahs|
  {
    if |surahs| > 0 {
      var s := surahs[0];
      var tail := surahs[1..];
      assert forall k :: 0 <= k < |tail| ==> tail[k] == surahs[k + 1];
      LoadAyahsFlat(dec, s.nameEnglish.value, s.number.value, s.ayahs.value);
      LoadSurahsFlat(dec, tail);
      var per := PerSurah(dec, surahs);
      assert per[1..] == PerSurah(dec, tail);
    }
  }

  /** A complete Quran file yields the examples of every ayah of every surah, in order. */
  lemma LoadQuranFlat(dec: Decomposition, doc: Document<QuranFile>)
    requires doc.Parsed? && QuranComplete(doc.doc)
    ensures LoadQuran(dec, doc) == Success(Flatten(PerSurah(dec, doc.doc.surahs.value)))
  {
    LoadSurahsFlat(dec, doc.doc.surahs.value);
  }

  // ---------------------------------------------------------------------------
  // Hadith

  /** `if not arabic_text and not english_text: continue` */
  predicate HasText(h: HadithEntry) {
    h.textArabic.GetOr("") != "" || h.textEnglish.GetOr("") != ""
  }

  lemma HadithExampleShaped(dec: Decomposition, collection: string, h: HadithEntry)
    ensures HadithExample(dec, collection, h).Some? ==>
              HadithShaped(HadithExample(dec, collection, h).value)
  {
    var r := HadithExample(dec, collection, h);
    if r.Some? {
      var clean := Clean(dec, h.textArabic.GetOr(""));
      ElementEdges(r.value, Segment(Hadith, clean));
      EndsWithPart(r.value, " ", Element(Segment(Context, collection)));
      ElementEdges(r.value, Segment(Context, collection));
    }
  }

  /** The examples of a hadith list under one collection name. */
  function HadithTexts(dec: Decomposition, collection: string, hadiths: seq<HadithEntry>): (r: seq<string>)
    ensures |r| == |Filter(HasText, hadiths)|
    ensures forall k :: 0 <= k < |r| ==> HadithShaped(r[k])
  {
    var kept := Filter(HasText, hadiths);
    var r := seq(|kept|, k requires 0 <= k < |kept| => HadithExample(dec, collection, kept[k]).value);
    HadithTextsShaped(dec, collection, kept, r);
    r
  }

  lemma HadithTextsShaped(dec: Decomposition, collection: string, kept: seq<HadithEntry>, r: seq<string>)
    requires |r| == |kept|
    requires forall k :: 0 <= k < |r| ==> HadithExample(dec, collection, kept[k]) == Some(r[k])
    ensures forall k :: 0 <= k < |r| ==> HadithShaped(r[k])
  {
    forall k | 0 <= k < |r|
      ensures HadithShaped(r[k])
    {
      HadithExampleShaped(dec, collection, kept[k]);
    }
  }

  /** The k-th example is the hadith text of the k-th hadith that has some text, built
      from its cleaned Arabic and English texts. */
  lemma HadithTextsContent(dec: Decomposition, collection: string, hadiths: seq<HadithEntry>)
    ensures var kept := Filter(HasText, hadiths);
            forall k :: 0 <= k < |kept| ==>
              HadithTexts(dec, collection, hadiths)[k]
                == HadithText(Clean(dec, kept[k].textArabic.GetOr("")),
                              Clean(dec, kept[k].textEnglish.GetOr("")), collection, kept[k])
  {
  }

  /** `load_hadith_data`: an unparseable file yields no examples (the decode error is
      caught), a missing `collection` or `hadiths` key aborts, and otherwise every hadith
      with some text yields one example. */
  function LoadHadith(dec: Decomposition, doc: Document<HadithFile>): (r: Result<seq<string>, LoadError>)
    ensures doc.Malformed? ==> r == Success([])
    ensures r.Failure? <==> doc.Parsed? && (doc.doc.collection.None? || doc.doc.hadiths.None?)
    ensures r.Failure? ==> r.error == (if doc.doc.collection.None? then MissingKey("collection")
                                       else MissingKey("hadiths"))
    ensures r.Success? && doc.Parsed? ==> |r.value| == |Filter(HasText, doc.doc.hadiths.value)|
    ensures r.Success? && doc.Parsed? ==>
              r.value == HadithTexts(dec, doc.doc.collection.value, doc.doc.hadiths.value)
    ensures r.Success? ==> forall k :: 0 <= k < |r.value| ==> HadithShaped(r.value[k])
  {
    match doc
    case Malformed => Success([])
    case Parsed(f) =>
      if f.collection.None? then Failure(MissingKey("collection"))
      else if f.hadiths.None? then Failure(MissingKey("hadiths"))
      else Success(HadithTexts(dec, f.collection.value, f.hadiths.value))
  }

  // ---------------------------------------------------------------------------
  // Tafsir

  predicate EntryComplete(e: TafsirEntry) {
    e.ayahNumber.Some? && e.arabicText.Some?
  }

  lemma TafsirFrameShaped(t: string, clean: string, commentary: string, loc: Location)
    requires TafsirFrame(t, clean, commentary, loc)
    ensures AyahShaped(t)
  {
    StartsWithPart(t, Element(Segment(Ayah, clean)), " " + Element(Segment(Tafsir, commentary)));
    ElementEdges(t, Segment(Ayah, clean));
    EndsWithPart(t, " ", Element(Segment(Context, ContextBody(loc))));
    ElementEdges(t, Segment(Context, ContextBody(loc)));
  }

  lemma EntryTextsShaped(clean: string, loc: Location, sources: seq<TafsirSource>)
    ensures AllShaped(EntryTexts(clean, loc, sources))
  {
    if clean != "" {
      EntryTextsFrame(clean, loc, sources);
      var r := EntryTexts(clean, loc, sources);
      forall k | 0 <= k < |r|
        ensures AyahShaped(r[k])
      {
        TafsirFrameShaped(r[k], clean, Kept(sources)[k].commentary.GetOr(""), loc);
      }
    }
  }

  /** The entries, in order; a missing `ayahNumber` or `arabicText` aborts. */
  function LoadEntries(dec: Decomposition, name: string, number: int, entries: seq<TafsirEntry>)
    : (r: Result<seq<string>, LoadError>)
    ensures r.Success? <==> forall k :: 0 <= k < |entries| ==> EntryComplete(entries[k])
    ensures r.Success? ==> AllShaped(r.value)
    ensures r.Failure? ==> r.error == MissingKey("ayahNumber") || r.error == MissingKey("arabicText")
    decreases |entries|
  {
    if |entries| == 0 then Success([])
    else
      var e := entries[0];
      if e.ayahNumber.None? then Failure(MissingKey("ayahNumber"))
      else if e.arabicText.None? then Failure(MissingKey("arabicText"))
      else
        var rest := LoadEntries(dec, name, number, entries[1..]);
        assert forall k :: 1 <= k < |entries| ==> entries[k] == entries[1..][k - 1];
        if rest.Failure? then rest
        else
          var loc := Location(number, e.ayahNumber.value, name);
          var clean := Clean(dec, e.arabicText.value);
          var here := EntryTexts(clean, loc, e.tafsirSources.GetOr([]));
          EntryTextsShaped(clean, loc, e.tafsirSources.GetOr([]));
          ShapedAppend(here, rest.value);
          Success(here + rest.value)
  }

  /** The examples of one complete tafsir entry of the named surah. */
  function EntryExamples(dec: Decomposition, name: string, number: int, e: TafsirEntry): seq<string>
    requires EntryComplete(e)
  {
    EntryTexts(Clean(dec, e.arabicText.value), Location(number, e.ayahNumber.value, name),
               e.tafsirSources.GetOr([]))
  }

  /** The examples of each entry, one list per entry. */
  function PerEntry(dec: Decomposition, name: string, number: int, entries: seq<TafsirEntry>)
    : (r: seq<seq<string>>)
    requires forall k :: 0 <= k < |entries| ==> EntryComplete(entries[k])
    ensures |r| == |entries|
    ensures forall k :: 0 <= k < |entries| ==> r[k] == EntryExamples(dec, name, number, entries[k])
  {
    seq(|entries|, k requires 0 <= k < |entries| => EntryExamples(dec, name, number, entries[k]))
  }

  /** When every entry is complete, the entries yield their examples, in order. */
  lemma {:induction false} LoadEntriesFlat(dec: Decomposition, name: string, number: int,
                                           entries: seq<TafsirEntry>)
    requires forall k :: 0 <= k < |entries| ==> EntryComplete(entries[k])
    ensures LoadEntries(dec, name, number, entries) == Success(Flatten(PerEntry(dec, name, number, entries)))
    decreases |entries|
  {
    if |entries| > 0 {
      var tail := entries[1..];
      assert forall k :: 0 <= k < |tail| ==> tail[k] == entries[k + 1];
      LoadEntriesFlat(dec, name, number, tail);
      var per := PerEntry(dec, name, number, entries);
      assert per[1..] == PerEntry(dec, name, number, tail);
    }
  }

  /** `load_tafsir_data`: the surah name and number default to "Unknown" and 0; an
      unparseable file or a missing `tafsir`, `ayahNumber` or `arabicText` key aborts. */
  function LoadTafsir(dec: Decomposition, doc: Document<TafsirFile>): (r: Result<seq<string>, LoadError>)
    ensures r == Failure(MalformedJson) <==> doc.Malformed?
    ensures r.Success? <==> && doc.Parsed? && doc.doc.tafsir.Some?
                            && forall k :: 0 <= k < |doc.doc.tafsir.value| ==> EntryComplete(doc.doc.tafsir.value[k])
    ensures r.Success? ==> AllShaped(r.value)
  {
    match doc
    case Malformed => Failure(MalformedJson)
    case Parsed(f) =>
      if f.tafsir.None? then Failure(MissingKey("tafsir"))
      else LoadEntries(dec, f.surahName.GetOr("Unknown"), f.surahNumber.GetOr(0), f.tafsir.value)
  }

  /** A complete tafsir file yields the examples of its entries, in order, each located in
      the file's surah: its `surahName` or "Unknown", its `surahNumber` or 0. */
  lemma LoadTafsirFlat(dec: Decomposition, doc: Document<TafsirFile>)
    requires doc.Parsed? && doc.doc.tafsir.Some?
    requires forall k :: 0 <= k < |doc.doc.tafsir.value| ==> EntryComplete(doc.doc.tafsir.value[k])
    ensures LoadTafsir(dec, doc)
              == Success(Flatten(PerEntry(dec, doc.doc.surahName.GetOr("Unknown"),
                                          doc.doc.surahNumber.GetOr(0), doc.doc.tafsir.value)))
  {
    LoadEntriesFlat(dec, doc.doc.surahName.GetOr("Unknown"), doc.doc.surahNumber.GetOr(0),
                    doc.doc.tafsir.value);
  }
}
