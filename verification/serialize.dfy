/** The per-record string building of the data-preparation loaders: each kept record
    becomes one tagged example, its segments in a fixed tag order. */
module Serialize {
  import opened Strings
  import opened Wrappers
  import opened Normalizer
  import opened Tags
  import opened Records
  import opened Seqs

  /** Where an ayah sits, for the `<context>` tag. */
  datatype Location = Location(surahNumber: int, ayahNumber: int, surahName: string)

  /** `f"Surah {surah_number}:{ayah_number} - {surah_name}"` */
  function ContextBody(loc: Location): string
  {
    "Surah " + Decimal(loc.surahNumber) + ":" + Decimal(loc.ayahNumber) + " - " + loc.surahName
  }

  // ---------------------------------------------------------------------------
  // Quran

  const QuranOrder: seq<Tag> := [Ayah, Translation, WordAnalysis, Context]

  lemma QuranOrderDistinct()
    ensures Distinct(QuranOrder)
  {
    assert NoRepeats(QuranOrder);
    NoRepeatsDistinct(QuranOrder);
  }

  /** A Quran example holds, under each of its tags, exactly the bodies listed for it. */
  lemma QuranShape(fields: seq<seq<string>>)
    requires |fields| == 4
    ensures InOrder(Assemble(QuranOrder, fields), QuranOrder)
    ensures Bodies(Assemble(QuranOrder, fields), Ayah) == fields[0]
    ensures Bodies(Assemble(QuranOrder, fields), Translation) == fields[1]
    ensures Bodies(Assemble(QuranOrder, fields), WordAnalysis) == fields[2]
    ensures Bodies(Assemble(QuranOrder, fields), Context) == fields[3]
  {
    QuranOrderDistinct();
    AssembleInOrder(QuranOrder, fields);
    AssembleBodiesAt(QuranOrder, fields, 0);
    AssembleBodiesAt(QuranOrder, fields, 1);
    AssembleBodiesAt(QuranOrder, fields, 2);
    AssembleBodiesAt(QuranOrder, fields, 3);
  }

  /** The translation texts the loop emits: each entry whose `text` key is present and
      non-empty, as given (not cleaned), in input order. */
  function TranslationTexts(ts: seq<TranslationEntry>): (r: seq<string>)
    ensures |r| <= |ts|
    ensures forall k :: 0 <= k < |r| ==> r[k] != ""
    ensures r == [] <==> forall k :: 0 <= k < |ts| ==> ts[k].text.GetOr("") == ""
    decreases |ts|
  {
    if |ts| == 0 then []
    else
      var rest := TranslationTexts(ts[1..]);
      var v := ts[0].text.GetOr("");
      assert forall k :: 1 <= k < |ts| ==> ts[k] == ts[1..][k - 1];
      (if v != "" then [v] else []) + rest
  }

  /** The `arabic:meaning` items of the words that have both keys, in input order. */
  function WordPairs(ws: seq<WordEntry>): (r: seq<string>)
    ensures |r| <= |ws|
    ensures r == [] <==> forall k :: 0 <= k < |ws| ==> ws[k].arabic.None? || ws[k].meaning.None?
    decreases |ws|
  {
    if |ws| == 0 then []
    else
      var rest := WordPairs(ws[1..]);
      assert forall k :: 1 <= k < |ws| ==> ws[k] == ws[1..][k - 1];
      (if ws[0].arabic.Some? && ws[0].meaning.Some?
       then [ws[0].arabic.value + ":" + ws[0].meaning.value] else []) + rest
  }

  /** The `text` of a translation entry, `""` when the key is missing. */
  function TextOf(t: TranslationEntry): string {
    t.text.GetOr("")
  }

  predicate NonEmpty(v: string) {
    v != ""
  }

  /** `TranslationTexts` is the list of entry texts with the empty ones filtered out. */
  lemma {:induction false} TranslationTextsFiltered(ts: seq<TranslationEntry>)
    ensures TranslationTexts(ts) == Filter(NonEmpty, Map(TextOf, ts))
    decreases |ts|
  {
    if |ts| > 0 {
      TranslationTextsFiltered(ts[1..]);
      MapCons(TextOf, ts);
      FilterCons(NonEmpty, Map(TextOf, ts));
      assert Map(TextOf, ts)[1..] == Map(TextOf, ts[1..]);
    }
  }

  /** A word entry that carries both `arabic` and `meaning`. */
  predicate Complete(w: WordEntry) {
    w.arabic.Some? && w.meaning.Some?
  }

  /** The `arabic:meaning` item of a word entry; only complete entries are rendered. */
  function PairText(w: WordEntry): string {
    w.arabic.GetOr("") + ":" + w.meaning.GetOr("")
  }

  /** `WordPairs` renders exactly the complete word entries, one item each, in order. */
  lemma {:induction false} WordPairsOfComplete(ws: seq<WordEntry>)
    ensures WordPairs(ws) == Map(PairText, Filter(Complete, ws))
    ensures forall k :: 0 <= k < |WordPairs(ws)| ==>
              var w := Filter(Complete, ws)[k];
              WordPairs(ws)[k] == w.arabic.value + ":" + w.meaning.value
    decreases |ws|
  {
    if |ws| > 0 {
      WordPairsOfComplete(ws[1..]);
      FilterCons(Complete, ws);
      var f := Filter(Complete, ws);
      if Complete(ws[0]) {
        MapCons(PairText, f);
        assert f[1..] == Filter(Complete, ws[1..]);
      }
    }
    var f := Filter(Complete, ws);
    assert forall k :: 0 <= k < |f| ==> Complete(f[k]);
  }

  /** The `<word_analysis>` body list: the items joined by `|`, when there are any. */
  function WordAnalysisField(words: Option<seq<WordEntry>>): (r: seq<string>)
    ensures |r| <= 1
    ensures r != [] <==> (words.Some? && exists k :: (0 <= k < |words.value|
                            && words.value[k].arabic.Some? && words.value[k].meaning.Some?))
  {
    match words
    case Some(ws) => if WordPairs(ws) == [] then [] else [Join("|", WordPairs(ws))]
    case None => []
  }

  function TranslationField(translations: Option<seq<TranslationEntry>>): seq<string>
  {
    match translations
    case Some(ts) => TranslationTexts(ts)
    case None => []
  }

  /** The bodies of the four Quran tags, given the cleaned Arabic text. */
  function QuranFields(clean: string, loc: Location, translations: Option<seq<TranslationEntry>>,
                       words: Option<seq<WordEntry>>): (r: seq<seq<string>>)
    ensures |r| == 4 && r[0] == [clean] && r[3] == [ContextBody(loc)]
  {
    [[clean], TranslationField(translations), WordAnalysisField(words), [ContextBody(loc)]]
  }

  /** One ayah of `load_quran_data`: dropped when its cleaned Arabic text is empty,
      otherwise `<ayah>`, its translations, the optional word analysis and `<context>`. */
  function QuranSegments(dec: Decomposition, loc: Location, arabic: string,
                         translations: Option<seq<TranslationEntry>>,
                         words: Option<seq<WordEntry>>): (r: Option<seq<Segment>>)
    ensures r.None? <==> Clean(dec, arabic) == ""
    ensures r.Some? ==> && |r.value| >= 2
                        && r.value[0] == Segment(Ayah, Clean(dec, arabic))
                        && r.value[|r.value| - 1] == Segment(Context, ContextBody(loc))
  {
    var clean := Clean(dec, arabic);
    if clean == "" then None
    else
      var fields := QuranFields(clean, loc, translations, words);
      AssembleLast(QuranOrder, fields, ContextBody(loc));
      Some(Assemble(QuranOrder, fields))
  }

  /** A kept ayah holds the cleaned text under `<ayah>`, the non-empty translations under
      `<translation>`, the word list under `<word_analysis>` and the location under
      `<context>`, in that order. */
  lemma QuranSegmentsShape(dec: Decomposition, loc: Location, arabic: string,
                           translations: Option<seq<TranslationEntry>>, words: Option<seq<WordEntry>>)
    requires QuranSegments(dec, loc, arabic, translations, words).Some?
    ensures var segs := QuranSegments(dec, loc, arabic, translations, words).value;
            && InOrder(segs, QuranOrder)
            && Bodies(segs, Ayah) == [Clean(dec, arabic)]
            && Bodies(segs, Translation) == TranslationField(translations)
            && Bodies(segs, WordAnalysis) == WordAnalysisField(words)
            && Bodies(segs, Context) == [ContextBody(loc)]
  {
    QuranShape(QuranFields(Clean(dec, arabic), loc, translations, words));
  }

  /** The example string of one ayah: it starts with `<ayah>clean</ayah>` and ends with
      ` <context>Surah n:a - name</context>`. */
  function QuranExample(dec: Decomposition, loc: Location, arabic: string,
                        translations: Option<seq<TranslationEntry>>,
                        words: Option<seq<WordEntry>>): (r: Option<string>)
    ensures r.None? <==> Clean(dec, arabic) == ""
    ensures r.Some? ==> StartsWith(r.value, Element(Segment(Ayah, Clean(dec, arabic))))
    ensures r.Some? ==> EndsWith(r.value, " " + Element(Segment(Context, ContextBody(loc))))
  {
    match QuranSegments(dec, loc, arabic, translations, words)
    case None => None
    case Some(segs) =>
      RenderStart(segs);
      RenderEnd(segs);
      Some(Render(segs))
  }

  // ---------------------------------------------------------------------------
  // Hadith

  const HadithOrder: seq<Tag> := [Hadith, Translation, Narrator, Grade, Reference, Context]

  lemma HadithOrderDistinct()
    ensures Distinct(HadithOrder)
  {
    assert NoRepeats(HadithOrder);
    NoRepeatsDistinct(HadithOrder);
  }

  lemma HadithShape(fields: seq<seq<string>>)
    requires |fields| == 6
    ensures InOrder(Assemble(HadithOrder, fields), HadithOrder)
    ensures Bodies(Assemble(HadithOrder, fields), Hadith) == fields[0]
    ensures Bodies(Assemble(HadithOrder, fields), Translation) == fields[1]
    ensures Bodies(Assemble(HadithOrder, fields), Narrator) == fields[2]
    ensures Bodies(Assemble(HadithOrder, fields), Grade) == fields[3]
    ensures Bodies(Assemble(HadithOrder, fields), Reference) == fields[4]
    ensures Bodies(Assemble(HadithOrder, fields), Context) == fields[5]
  {
    HadithOrderDistinct();
    AssembleInOrder(HadithOrder, fields);
    AssembleBodiesAt(HadithOrder, fields, 0);
    AssembleBodiesAt(HadithOrder, fields, 1);
    AssembleBodiesAt(HadithOrder, fields, 2);
    AssembleBodiesAt(HadithOrder, fields, 3);
    AssembleBodiesAt(HadithOrder, fields, 4);
    AssembleBodiesAt(HadithOrder, fields, 5);
  }

  /** The bodies of the six hadith tags, given the two cleaned texts. */
  function HadithFields(arabic: string, english: string, collection: string, h: HadithEntry)
    : (r: seq<seq<string>>)
    ensures |r| == 6 && r[0] == Present(arabic) && r[5] == [collection]
  {
    [Present(arabic), Present(english), Present(h.narrator.GetOr("")),
     Present(h.grade.GetOr("")), Present(h.reference.GetOr("")), [collection]]
  }

  /** The segments of a kept hadith, given its two cleaned texts: `<hadith>` first when
      the Arabic text is non-empty, `<context>collection</context>` last. */
  function HadithBuild(arabic: string, english: string, collection: string, h: HadithEntry): (r: seq<Segment>)
    ensures |r| > 0 && r[|r| - 1] == Segment(Context, collection)
    ensures arabic != "" ==> |r| >= 2 && r[0] == Segment(Hadith, arabic)
  {
    var fields := HadithFields(arabic, english, collection, h);
    AssembleLast(HadithOrder, fields, collection);
    Assemble(HadithOrder, fields)
  }

  /** Each optional hadith tag appears exactly when its value is non-empty, in the fixed
      order, and the collection name is the one `<context>` body. */
  lemma HadithBuildShape(arabic: string, english: string, collection: string, h: HadithEntry)
    ensures var r := HadithBuild(arabic, english, collection, h);
            && InOrder(r, HadithOrder)
            && Bodies(r, Hadith) == Present(arabic)
            && Bodies(r, Translation) == Present(english)
            && Bodies(r, Narrator) == Present(h.narrator.GetOr(""))
            && Bodies(r, Grade) == Present(h.grade.GetOr(""))
            && Bodies(r, Reference) == Present(h.reference.GetOr(""))
            && Bodies(r, Context) == [collection]
  {
    HadithShape(HadithFields(arabic, english, collection, h));
  }

  /** An optional lead followed by a rendering that ends in its last element: with an
      empty lead and two or more segments it starts with the first element, with a
      one-space lead it starts with a space. */
  lemma LeadRender(lead: string, segs: seq<Segment>)
    requires |segs| > 0 && (lead == " " || (lead == "" && |segs| >= 2))
    ensures StartsWith(lead + Render(segs), lead + Element(segs[0]))
    ensures EndsWith(lead + Render(segs), " " + Element(segs[|segs| - 1]))
  {
    RenderStart(segs);
    StartsWithAfter(lead, Render(segs), Element(segs[0]));
    if |segs| >= 2 {
      RenderEnd(segs);
      EndsWithAfter(lead, Render(segs), " " + Element(segs[|segs| - 1]));
    } else {
      RenderSingle(segs);
    }
  }

  /** The example string of a kept hadith, given its two cleaned texts. The loop starts
      from `""` and prefixes every element after `<hadith>` with a space, so an example
      without `<hadith>` begins with a space. */
  function HadithText(arabic: string, english: string, collection: string, h: HadithEntry): (r: string)
    ensures arabic != "" ==> StartsWith(r, Element(Segment(Hadith, arabic)))
    ensures arabic == "" ==> |r| > 0 && r[0] == ' '
    ensures EndsWith(r, " " + Element(Segment(Context, collection)))
  {
    var segs := HadithBuild(arabic, english, collection, h);
    if arabic == "" then
      LeadRender(" ", segs);
      " " + Render(segs)
    else
      RenderStart(segs);
      RenderEnd(segs);
      Render(segs)
  }

  /** One hadith of `load_hadith_data` as a string, `None` when it is skipped. */
  function HadithExample(dec: Decomposition, collection: string, h: HadithEntry): (r: Option<string>)
    ensures r.None? <==> h.textArabic.GetOr("") == "" && h.textEnglish.GetOr("") == ""
    ensures r.Some? && Clean(dec, h.textArabic.GetOr("")) != "" ==>
              StartsWith(r.value, Element(Segment(Hadith, Clean(dec, h.textArabic.GetOr("")))))
    ensures r.Some? && Clean(dec, h.textArabic.GetOr("")) == "" ==> |r.value| > 0 && r.value[0] == ' '
    ensures r.Some? ==> EndsWith(r.value, " " + Element(Segment(Context, collection)))
  {
    if h.textArabic.GetOr("") == "" && h.textEnglish.GetOr("") == "" then None
    else Some(HadithText(Clean(dec, h.textArabic.GetOr("")), Clean(dec, h.textEnglish.GetOr("")),
                         collection, h))
  }

  // ---------------------------------------------------------------------------
  // Tafsir

  const TafsirOrder: seq<Tag> := [Ayah, Tafsir, Author, KeyPoints, Context]

  /** The `<key_points>` body list: the points joined by `" | "`, when the list is
      non-empty (even if its items are empty strings). */
  function KeyPointsField(points: seq<string>): (r: seq<string>)
    ensures |r| <= 1 && (r == [] <==> points == [])
  {
    if points == [] then [] else [Join(" | ", points)]
  }

  lemma TafsirOrderDistinct()
    ensures Distinct(TafsirOrder)
  {
    assert NoRepeats(TafsirOrder);
    NoRepeatsDistinct(TafsirOrder);
  }

  lemma TafsirShape(fields: seq<seq<string>>)
    requires |fields| == 5
    ensures InOrder(Assemble(TafsirOrder, fields), TafsirOrder)
    ensures Bodies(Assemble(TafsirOrder, fields), Ayah) == fields[0]
    ensures Bodies(Assemble(TafsirOrder, fields), Tafsir) == fields[1]
    ensures Bodies(Assemble(TafsirOrder, fields), Author) == fields[2]
    ensures Bodies(Assemble(TafsirOrder, fields), KeyPoints) == fields[3]
    ensures Bodies(Assemble(TafsirOrder, fields), Context) == fields[4]
  {
    TafsirOrderDistinct();
    AssembleInOrder(TafsirOrder, fields);
    AssembleBodiesAt(TafsirOrder, fields, 0);
    AssembleBodiesAt(TafsirOrder, fields, 1);
    AssembleBodiesAt(TafsirOrder, fields, 2);
    AssembleBodiesAt(TafsirOrder, fields, 3);
    AssembleBodiesAt(TafsirOrder, fields, 4);
  }

  /** The bodies of the five tafsir tags of one source. */
  function TafsirFields(clean: string, loc: Location, src: TafsirSource): (r: seq<seq<string>>)
    ensures |r| == 5 && r[0] == [clean] && r[1] == [src.commentary.GetOr("")]
    ensures r[4] == [ContextBody(loc)]
  {
    [[clean], [src.commentary.GetOr("")], [src.author.GetOr("Unknown")],
     KeyPointsField(src.keyPoints.GetOr([])), [ContextBody(loc)]]
  }

  /** The segments of one tafsir source of an entry whose cleaned Arabic text is `clean`:
      the ayah, then the commentary, and the context last. */
  function TafsirBuild(clean: string, loc: Location, src: TafsirSource): (r: seq<Segment>)
    ensures |r| >= 2 && r[0] == Segment(Ayah, clean)
    ensures r[1] == Segment(Tafsir, src.commentary.GetOr(""))
    ensures r[|r| - 1] == Segment(Context, ContextBody(loc))
  {
    var fields := TafsirFields(clean, loc, src);
    AssembleLast(TafsirOrder, fields, ContextBody(loc));
    AssembleSecond(TafsirOrder, fields);
    Assemble(TafsirOrder, fields)
  }

  /** Ayah, commentary, author (default "Unknown"), the key points when the list is
      non-empty, and the context, in that order. */
  lemma TafsirBuildShape(clean: string, loc: Location, src: TafsirSource)
    ensures var r := TafsirBuild(clean, loc, src);
            && InOrder(r, TafsirOrder)
            && Bodies(r, Ayah) == [clean]
            && Bodies(r, Tafsir) == [src.commentary.GetOr("")]
            && Bodies(r, Author) == [src.author.GetOr("Unknown")]
            && Bodies(r, KeyPoints) == KeyPointsField(src.keyPoints.GetOr([]))
            && Bodies(r, Context) == [ContextBody(loc)]
  {
    TafsirShape(TafsirFields(clean, loc, src));
  }

  /** A tafsir example opens with the ayah and the commentary and closes with the context. */
  predicate TafsirFrame(text: string, clean: string, commentary: string, loc: Location)
  {
    && StartsWith(text, Element(Segment(Ayah, clean)) + " " + Element(Segment(Tafsir, commentary)))
    && EndsWith(text, " " + Element(Segment(Context, ContextBody(loc))))
  }

  /** A tafsir example opens with the ayah element. */
  lemma TafsirFrameOpens(text: string, clean: string, commentary: string, loc: Location)
    requires TafsirFrame(text, clean, commentary, loc)
    ensures StartsWith(text, Element(Segment(Ayah, clean)))
  {
    var a, b := Element(Segment(Ayah, clean)), Element(Segment(Tafsir, commentary));
    assert a + " " + b == a + (" " + b);
    StartsWithPart(text, a, " " + b);
  }

  /** The example string of one tafsir source. */
  function TafsirText(clean: string, loc: Location, src: TafsirSource): string
  {
    Render(TafsirBuild(clean, loc, src))
  }

  lemma TafsirTextFrame(clean: string, loc: Location, src: TafsirSource)
    ensures TafsirFrame(TafsirText(clean, loc, src), clean, src.commentary.GetOr(""), loc)
  {
    var segs := TafsirBuild(clean, loc, src);
    RenderStartTwo(segs);
    RenderEnd(segs);
  }

  /** A source yields an example only when its commentary is non-empty. */
  predicate HasCommentary(src: TafsirSource) {
    src.commentary.GetOr("") != ""
  }

  /** The sources of an entry that yield an example, in source order. */
  function Kept(sources: seq<TafsirSource>): seq<TafsirSource>
  {
    Filter(HasCommentary, sources)
  }

  /** One entry of `load_tafsir_data`, given its cleaned Arabic text: nothing when that
      text is empty, otherwise one example per kept source, in source order. */
  function EntryTexts(clean: string, loc: Location, sources: seq<TafsirSource>): (r: seq<string>)
    ensures clean == "" ==> r == []
    ensures clean != "" ==> |r| == |Kept(sources)|
  {
    if clean == "" then []
    else
      var kept := Kept(sources);
      seq(|kept|, k requires 0 <= k < |kept| => TafsirText(clean, loc, kept[k]))
  }

  /** The k-th example of an entry opens with the ayah and the k-th kept commentary and
      closes with the context. */
  lemma EntryTextsFrame(clean: string, loc: Location, sources: seq<TafsirSource>)
    requires clean != ""
    ensures forall k :: 0 <= k < |EntryTexts(clean, loc, sources)| ==>
              TafsirFrame(EntryTexts(clean, loc, sources)[k], clean,
                          Kept(sources)[k].commentary.GetOr(""), loc)
  {
    var r := EntryTexts(clean, loc, sources);
    var kept := Kept(sources);
    forall k | 0 <= k < |r|
      ensures TafsirFrame(r[k], clean, kept[k].commentary.GetOr(""), loc)
    {
      TafsirTextFrame(clean, loc, kept[k]);
    }
  }
}
