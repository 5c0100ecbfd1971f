/** The training script's older loaders: each record becomes one tagged string that is
    cleaned as a whole; no record is skipped, and a missing key aborts the load. Its
    `prepare_data` concatenates Quran, Hadith and Tafsir output and adds questions for
    every ayah and hadith. */
module LegacyLoaders {
  import opened Strings
  import opened Wrappers
  import opened Normalizer
  import opened Tags
  import opened Records
  import opened Seqs
  import opened Extract
  import opened Augment
  import opened Split
  import opened Legacy

  /** The decomposition table leaves the characters of every marker alone, as Unicode's
      does for ASCII. */
  predicate FixesMarkers(dec: Decomposition) {
    forall c :: IsMarkerChar(c) ==> dec(c) == [c]
  }

  /** The cleaner keeps a leading opening marker. */
  lemma NormalizeKeepsOpen(dec: Decomposition, t: Tag, raw: string)
    requires FixesMarkers(dec) && StartsWith(raw, Open(t))
    ensures StartsWith(Normalize(dec, raw), Open(t))
  {
    OpenIsFixed(dec, t);
    NameIsPlain(t);
    NormalizeKeepsLead(dec, Open(t), raw);
  }

  /** An opening marker has no whitespace, and a marker-fixing table leaves it alone. */
  lemma OpenIsFixed(dec: Decomposition, t: Tag)
    requires FixesMarkers(dec)
    ensures Plain(Open(t)) && Decomposed(dec, Open(t))
  {
    var o := Open(t);
    OpenChars(t);
    forall i | 0 <= i < |o|
      ensures !IsWs(o[i]) && dec(o[i]) == [o[i]]
    {
      assert IsMarkerChar(o[i]);
    }
  }

  /** A cleaned record: tidy whitespace, the same non-whitespace content as the NFKD of
      the tagged string, and the expected opening marker when the table fixes markers. */
  predicate CleanedRecord(dec: Decomposition, r: string, raw: string, first: Tag) {
    && Tidy(r)
    && NonWs(r) == NonWs(Nfkd(dec, raw))
    && (FixesMarkers(dec) ==> StartsWith(r, Open(first)))
  }

  /** A tidy text that, under a marker-fixing table, opens with `first`'s marker. */
  predicate Opened(dec: Decomposition, t: string, first: Tag) {
    Tidy(t) && (FixesMarkers(dec) ==> StartsWith(t, Open(first)))
  }

  /** `clean_arabic_text` of a tagged string that begins with `first`'s opening marker. */
  function CleanRecord(dec: Decomposition, raw: string, first: Tag): (r: string)
    requires StartsWith(raw, Open(first))
    ensures CleanedRecord(dec, r, raw, first)
  {
    if FixesMarkers(dec) then NormalizeKeepsOpen(dec, first, raw); Normalize(dec, raw)
    else Normalize(dec, raw)
  }

  // ---------------------------------------------------------------------------
  // Records

  /** `<ayah>text</ayah>`, then ` <translation>…</translation>` when the key is present. */
  function AyahRecord(text: string, translation: Option<string>): (r: seq<Segment>)
    ensures |r| == (if translation.Some? then 2 else 1)
    ensures r[0] == Segment(Ayah, text)
    ensures translation.Some? ==> r[1] == Segment(Translation, translation.value)
  {
    [Segment(Ayah, text)] + (if translation.Some? then [Segment(Translation, translation.value)] else [])
  }

  /** `<hadith>…</hadith>` holding `arabic` when present and `text` otherwise, then
      ` <source>…</source>` when present. */
  function HadithRecord(text: string, arabic: Option<string>, source: Option<string>): (r: seq<Segment>)
    ensures |r| == (if source.Some? then 2 else 1)
    ensures r[0] == Segment(Hadith, arabic.GetOr(text))
    ensures source.Some? ==> r[1] == Segment(Source, source.value)
  {
    [Segment(Hadith, arabic.GetOr(text))] + (if source.Some? then [Segment(Source, source.value)] else [])
  }

  /** `<tafsir>text</tafsir>`, preceded by `<verse>…</verse> ` when the key is present. */
  function TafsirRecord(text: string, verse: Option<string>): (r: seq<Segment>)
    ensures |r| == (if verse.Some? then 2 else 1)
    ensures r[|r| - 1] == Segment(Tafsir, text)
    ensures verse.Some? ==> r[0] == Segment(Verse, verse.value)
    ensures r[0].tag == (if verse.Some? then Verse else Tafsir)
  {
    (if verse.Some? then [Segment(Verse, verse.value)] else []) + [Segment(Tafsir, text)]
  }

  /** A segment followed by an optional one renders as its element, then a space and
      the second element when there is one. */
  lemma RenderThen(x: Segment, y: Option<Segment>)
    ensures Render([x] + (if y.Some? then [y.value] else []))
              == Element(x) + (if y.Some? then " " + Element(y.value) else "")
  {
    if y.Some? {
      assert ([x] + [y.value])[1..] == [y.value];
      assert Element(x) + " " + Element(y.value) == Element(x) + (" " + Element(y.value));
    } else {
      assert [x] + [] == [x];
      assert Element(x) + "" == Element(x);
    }
  }

  /** An optional segment followed by one renders as the first element and a space when
      there is one, then the second element. */
  lemma RenderAfter(x: Option<Segment>, y: Segment)
    ensures Render((if x.Some? then [x.value] else []) + [y])
              == (if x.Some? then Element(x.value) + " " else "") + Element(y)
  {
    if x.Some? {
      assert ([x.value] + [y])[1..] == [y];
    } else {
      assert [] + [y] == [y];
      assert "" + Element(y) == Element(y);
    }
  }

  /** An element whose markers are known literals is those literals around its body. */
  lemma ElementOf(t: Tag, body: string, open: string, close: string)
    requires Open(t) == open && Close(t) == close
    ensures Element(Segment(t, body)) == open + body + close
  {
  }

  /** A space before such an element joins the space to its opening literal. */
  lemma SpacedElementOf(t: Tag, body: string, open: string, close: string)
    requires " " + Open(t) == open && Close(t) == close
    ensures " " + Element(Segment(t, body)) == open + body + close
  {
    assert " " + Element(Segment(t, body)) == " " + Open(t) + body + Close(t);
  }

  /** The tagged string of an ayah is the script's
      `f"<ayah>{text}</ayah>"` plus `f" <translation>{translation}</translation>"`. */
  lemma AyahRecordString(text: string, translation: Option<string>)
    ensures Render(AyahRecord(text, translation))
              == "<ayah>" + text + "</ayah>"
                 + (if translation.Some? then " <translation>" + translation.value + "</translation>" else "")
  {
    var y := if translation.Some? then Some(Segment(Translation, translation.value)) else None;
    RenderThen(Segment(Ayah, text), y);
    ElementOf(Ayah, text, "<ayah>", "</ayah>");
    if translation.Some? {
      SpacedElementOf(Translation, translation.value, " <translation>", "</translation>");
    }
  }

  /** The tagged string of a hadith is `f"<hadith>{arabic or text}</hadith>"` plus
      `f" <source>{source}</source>"`. */
  lemma HadithRecordString(text: string, arabic: Option<string>, source: Option<string>)
    ensures Render(HadithRecord(text, arabic, source))
              == "<hadith>" + arabic.GetOr(text) + "</hadith>"
                 + (if source.Some? then " <source>" + source.value + "</source>" else "")
  {
    var y := if source.Some? then Some(Segment(Source, source.value)) else None;
    RenderThen(Segment(Hadith, arabic.GetOr(text)), y);
    ElementOf(Hadith, arabic.GetOr(text), "<hadith>", "</hadith>");
    if source.Some? {
      SpacedElementOf(Source, source.value, " <source>", "</source>");
    }
  }

  /** The tagged string of a tafsir entry is `f"<verse>{verse}</verse> "` when the verse is
      present, then `f"<tafsir>{text}</tafsir>"`. */
  lemma TafsirRecordString(text: string, verse: Option<string>)
    ensures Render(TafsirRecord(text, verse))
              == (if verse.Some? then "<verse>" + verse.value + "</verse> " else "")
                 + "<tafsir>" + text + "</tafsir>"
  {
    var x := if verse.Some? then Some(Segment(Verse, verse.value)) else None;
    RenderAfter(x, Segment(Tafsir, text));
    ElementOf(Tafsir, text, "<tafsir>", "</tafsir>");
    if verse.Some? {
      ElementOf(Verse, verse.value, "<verse>", "</verse>");
      assert Element(x.value) + " " == "<verse>" + verse.value + "</verse> ";
    }
  }

  /** A record's training text: its rendered segments, cleaned. */
  function RecordText(dec: Decomposition, segs: seq<Segment>): (r: string)
    requires |segs| > 0
    ensures CleanedRecord(dec, r, Render(segs), segs[0].tag)
  {
    RenderStart(segs);
    ElementEdges(Render(segs), segs[0]);
    CleanRecord(dec, Render(segs), segs[0].tag)
  }

  /** The training text of one ayah. */
  function AyahText(dec: Decomposition, a: LegacyAyah): (r: string)
    requires a.text.Some?
    ensures Opened(dec, r, Ayah)
    ensures NonWs(r) == NonWs(Nfkd(dec, Render(AyahRecord(a.text.value, a.translation))))
  {
    RecordText(dec, AyahRecord(a.text.value, a.translation))
  }

  /** The training text of one hadith. */
  function HadithText(dec: Decomposition, h: LegacyHadith): (r: string)
    requires h.text.Some?
    ensures Opened(dec, r, Hadith)
    ensures NonWs(r) == NonWs(Nfkd(dec, Render(HadithRecord(h.text.value, h.arabic, h.source))))
  {
    RecordText(dec, HadithRecord(h.text.value, h.arabic, h.source))
  }

  /** The training text of one tafsir entry. */
  function TafsirText(dec: Decomposition, e: LegacyTafsir): (r: string)
    requires e.text.Some?
    ensures Opened(dec, r, if e.verse.Some? then Verse else Tafsir)
    ensures NonWs(r) == NonWs(Nfkd(dec, Render(TafsirRecord(e.text.value, e.verse))))
  {
    RecordText(dec, TafsirRecord(e.text.value, e.verse))
  }

  /** A record's training text is the words of its tagged string's NFKD, each run of
      whitespace between them now one space and none at the ends. */
  lemma RecordTextWords(dec: Decomposition, segs: seq<Segment>)
    requires |segs| > 0
    ensures RecordText(dec, segs) == Join(" ", Words(Nfkd(dec, Render(segs))))
  {
    NormalizeWords(dec, Render(segs));
  }

  /** The training text of an ayah is the cleaned
      `f"<ayah>{text}</ayah>"` plus `f" <translation>{translation}</translation>"`. */
  lemma AyahTextWords(dec: Decomposition, a: LegacyAyah)
    requires a.text.Some?
    ensures AyahText(dec, a)
              == Join(" ", Words(Nfkd(dec, "<ayah>" + a.text.value + "</ayah>"
                   + (if a.translation.Some? then " <translation>" + a.translation.value + "</translation>" else ""))))
  {
    RecordTextWords(dec, AyahRecord(a.text.value, a.translation));
    AyahRecordString(a.text.value, a.translation);
  }

  /** The training text of a hadith is the cleaned `f"<hadith>{arabic or text}</hadith>"`
      plus `f" <source>{source}</source>"`. */
  lemma HadithTextWords(dec: Decomposition, h: LegacyHadith)
    requires h.text.Some?
    ensures HadithText(dec, h)
              == Join(" ", Words(Nfkd(dec, "<hadith>" + h.arabic.GetOr(h.text.value) + "</hadith>"
                   + (if h.source.Some? then " <source>" + h.source.value + "</source>" else ""))))
  {
    RecordTextWords(dec, HadithRecord(h.text.value, h.arabic, h.source));
    HadithRecordString(h.text.value, h.arabic, h.source);
  }

  /** The training text of a tafsir entry is the cleaned `f"<verse>{verse}</verse> "`, when
      the verse is present, then `f"<tafsir>{text}</tafsir>"`. */
  lemma TafsirTextWords(dec: Decomposition, e: LegacyTafsir)
    requires e.text.Some?
    ensures TafsirText(dec, e)
              == Join(" ", Words(Nfkd(dec, (if e.verse.Some? then "<verse>" + e.verse.value + "</verse> " else "")
                   + "<tafsir>" + e.text.value + "</tafsir>")))
  {
    RecordTextWords(dec, TafsirRecord(e.text.value, e.verse));
    TafsirRecordString(e.text.value, e.verse);
  }

  /** Every marker of the segments is one of the tokenizer's special tokens. */
  predicate Tokenized(segs: seq<Segment>) {
    forall k :: 0 <= k < |segs| ==> Open(segs[k].tag) in SpecialTokens && Close(segs[k].tag) in SpecialTokens
  }

  /** Segments whose tags the processor emits have every marker among the tokens. */
  lemma TagsTokenized(segs: seq<Segment>)
    requires forall k :: 0 <= k < |segs| ==> segs[k].tag in TokenTags
    ensures Tokenized(segs)
  {
    forall k | 0 <= k < |segs|
      ensures Open(segs[k].tag) in SpecialTokens && Close(segs[k].tag) in SpecialTokens
    {
      TokenTagMarkers(segs[k].tag);
    }
  }

  /** The tags this processor emits, one by one. */
  lemma EmittedTags()
    ensures Ayah in TokenTags && Hadith in TokenTags && Tafsir in TokenTags && Question in TokenTags
    ensures Translation in TokenTags && Source in TokenTags && Verse in TokenTags
  {
    assert TokenTags[0] == Ayah && TokenTags[1] == Hadith && TokenTags[2] == Tafsir;
    assert TokenTags[3] == Question && TokenTags[4] == Translation;
    assert TokenTags[5] == Source && TokenTags[6] == Verse;
  }

  /** Every tag a record or a derived question writes has its markers among the special
      tokens. */
  lemma RecordsTokenized(text: string, other: Option<string>, arabic: Option<string>)
    ensures Tokenized(AyahRecord(text, other))
    ensures Tokenized(HadithRecord(text, arabic, other))
    ensures Tokenized(TafsirRecord(text, other))
    ensures Open(Question) in SpecialTokens && Close(Question) in SpecialTokens
  {
    EmittedTags();
    AyahTokenized(text, other);
    HadithTokenized(text, arabic, other);
    TafsirTokenized(text, other);
    TokenTagMarkers(Question);
  }

  lemma AyahTokenized(text: string, translation: Option<string>)
    requires Ayah in TokenTags && Translation in TokenTags
    ensures Tokenized(AyahRecord(text, translation))
  {
    TagsTokenized(AyahRecord(text, translation));
  }

  lemma HadithTokenized(text: string, arabic: Option<string>, source: Option<string>)
    requires Hadith in TokenTags && Source in TokenTags
    ensures Tokenized(HadithRecord(text, arabic, source))
  {
    TagsTokenized(HadithRecord(text, arabic, source));
  }

  lemma TafsirTokenized(text: string, verse: Option<string>)
    requires Tafsir in TokenTags && Verse in TokenTags
    ensures Tokenized(TafsirRecord(text, verse))
  {
    TagsTokenized(TafsirRecord(text, verse));
  }

  // ---------------------------------------------------------------------------
  // Loaders

  function AyahCount(surahs: seq<LegacySurah>): nat
    requires forall k :: 0 <= k < |surahs| ==> surahs[k].ayahs.Some?
    decreases |surahs|
  {
    if |surahs| == 0 then 0 else |surahs[0].ayahs.value| + AyahCount(surahs[1..])
  }

  predicate SurahComplete(s: LegacySurah) {
    s.ayahs.Some? && forall k :: 0 <= k < |s.ayahs.value| ==> s.ayahs.value[k].text.Some?
  }

  /** One surah's ayahs, each kept; a missing `text` aborts. */
  function LoadAyahs(dec: Decomposition, ayahs: seq<LegacyAyah>): (r: Result<seq<string>, LoadError>)
    ensures r.Success? <==> forall k :: 0 <= k < |ayahs| ==> ayahs[k].text.Some?
    ensures r.Failure? ==> r.error == MissingKey("text")
    ensures r.Success? ==> |r.value| == |ayahs|
    ensures r.Success? ==> forall k :: 0 <= k < |r.value| ==> Opened(dec, r.value[k], Ayah)
    ensures r.Success? ==> forall k :: 0 <= k < |ayahs| ==> r.value[k] == AyahText(dec, ayahs[k])
  {
    if forall k :: 0 <= k < |ayahs| ==> ayahs[k].text.Some? then
      Success(seq(|ayahs|, k requires 0 <= k < |ayahs| => AyahText(dec, ayahs[k])))
    else Failure(MissingKey("text"))
  }

  function LoadSurahs(dec: Decomposition, surahs: seq<LegacySurah>): (r: Result<seq<string>, LoadError>)
    ensures r.Success? <==> forall k :: 0 <= k < |surahs| ==> SurahComplete(surahs[k])
    ensures r.Failure? ==> r.error == MissingKey("ayahs") || r.error == MissingKey("text")
    ensures r.Success? ==> |r.value| == AyahCount(surahs)
    ensures r.Success? ==> forall k :: 0 <= k < |r.value| ==> Opened(dec, r.value[k], Ayah)
    decreases |surahs|
  {
    if |surahs| == 0 then Success([])
    else if surahs[0].ayahs.None? then Failure(MissingKey("ayahs"))
    else
      var here := LoadAyahs(dec, surahs[0].ayahs.value);
      assert forall k :: 1 <= k < |surahs| ==> surahs[k] == surahs[1..][k - 1];
      if here.Failure? then here
      else
        var rest := LoadSurahs(dec, surahs[1..]);
        if rest.Failure? then rest
        else Success(here.value + rest.value)
  }

  /** `load_quran_data`: one cleaned example per ayah, none dropped. */
  function LoadQuran(dec: Decomposition, doc: Document<LegacyQuran>): (r: Result<seq<string>, LoadError>)
    ensures r == Failure(MalformedJson) <==> doc.Malformed?
    ensures r.Success? <==> && doc.Parsed? && doc.doc.surahs.Some?
                            && forall k :: 0 <= k < |doc.doc.surahs.value| ==> SurahComplete(doc.doc.surahs.value[k])
    ensures r.Success? ==> |r.value| == AyahCount(doc.doc.surahs.value)
    ensures r.Success? ==> forall k :: 0 <= k < |r.value| ==> Opened(dec, r.value[k], Ayah)
  {
    match doc
    case Malformed => Failure(MalformedJson)
    case Parsed(f) => if f.surahs.None? then Failure(MissingKey("surahs")) else LoadSurahs(dec, f.surahs.value)
  }

  /** One complete surah's training texts, in order. */
  function SurahTexts(dec: Decomposition, s: LegacySurah): (r: seq<string>)
    requires SurahComplete(s)
    ensures |r| == |s.ayahs.value|
  {
    seq(|s.ayahs.value|, k requires 0 <= k < |s.ayahs.value| => AyahText(dec, s.ayahs.value[k]))
  }

  /** The training texts of each of the complete surahs. */
  function PerSurah(dec: Decomposition, surahs: seq<LegacySurah>): (r: seq<seq<string>>)
    requires forall k :: 0 <= k < |surahs| ==> SurahComplete(surahs[k])
    ensures |r| == |surahs|
  {
    seq(|surahs|, k requires 0 <= k < |surahs| => SurahTexts(dec, surahs[k]))
  }

  /** When every surah is complete the loaded texts are each surah's ayah texts, surah
      after surah. */
  lemma {:induction false} LoadSurahsFlat(dec: Decomposition, surahs: seq<LegacySurah>)
    requires forall k :: 0 <= k < |surahs| ==> SurahComplete(surahs[k])
    ensures LoadSurahs(dec, surahs) == Success(Flatten(PerSurah(dec, surahs)))
    decreases |surahs|
  {
    if |surahs| > 0 {
      var rest := surahs[1..];
      assert forall k :: 0 <= k < |rest| ==> rest[k] == surahs[k + 1];
      LoadSurahsFlat(dec, rest);
      assert PerSurah(dec, surahs)[1..] == PerSurah(dec, rest);
      var here := LoadAyahs(dec, surahs[0].ayahs.value);
      assert here.value == SurahTexts(dec, surahs[0]);
    }
  }

  /** A complete Quran file loads as each surah's ayah texts, surah after surah. */
  lemma LoadQuranFlat(dec: Decomposition, doc: Document<LegacyQuran>)
    requires doc.Parsed? && doc.doc.surahs.Some?
    requires forall k :: 0 <= k < |doc.doc.surahs.value| ==> SurahComplete(doc.doc.surahs.value[k])
    ensures LoadQuran(dec, doc) == Success(Flatten(PerSurah(dec, doc.doc.surahs.value)))
  {
    LoadSurahsFlat(dec, doc.doc.surahs.value);
  }

  /** `load_hadith_data`: the file is a list; `text` is required even when `arabic`
      replaces it. */
  function LoadHadiths(dec: Decomposition, hadiths: seq<LegacyHadith>): (r: Result<seq<string>, LoadError>)
    ensures r.Success? <==> forall k :: 0 <= k < |hadiths| ==> hadiths[k].text.Some?
    ensures r.Failure? ==> r.error == MissingKey("text")
    ensures r.Success? ==> |r.value| == |hadiths|
    ensures r.Success? ==> forall k :: 0 <= k < |r.value| ==> Opened(dec, r.value[k], Hadith)
    ensures r.Success? ==> forall k :: 0 <= k < |hadiths| ==> r.value[k] == HadithText(dec, hadiths[k])
  {
    if forall k :: 0 <= k < |hadiths| ==> hadiths[k].text.Some? then
      Success(seq(|hadiths|, k requires 0 <= k < |hadiths| => HadithText(dec, hadiths[k])))
    else Failure(MissingKey("text"))
  }

  /** The hadith file: a malformed one fails to parse, and any hadith without `text`
      aborts the load. */
  function LoadHadith(dec: Decomposition, doc: Document<seq<LegacyHadith>>): (r: Result<seq<string>, LoadError>)
    ensures r == Failure(MalformedJson) <==> doc.Malformed?
    ensures r.Success? <==> doc.Parsed? && forall k :: 0 <= k < |doc.doc| ==> doc.doc[k].text.Some?
    ensures r.Failure? && doc.Parsed? ==> r.error == MissingKey("text")
    ensures r.Success? ==> |r.value| == |doc.doc|
    ensures r.Success? ==> forall k :: 0 <= k < |doc.doc| ==> r.value[k] == HadithText(dec, doc.doc[k])
  {
    match doc
    case Malformed => Failure(MalformedJson)
    case Parsed(hs) => LoadHadiths(dec, hs)
  }

  /** `load_tafsir_data`: the file is a list; a present `verse` goes first. */
  function LoadTafsirs(dec: Decomposition, entries: seq<LegacyTafsir>): (r: Result<seq<string>, LoadError>)
    ensures r.Success? <==> forall k :: 0 <= k < |entries| ==> entries[k].text.Some?
    ensures r.Failure? ==> r.error == MissingKey("text")
    ensures r.Success? ==> |r.value| == |entries|
    ensures r.Success? ==> forall k :: 0 <= k < |r.value| ==>
              Opened(dec, r.value[k], Verse) || Opened(dec, r.value[k], Tafsir)
    ensures r.Success? ==> forall k :: 0 <= k < |entries| ==> r.value[k] == TafsirText(dec, entries[k])
  {
    if forall k :: 0 <= k < |entries| ==> entries[k].text.Some? then
      Success(seq(|entries|, k requires 0 <= k < |entries| => TafsirText(dec, entries[k])))
    else Failure(MissingKey("text"))
  }

  /** The tafsir file: a malformed one fails to parse, and any entry without `text`
      aborts the load. */
  function LoadTafsir(dec: Decomposition, doc: Document<seq<LegacyTafsir>>): (r: Result<seq<string>, LoadError>)
    ensures r == Failure(MalformedJson) <==> doc.Malformed?
    ensures r.Success? <==> doc.Parsed? && forall k :: 0 <= k < |doc.doc| ==> doc.doc[k].text.Some?
    ensures r.Failure? && doc.Parsed? ==> r.error == MissingKey("text")
    ensures r.Success? ==> |r.value| == |doc.doc|
    ensures r.Success? ==> forall k :: 0 <= k < |doc.doc| ==> r.value[k] == TafsirText(dec, doc.doc[k])
  {
    match doc
    case Malformed => Failure(MalformedJson)
    case Parsed(es) => LoadTafsirs(dec, es)
  }

  // ---------------------------------------------------------------------------
  // prepare_data

  /** The documents behind the keys `quran`, `hadith` and `tafsir`. */
  datatype Inputs = Inputs(
    quran: Option<Document<LegacyQuran>>,
    hadith: Option<Document<seq<LegacyHadith>>>,
    tafsir: Option<Document<seq<LegacyTafsir>>>)

  function QuranPart(dec: Decomposition, doc: Option<Document<LegacyQuran>>): Result<seq<string>, LoadError>
  {
    if doc.Some? then LoadQuran(dec, doc.value) else Success([])
  }

  function HadithPart(dec: Decomposition, doc: Option<Document<seq<LegacyHadith>>>): Result<seq<string>, LoadError>
  {
    if doc.Some? then LoadHadith(dec, doc.value) else Success([])
  }

  function TafsirPart(dec: Decomposition, doc: Option<Document<seq<LegacyTafsir>>>): Result<seq<string>, LoadError>
  {
    if doc.Some? then LoadTafsir(dec, doc.value) else Success([])
  }

  /** Under a marker-fixing table no loaded text opens with `<question>`. */
  lemma OpenedUnasked(dec: Decomposition, t: string, first: Tag)
    requires FixesMarkers(dec) && Opened(dec, t, first) && first != Question
    ensures !StartsWith(t, Open(Question))
  {
    NotQuestion(t, first);
  }

  /** The loaders' output, Quran first, then Hadith and Tafsir. */
  function Gathered(dec: Decomposition, inputs: Inputs): (r: Result<seq<string>, LoadError>)
    ensures r.Success? <==> && QuranPart(dec, inputs.quran).Success?
                            && HadithPart(dec, inputs.hadith).Success?
                            && TafsirPart(dec, inputs.tafsir).Success?
    ensures r.Success? && FixesMarkers(dec) ==>
              forall k :: 0 <= k < |r.value| ==> !StartsWith(r.value[k], Open(Question))
  {
    var q := QuranPart(dec, inputs.quran);
    var h := HadithPart(dec, inputs.hadith);
    var t := TafsirPart(dec, inputs.tafsir);
    if q.Failure? then q
    else if h.Failure? then h
    else if t.Failure? then t
    else
      GatheredUnasked(dec, q.value, h.value, t.value);
      Success(q.value + h.value + t.value)
  }

  lemma GatheredUnasked(dec: Decomposition, q: seq<string>, h: seq<string>, t: seq<string>)
    requires forall k :: 0 <= k < |q| ==> Opened(dec, q[k], Ayah)
    requires forall k :: 0 <= k < |h| ==> Opened(dec, h[k], Hadith)
    requires forall k :: 0 <= k < |t| ==> Opened(dec, t[k], Verse) || Opened(dec, t[k], Tafsir)
    ensures FixesMarkers(dec) ==> forall k :: 0 <= k < |q + h + t| ==> !StartsWith((q + h + t)[k], Open(Question))
  {
    var all := q + h + t;
    if FixesMarkers(dec) {
      forall k | 0 <= k < |all|
        ensures !StartsWith(all[k], Open(Question))
      {
        if k < |q| {
          OpenedUnasked(dec, all[k], Ayah);
        } else if k < |q| + |h| {
          OpenedUnasked(dec, all[k], Hadith);
        } else if Opened(dec, all[k], Verse) {
          OpenedUnasked(dec, all[k], Verse);
        } else {
          OpenedUnasked(dec, all[k], Tafsir);
        }
      }
    }
  }

  /** `prepare_data` up to the train/validation split: the gathered texts and the ayah
      and hadith questions derived from them. */
  function PrepareData(dec: Decomposition, inputs: Inputs): (r: Result<seq<string>, LoadError>)
    ensures r.Success? <==> Gathered(dec, inputs).Success?
    ensures r.Success? ==> |Gathered(dec, inputs).value| <= |r.value| <= 3 * |Gathered(dec, inputs).value|
    ensures r.Success? && FixesMarkers(dec) ==>
              Originals(r.value) == QuranPart(dec, inputs.quran).value + HadithPart(dec, inputs.hadith).value
                                    + TafsirPart(dec, inputs.tafsir).value
  {
    var all := Gathered(dec, inputs);
    if all.Failure? then all
    else
      TrainerKeepsOriginals(dec, all.value);
      Success(TrainingPairs(Trainer, all.value))
  }

  lemma TrainerKeepsOriginals(dec: Decomposition, texts: seq<string>)
    requires FixesMarkers(dec) ==> forall k :: 0 <= k < |texts| ==> !StartsWith(texts[k], Open(Question))
    ensures FixesMarkers(dec) ==> Originals(TrainingPairs(Trainer, texts)) == texts
  {
    if FixesMarkers(dec) {
      OriginalsRecovered(Trainer, texts);
    }
  }

  /** The trainer asks about every `<ayah>` match, however short, and never asks the
      word-analysis question. */
  lemma TrainerQuestions(text: string, preview: string)
    ensures Derive(AskElement(AyahPrompt, preview), text) in Expand(Trainer, text)
            <==> FindInner(text, Ayah).Some? && preview == Take(FindInner(text, Ayah).value, PreviewLength)
    ensures Derive(AskElement(HadithPrompt, preview), text) in Expand(Trainer, text)
            <==> FindInner(text, Hadith).Some? && preview == Take(FindInner(text, Hadith).value, PreviewLength)
    ensures Derive(WordQuestion(), text) !in Expand(Trainer, text)
  {
    AyahQuestionExactly(Trainer, text, preview);
    HadithQuestionExactly(Trainer, text, preview);
    WordQuestionExactly(Trainer, text);
  }
}
