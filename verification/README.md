# Islamic training-data preparation, modelled in Dafny

This project models the text-preparation core of the Bayan al-Quran model-training
scripts. There are two versions of it.

The data-preparation script (`scripts/prepare_training_data.py`) works in four steps:
- It cleans Arabic text: Unicode NFKD, then every whitespace run collapsed to one space, then a strip.
- It turns each Quran ayah, hadith and tafsir source into one tagged training example, e.g.
  `<ayah>…</ayah> <translation>…</translation> <word_analysis>…</word_analysis> <context>Surah 1:1 - Al-Fatihah</context>`.
- Its `prepare_all_data` concatenates the output of the four loaders in a fixed order:
  Quran, Bukhari, Muslim, Tafsir.
- `create_training_pairs` then keeps every example and appends question examples after
  it. A question example is `<question>What does this ayah mean: …...</question> <original>`,
  and likewise for hadith and word analysis.

The training script (`scripts/train_islamic_model.py`) has an older version of the same
processor:
- Each record becomes one tagged string, and the cleaner runs over the whole string.
- No record is skipped.
- Its question builder has no length thresholds and no word-analysis question.
- Its tokenizer is given a list of special tokens.

Modules, in dependency order:

| file | module | what it holds |
|---|---|---|
| wrappers.dfy | `Wrappers` | `Option`, `Result` |
| strings.dfy | `Strings` | prefix/suffix/substring predicates, `s[:n]`, `sep.join`, `str(int)` |
| seqs.dfy | `Seqs` | order-keeping filter |
| normalizer.dfy | `Normalizer` | `clean_arabic_text`: NFKD as a decomposition table, `re.sub(r'\s+', ' ', …)`, `strip()` |
| split.dfy | `Split` | `s.split()` as a reference definition, and the cleaners proved equal to `' '.join(nfkd.split())` |
| tags.dfy | `Tags` | the tag vocabulary, elements `<t>body</t>`, rendering with single spaces, assembling segments in a fixed tag order |
| extract.dfy | `Extract` | `re.search(r'<t>(.*?)</t>', text).group(1)` as leftmost match with lazy group |
| records.dfy | `Records` | the parsed JSON inputs; an absent key is `None` |
| serialize.dfy | `Serialize` | the per-record string building of the three loaders |
| augment.dfy | `Augment` | `create_training_pairs` of both scripts (a `Policy` says which) |
| loaders.dfy | `Loaders` | `load_quran_data`, `load_hadith_data`, `load_tafsir_data` with their skip and abort paths |
| pipeline.dfy | `Pipeline` | `prepare_all_data` up to its statistics |
| example_questions.dfy | `ExampleQuestions` | which questions the loaders' own examples earn |
| legacy.dfy | `Legacy` | the training script's `special_tokens` |
| legacy_loaders.dfy | `LegacyLoaders` | the training script's loaders and `prepare_data` |

Modelling choices:
- Reading a file becomes a `Document<T>`: the parsed contents, or `Malformed`. An exception
  that aborts the run becomes a `Failure` carrying a `LoadError`.
- `unicodedata.normalize('NFKD', …)` is a parameter `dec: char -> seq<char>`. It is the
  full decomposition of each code point.
- Python's `\s` and `str.strip()` use `Normalizer.IsWs`, the full Unicode whitespace set of
  `str.isspace`.
- A Python `str` is a `seq<char>` with one element per code point, so `len` and `[:50]`
  count code points.

Behaviour of the code that the model keeps, though a reader might expect otherwise:
- A record missing a key the loop indexes is not skipped. `ayah['ayahNumber']`,
  `surah['nameEnglish']`, `entry['arabicText']`, `hadith_data['collection']` and the like raise
  `KeyError`, which aborts the whole run. The model returns `Failure(MissingKey(key))`.
- Malformed JSON does not always skip its source. Only `load_hadith_data` catches
  `json.JSONDecodeError`, and it returns `[]`. The Quran and Tafsir loaders let the error
  abort the run: `Failure(MalformedJson)`.
- The normalization is NFKD, the compatibility decomposition, not the canonical one.
  Idempotence holds only when the table is fully decomposed (see `Normalizer.CleanIdempotent`).
- The data-preparation script cleans an ayah's, a hadith's and a tafsir entry's Arabic text and
  a hadith's English text (`scripts/prepare_training_data.py` lines 55, 111-112 and 157). Every
  other field is written into the example uncleaned: an ayah's translations and word list, a
  hadith's narrator, grade and reference, and a tafsir's commentary, author and key points.
- The training script instead cleans each whole tagged string, translation and source included.

Two more observations follow from the model:
- The training script's tokenizer gets no special token for any tag the data-preparation
  script adds beyond its own seven. These are `<context>`, `<narrator>`, `<grade>`,
  `<reference>`, `<author>`, `<key_points>` and `<word_analysis>` (`Legacy.NotAToken`).
- `prepare_all_data` fails on a run that produces no example: the average-length statistic
  divides by `len(training_texts)`. The model reports this as `Failure(NothingLoaded)`.

## Model

| member | source | states |
|---|---|---|
| Strings.Take | scripts/prepare_training_data.py:204 | `x[:50]` is a prefix of `x`, of length 50 or all of `x` when shorter |
| Strings.DecimalRoundTrip | scripts/prepare_training_data.py:79 | the surah and ayah numbers written into `<context>` by `str()` read back as the same integers |
| Strings.JoinLength | scripts/prepare_training_data.py:177 | `sep.join(parts)` is as long as the parts plus one separator between each pair |
| Normalizer.Clean | scripts/prepare_training_data.py:23-34 | empty input gives `""`; the result has no leading, trailing or doubled whitespace and no whitespace other than a space; its non-whitespace characters are exactly those of the NFKD of the input, in order |
| Normalizer.Normalize | scripts/train_islamic_model.py:61-72 | the training script's cleaner (no empty-input guard) gives tidy text with the NFKD's non-whitespace content |
| Normalizer.CleanIsNormalize | scripts/train_islamic_model.py:61-72 | the two scripts' cleaners agree on every input: the empty-input guard changes nothing |
| Normalizer.CleanIdempotent | scripts/prepare_training_data.py:23-34 | cleaning cleaned text changes nothing, given a fully decomposed NFKD table |
| Normalizer.CleanChars | scripts/prepare_training_data.py:29-32 | every code point of a cleaned string is a space or a code point of the NFKD of the input |
| Normalizer.Collapse | scripts/prepare_training_data.py:32 | `re.sub(r'\s+', ' ', s)` is empty only for empty input and keeps a non-whitespace first character |
| Normalizer.CollapseIsCollapsed | scripts/prepare_training_data.py:32 | after `re.sub(r'\s+', ' ', s)` the only whitespace is the plain space and no two whitespace characters touch |
| Normalizer.CollapseKeepsContent | scripts/prepare_training_data.py:32 | collapsing keeps every non-whitespace character, in order |
| Normalizer.CollapseTidy | scripts/prepare_training_data.py:32 | collapsing already-collapsed text changes nothing |
| Normalizer.DropWs | scripts/prepare_training_data.py:32 | `lstrip()` removes exactly the leading whitespace: the result is a suffix that does not start with whitespace, and everything cut is whitespace |
| Normalizer.DropWsEnd | scripts/prepare_training_data.py:32 | `rstrip()` removes exactly the trailing whitespace |
| Normalizer.Strip | scripts/prepare_training_data.py:32 | `strip()` is the slice between the leading and the trailing whitespace, and does not begin or end with whitespace |
| Normalizer.StripKeepsContent | scripts/prepare_training_data.py:32 | stripping removes whitespace only |
| Normalizer.StripTidy | scripts/prepare_training_data.py:32 | stripping text without outer whitespace changes nothing |
| Normalizer.NfkdAppend | scripts/prepare_training_data.py:29 | NFKD of a concatenation is the concatenation of the NFKDs |
| Normalizer.NfkdIdempotent | scripts/prepare_training_data.py:29 | NFKD of NFKD output changes nothing, given a fully decomposed table |
| Normalizer.TidyHasNoNewline | scripts/prepare_training_data.py:32 | cleaned text contains no line break, so the lazy `.*?` of the question search can span it |
| Normalizer.NormalizeKeepsPrefix | scripts/train_islamic_model.py:83-87 | cleaning a string that starts with a whitespace-free, already-decomposed marker keeps that marker in front |
| Split.Word | scripts/prepare_training_data.py:32 | the leading non-whitespace run of a text: a prefix with no whitespace, followed by whitespace or the end, and non-empty when the text starts with a non-whitespace character |
| Split.Words | scripts/prepare_training_data.py:32 | `s.split()` yields only non-empty, whitespace-free words |
| Split.CollapseWords | scripts/prepare_training_data.py:32 | `re.sub(r'\s+', ' ', s)` of text without words is one space, or empty for empty text; otherwise it is the words of `s` joined by exactly one space, with one more space in front exactly when `s` starts with whitespace and behind exactly when it ends with whitespace |
| Split.StripCollapse | scripts/prepare_training_data.py:32 | `re.sub(r'\s+', ' ', s).strip()` is `' '.join(s.split())` |
| Split.NormalizeWords | scripts/train_islamic_model.py:61-72 | the training script's cleaner is `' '.join(nfkd.split())`: the NFKD's words, in order, with exactly one space between neighbours |
| Split.CleanWords | scripts/prepare_training_data.py:23-34 | the data-preparation cleaner is `' '.join(nfkd.split())` too, the empty-input guard included |
| Split.CleanTwoWords | scripts/prepare_training_data.py:23-34 | two decomposed words separated by any run of whitespace are cleaned to the two words with one space between them |
| Split.WordsTwo | scripts/prepare_training_data.py:32 | two words separated by any run of whitespace split into exactly those two words |
| Tags.NameRoundTrip | scripts/prepare_training_data.py:199-217 | every tag is recovered from the word between its brackets, so no two tags share a name |
| Tags.MarkersDistinct | scripts/prepare_training_data.py:199-217 | distinct tags have distinct opening and closing markers |
| Tags.NotQuestion | scripts/prepare_training_data.py:204-205 | text that opens with any other tag's marker does not open with `<question>` |
| Tags.RenderStart | scripts/prepare_training_data.py:60-79 | an example built by appending ` <t>…</t>` elements starts with its first element |
| Tags.RenderEnd | scripts/prepare_training_data.py:60-79 | such an example of two or more elements ends with a space and its last element |
| Tags.RenderAppend | scripts/prepare_training_data.py:60-79 | rendering two runs of elements one after the other puts exactly one space between them |
| Tags.Present | scripts/prepare_training_data.py:126-131 | an optional tag gets a body exactly when its value is non-empty (`if narrator:`) |
| Tags.AssembleBodies | scripts/prepare_training_data.py:115-134 | in an example built in a fixed tag order, each tag holds exactly the bodies given for it, and a tag outside the order holds none |
| Tags.AssembleInOrder | scripts/prepare_training_data.py:115-134 | such an example only uses tags of the order and never steps back in it |
| Tags.AssembleLast | scripts/prepare_training_data.py:134 | when the last tag of the order has one body, the example ends with that element |
| Extract.FindInner | scripts/prepare_training_data.py:200-202 | the search finds nothing exactly when no `<t>` is followed, on the same line, by `</t>`; otherwise its group is the one of the leftmost start with the shortest group |
| Extract.FirstMatchUnique | scripts/prepare_training_data.py:200 | the reported match is unique |
| Extract.FoundInnerIsEnclosed | scripts/prepare_training_data.py:199-202 | a found group has no line break and occurs between `<t>` and `</t>` in the text, so the text contains `<t>` |
| Extract.InnerOfLeadingElement | scripts/prepare_training_data.py:200-202 | extraction inverts serialisation: an example that begins with `<t>body</t>` yields `body`, when the body has no newline and no `</t>` |
| Augment.AskElement | scripts/prepare_training_data.py:204 | a question is `<question>`, the prompt, the preview, `...` and `</question>`, in that order and nothing else |
| Augment.Ask | scripts/prepare_training_data.py:199-205 | at most one question per tag, and each question example is a question element, one space and the original |
| Augment.AskWhenFound | scripts/prepare_training_data.py:199-201 | whenever the search finds a group that passes the threshold, the question is added: the `'<ayah>' in text` guard never blocks one |
| Augment.Expand | scripts/prepare_training_data.py:194-221 | one example becomes itself followed by at most three (training script: two) question examples derived from it |
| Augment.ExpandExactly | scripts/prepare_training_data.py:194-221 | one example becomes exactly itself, then the ayah question it earns, then the hadith question, then the word-analysis question, and nothing else; a question is earned when the search finds a group passing the threshold, quoting its first 50 code points |
| Augment.ExpandCount | scripts/prepare_training_data.py:194-221 | one example becomes one entry plus one per earned question, so an example earning none stays alone |
| Augment.AyahQuestionExactly | scripts/prepare_training_data.py:199-205 | the ayah question quoting a preview is added exactly when the first `<ayah>` group is longer than the threshold and the preview is its first 50 code points |
| Augment.HadithQuestionExactly | scripts/prepare_training_data.py:207-213 | the same for `<hadith>` with its threshold of 30 |
| Augment.WordQuestionExactly | scripts/prepare_training_data.py:216-221 | the word-analysis question is added exactly when the policy has one and a `<word_analysis>` group exists |
| Augment.DeriveInjective | scripts/prepare_training_data.py:204-205 | two questions of one kind about one example differ whenever their previews differ |
| Augment.TrainingPairs | scripts/prepare_training_data.py:188-224 | the output is at least as long as the input and at most the fan-out (4, training script 3) times longer |
| Augment.TrainingPairsAppend | scripts/prepare_training_data.py:194-221 | augmentation works example by example: augmenting a concatenation concatenates the augmentations |
| Augment.CreateTrainingPairs | scripts/prepare_training_data.py:192-224 | the appending loop computes exactly the example-by-example augmentation |
| Augment.OriginalsOfExpand | scripts/prepare_training_data.py:196-221 | of one example's expansion, only the example itself does not start with `<question>` |
| Augment.OriginalsRecovered | scripts/prepare_training_data.py:194-196 | when no input starts with `<question>`, dropping the question examples from the output gives back exactly the input, in order |
| Augment.DerivedFollowOriginal | scripts/prepare_training_data.py:194-221 | the k-th input sits at its offset in the output, and every entry up to the next input's offset is a question derived from it |
| Serialize.TranslationTexts | scripts/prepare_training_data.py:63-66 | the emitted translations are the entries whose `text` is present and non-empty; none is emitted only when every entry lacks one |
| Serialize.WordPairs | scripts/prepare_training_data.py:70-73 | one `arabic:meaning` item per word that has both keys; none exactly when no word has both |
| Serialize.TranslationTextsFiltered | scripts/prepare_training_data.py:63-66 | the emitted translations are exactly the entries' `text` values, in entry order, with the missing and empty ones left out |
| Serialize.WordPairsOfComplete | scripts/prepare_training_data.py:70-73 | the k-th item is `arabic:meaning` of the k-th word that has both keys, in word order, and no other word contributes |
| Serialize.WordAnalysisField | scripts/prepare_training_data.py:69-76 | `<word_analysis>` is present exactly when `words` is present and some word has both `arabic` and `meaning` |
| Serialize.QuranSegments | scripts/prepare_training_data.py:55-79 | an ayah is dropped exactly when its cleaned Arabic text is empty; otherwise it opens with `<ayah>` holding the cleaned text and closes with its `<context>` |
| Serialize.QuranSegmentsShape | scripts/prepare_training_data.py:60-79 | a kept ayah holds the cleaned text, the translations, the word list and `Surah n:a - name`, each under its own tag, in that tag order |
| Serialize.QuranExample | scripts/prepare_training_data.py:55-81 | the example string of a kept ayah starts with `<ayah>clean</ayah>` and ends with ` <context>Surah n:a - name</context>` |
| Serialize.HadithBuild | scripts/prepare_training_data.py:115-134 | a hadith opens with `<hadith>` when its cleaned Arabic text is non-empty and always closes with `<context>collection</context>` |
| Serialize.HadithBuildShape | scripts/prepare_training_data.py:115-134 | each of the six hadith tags holds its value exactly when that value is non-empty, in the fixed tag order, with the collection as the one context |
| Serialize.HadithText | scripts/prepare_training_data.py:115-134 | a hadith example without cleaned Arabic text begins with a space; otherwise it begins with the `<hadith>` element; it ends with the context element |
| Serialize.HadithExample | scripts/prepare_training_data.py:104-134 | a hadith is skipped exactly when both raw texts are missing or empty, so one whose texts clean to nothing is still kept |
| Serialize.KeyPointsField | scripts/prepare_training_data.py:176-178 | `<key_points>` is present exactly when the list is non-empty |
| Serialize.TafsirBuild | scripts/prepare_training_data.py:171-181 | a tafsir example opens with the ayah, then the commentary, and closes with the context |
| Serialize.TafsirBuildShape | scripts/prepare_training_data.py:163-181 | ayah, commentary, author (default `Unknown`), key points when non-empty, and context, each under its own tag, in that order |
| Serialize.TafsirTextFrame | scripts/prepare_training_data.py:171-181 | a tafsir example string begins with its ayah and commentary elements and ends with its context element |
| Serialize.EntryTexts | scripts/prepare_training_data.py:157-183 | an entry whose cleaned Arabic text is empty yields nothing; otherwise one example per source with a non-empty commentary |
| Serialize.EntryTextsFrame | scripts/prepare_training_data.py:162-183 | the k-th example of an entry carries the k-th kept source's commentary, in source order |
| Loaders.AyahTexts | scripts/prepare_training_data.py:50-81 | one ayah yields at most one example, opened by `<ayah>` and closed by `</context>` |
| Loaders.AyahTextsFrame | scripts/prepare_training_data.py:54-81 | an ayah yields nothing exactly when its cleaned Arabic text is empty; otherwise its example starts with `<ayah>` holding that cleaned text and ends with ` <context>Surah n:a - name</context>` |
| Loaders.LoadAyahs | scripts/prepare_training_data.py:50-82 | a surah's ayahs load exactly when each has `ayahNumber` and `arabicText`; at most one example per ayah |
| Loaders.LoadAyahsFlat | scripts/prepare_training_data.py:50-82 | when every ayah has its keys, a surah yields the examples of its ayahs concatenated in ayah order |
| Loaders.LoadSurahs | scripts/prepare_training_data.py:46-82 | the surahs load exactly when every key the loop indexes is present; a missing one aborts with that key |
| Loaders.LoadQuran | scripts/prepare_training_data.py:36-85 | malformed JSON aborts; otherwise the file loads exactly when every required key is present, and every example is opened by `<ayah>` and closed by `</context>` |
| Loaders.LoadSurahsFlat | scripts/prepare_training_data.py:46-82 | when every surah and ayah has its keys, the surahs yield their ayahs' examples, surah by surah and ayah by ayah |
| Loaders.LoadQuranFlat | scripts/prepare_training_data.py:36-85 | a complete Quran file yields exactly the examples of every ayah of every surah, in file order |
| Loaders.HadithTexts | scripts/prepare_training_data.py:102-136 | one example per hadith with some text; each opens with `<hadith>` or a space and closes with `</context>` |
| Loaders.HadithTextsContent | scripts/prepare_training_data.py:102-136 | the k-th example is built from the cleaned Arabic and English texts, the metadata and the collection of the k-th hadith that has some text |
| Loaders.LoadHadith | scripts/prepare_training_data.py:87-139 | malformed JSON yields no examples; a missing `collection` or `hadiths` aborts with that key; otherwise the examples are those of the hadiths with some text, in order, under the file's collection |
| Loaders.LoadEntries | scripts/prepare_training_data.py:152-183 | the entries load exactly when each has `ayahNumber` and `arabicText`; every example is opened by `<ayah>` and closed by `</context>` |
| Loaders.LoadEntriesFlat | scripts/prepare_training_data.py:152-183 | when every entry has its keys, the entries yield their examples concatenated in entry order |
| Loaders.LoadTafsir | scripts/prepare_training_data.py:141-186 | malformed JSON aborts; otherwise the file loads exactly when `tafsir` and every entry's required keys are present |
| Loaders.LoadTafsirFlat | scripts/prepare_training_data.py:141-186 | a complete tafsir file yields its entries' examples in order, located in its `surahName` or `Unknown` and its `surahNumber` or 0 |
| Pipeline.Gathered | scripts/prepare_training_data.py:253-272 | the concatenation succeeds exactly when every loader that runs succeeds, and no gathered example starts with `<question>` |
| Pipeline.GatheredUnasked | scripts/prepare_training_data.py:253-272 | Quran, hadith and tafsir examples concatenated in any amounts hold no example opening with `<question>` |
| Pipeline.PrepareAll | scripts/prepare_training_data.py:249-288 | the run succeeds exactly when every loader succeeds and something was loaded; the output is 1 to 4 times longer, and dropping its questions gives Quran, Bukhari, Muslim and Tafsir examples in that order |
| ExampleQuestions.LeadingCleanFound | scripts/prepare_training_data.py:200-202 | the search for a tag finds exactly the cleaned text a loader put in that leading tag |
| ExampleQuestions.QuranAyahQuestion | scripts/prepare_training_data.py:199-205 | a Quran example earns the ayah question exactly when its cleaned Arabic text is longer than 20 code points, quoting its first 50 |
| ExampleQuestions.HadithQuestion | scripts/prepare_training_data.py:207-213 | a hadith example with Arabic text earns the hadith question exactly when that cleaned text is longer than 30 code points |
| ExampleQuestions.TafsirAyahQuestion | scripts/prepare_training_data.py:199-205 | a tafsir example earns the ayah question on the same terms as a Quran example |
| Legacy.SpecialTokensAreMarkers | scripts/train_islamic_model.py:156-164 | the fourteen special tokens are exactly the opening and closing markers of the seven tags the training script emits, pair by pair |
| Legacy.NotAToken | scripts/train_islamic_model.py:156-164 | no marker of any other tag is a special token |
| Legacy.TokenTagMarkers | scripts/train_islamic_model.py:156-164 | both markers of every tag the training script emits are special tokens |
| Legacy.MarkersAreTokens | scripts/train_islamic_model.py:156-164 | a tag's opening (and closing) marker is a special token exactly when the training script emits that tag |
| LegacyLoaders.CleanRecord | scripts/train_islamic_model.py:61-72 | a cleaned record is tidy, keeps the NFKD's non-whitespace content and, under a marker-fixing table, its opening marker |
| LegacyLoaders.NormalizeKeepsOpen | scripts/train_islamic_model.py:83-87 | cleaning the whole tagged string keeps its leading opening marker when the table leaves marker characters alone |
| LegacyLoaders.AyahRecord | scripts/train_islamic_model.py:83-85 | the record is `<ayah>` holding the raw text, then `<translation>` holding the translation exactly when that key is present, and nothing else |
| LegacyLoaders.HadithRecord | scripts/train_islamic_model.py:99-103 | the record is `<hadith>` holding `arabic` when that key is present and `text` otherwise, then `<source>` holding the source exactly when that key is present, and nothing else |
| LegacyLoaders.TafsirRecord | scripts/train_islamic_model.py:116-118 | the record is `<verse>` holding the verse exactly when that key is present, then `<tafsir>` holding the text, and nothing else |
| LegacyLoaders.AyahRecordString | scripts/train_islamic_model.py:83-85 | the rendered record is exactly `f"<ayah>{text}</ayah>"` followed, when a translation is present, by `f" <translation>{translation}</translation>"` |
| LegacyLoaders.HadithRecordString | scripts/train_islamic_model.py:99-103 | the rendered record is exactly `f"<hadith>{arabic or text}</hadith>"` followed, when a source is present, by `f" <source>{source}</source>"` |
| LegacyLoaders.TafsirRecordString | scripts/train_islamic_model.py:116-118 | the rendered record is exactly `f"<verse>{verse}</verse> "` when a verse is present, then `f"<tafsir>{text}</tafsir>"` |
| LegacyLoaders.RecordsTokenized | scripts/train_islamic_model.py:156-164 | every marker of an ayah, hadith or tafsir record, and of a question, is one of the special tokens |
| LegacyLoaders.AyahText | scripts/train_islamic_model.py:83-87 | one ayah's training text is tidy, opened by `<ayah>` under a marker-fixing table, with the tagged record's content |
| LegacyLoaders.HadithText | scripts/train_islamic_model.py:99-105 | the same for a hadith and `<hadith>` |
| LegacyLoaders.TafsirText | scripts/train_islamic_model.py:116-120 | the same for a tafsir entry and `<verse>` or `<tafsir>` |
| LegacyLoaders.RecordTextWords | scripts/train_islamic_model.py:61-72 | a record's training text is the words of its rendered string's NFKD joined by exactly one space |
| LegacyLoaders.AyahTextWords | scripts/train_islamic_model.py:83-87 | an ayah's training text is `clean_arabic_text` of its f-string: the words of the NFKD of `<ayah>text</ayah>` plus the optional translation element, joined by one space |
| LegacyLoaders.HadithTextWords | scripts/train_islamic_model.py:99-105 | the same for a hadith's f-string, with `arabic` replacing `text` when present and the optional source element |
| LegacyLoaders.TafsirTextWords | scripts/train_islamic_model.py:116-120 | the same for a tafsir entry's f-string, the optional verse element in front |
| LegacyLoaders.LoadAyahs | scripts/train_islamic_model.py:81-87 | the ayahs load exactly when each has `text`, else the load aborts with that key; the k-th text is the k-th ayah's training text |
| LegacyLoaders.LoadSurahs | scripts/train_islamic_model.py:80-87 | one text per ayah across all surahs; a missing `ayahs` or `text` aborts |
| LegacyLoaders.LoadQuran | scripts/train_islamic_model.py:74-89 | malformed JSON aborts; the file loads exactly when every key is present, with one text per ayah and none dropped |
| LegacyLoaders.LoadSurahsFlat | scripts/train_islamic_model.py:80-87 | when every surah has `ayahs` and every ayah `text`, the texts are each surah's ayah texts, surah after surah, ayah after ayah |
| LegacyLoaders.LoadQuranFlat | scripts/train_islamic_model.py:74-89 | a complete Quran file loads as every ayah's training text, in file order |
| LegacyLoaders.LoadHadiths | scripts/train_islamic_model.py:96-107 | the hadiths load exactly when each has `text`, even when `arabic` replaces it, else the load aborts with that key; the k-th text is the k-th hadith's training text |
| LegacyLoaders.LoadHadith | scripts/train_islamic_model.py:91-107 | malformed JSON aborts; a parsed file loads exactly when every hadith has `text`, else aborts with that key; the k-th text is the k-th hadith's training text |
| LegacyLoaders.LoadTafsirs | scripts/train_islamic_model.py:114-122 | the entries load exactly when each has `text`, else the load aborts with that key; the k-th text is the k-th entry's training text |
| LegacyLoaders.LoadTafsir | scripts/train_islamic_model.py:109-122 | malformed JSON aborts; a parsed file loads exactly when every entry has `text`, else aborts with that key; the k-th text is the k-th entry's training text |
| LegacyLoaders.Gathered | scripts/train_islamic_model.py:176-192 | the concatenation succeeds exactly when every loader that runs succeeds; under a marker-fixing table no text starts with `<question>` |
| LegacyLoaders.PrepareData | scripts/train_islamic_model.py:173-196 | the output is 1 to 3 times the gathered texts, and under a marker-fixing table dropping its questions gives Quran, Hadith and Tafsir texts in that order |
| LegacyLoaders.TrainerQuestions | scripts/train_islamic_model.py:124-145 | the training script asks about every `<ayah>` and `<hadith>` match, however short, and never asks the word-analysis question |

## Left out

- File reading, `print`, `tqdm` progress bars and `os.makedirs`. A loader takes the parsed document (or `Malformed`) instead of a path, and the output is a value instead of a file.
- `save_training_data`: writing the JSON and the 100-example `.txt` dump is I/O only.
- The statistics lines of `prepare_all_data`, except the division by zero, which ends the run when no example was produced.
- The train/validation split of `prepare_data` (`train_test_split` with a seeded shuffle) is a library call. The model stops at the texts it splits. It does not model that the split itself raises for fewer than two texts.
- Canonical reordering of combining marks in NFKD. The decomposition is a per-code-point table (`dec`), so NFKD acts on each code point independently.
- JSON `null` values and values of an unexpected type (a number where a string is expected, and the like). A key is either absent or holds a value of the expected type.
- `arabic_pattern` and the commented-out filtering line: neither is used by any modelled operation.
- The tokenizer, the model, training, `train_simple_model.py` and `optimize_for_mobile.py`: none of them is part of the text preparation.
- Loaders.LoadQuran: on a missing key it states only that the key is one of the keys the loop indexes, not which of them is reported first. Its contract states the examples' shape; their content is `Loaders.LoadQuranFlat`.
- Loaders.LoadSurahs: the same weakening of the reported key. The content of its examples is `Loaders.LoadSurahsFlat`.
- Loaders.LoadAyahs: the same weakening of the reported key. The content of its examples is `Loaders.LoadAyahsFlat`.
- LegacyLoaders.CleanRecord: the kept opening marker is stated only for tables that leave the ASCII marker characters alone. Unicode's NFKD table does, but the model does not fix the table. The exact spacing of the cleaned record is `LegacyLoaders.RecordTextWords`.
- LegacyLoaders.Gathered: it states that no text opens with `<question>` only under that same assumption about the table.
- LegacyLoaders.PrepareData: it states the recovered originals only under that same assumption.
- ExampleQuestions.QuranAyahQuestion: it assumes that the cleaned Arabic text does not itself contain `</ayah>`. If it does, the search stops there.
- ExampleQuestions.HadithQuestion: it assumes the cleaned text does not contain `</hadith>`, for the same reason.
- ExampleQuestions.TafsirAyahQuestion: it assumes the cleaned text does not contain `</ayah>`, for the same reason.
- Normalizer.CleanIdempotent: idempotence is proved for a fully decomposed table only. A table that maps a code point to something that decomposes further would not be NFKD.
- Normalizer.Clean: its own contract states tidiness and the kept non-whitespace content, not where the spaces go. That each whitespace run between two words becomes exactly one space is `Split.CleanWords` (and `Split.CleanTwoWords`).
- Normalizer.Normalize: the same; the exact spacing is `Split.NormalizeWords`.
- Normalizer.Collapse: its own contract states emptiness and the first character; the full result is `Split.CollapseWords`.
- Serialize.TranslationTexts: its own contract states which entries are emitted; the values, in order, are `Serialize.TranslationTextsFiltered`.
- Serialize.WordPairs: its own contract states the count; the items, in order, are `Serialize.WordPairsOfComplete`.
- Loaders.AyahTexts: its own contract states the example's tags; its cleaned text and location are `Loaders.AyahTextsFrame`.
- Loaders.HadithTexts: its own contract states the count and shape; the content of each example is `Loaders.HadithTextsContent`.
- Loaders.LoadEntries: its own contract states the examples' shape; their content is `Loaders.LoadEntriesFlat`.
- Loaders.LoadTafsir: its own contract states the examples' shape; their content is `Loaders.LoadTafsirFlat`.
- LegacyLoaders.AyahText: its own contract states tidiness, the opening marker and the content; the exact text is `LegacyLoaders.AyahTextWords`.
- LegacyLoaders.HadithText: the same; the exact text is `LegacyLoaders.HadithTextWords`.
- LegacyLoaders.TafsirText: the same; the exact text is `LegacyLoaders.TafsirTextWords`.
- LegacyLoaders.LoadSurahs: its own contract states the count; the texts themselves are `LegacyLoaders.LoadSurahsFlat`.
- LegacyLoaders.LoadQuran: its own contract states the count; the texts themselves are `LegacyLoaders.LoadQuranFlat`.
- Legacy.SpecialTokensAreMarkers: it pairs the tokens with the tags of the training script; that every record and question marker is a token is `LegacyLoaders.RecordsTokenized`.
- Augment.Expand: its own contract states the count bound and the shape of each entry; the exact list, in order, is `Augment.ExpandExactly`.
