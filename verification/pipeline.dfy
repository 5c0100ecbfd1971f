/** `prepare_all_data`: run the loaders whose key is present, concatenate their output
    in a fixed order, and augment the result with questions. */
module Pipeline {
  import opened Strings
  import opened Wrappers
  import opened Normalizer
  import opened Tags
  import opened Records
  import opened Loaders
  import opened Augment

  /** The documents behind the keys of `data_paths`; `None` when the key is absent. */
  datatype Inputs = Inputs(
    quran: Option<Document<QuranFile>>,
    hadithBukhari: Option<Document<HadithFile>>,
    hadithMuslim: Option<Document<HadithFile>>,
    tafsirFatihah: Option<Document<TafsirFile>>)

  /** A loader's outcome for a key that may be absent: an absent key loads nothing. */
  function QuranPart(dec: Decomposition, doc: Option<Document<QuranFile>>): Result<seq<string>, LoadError>
  {
    if doc.Some? then LoadQuran(dec, doc.value) else Success([])
  }

  function HadithPart(dec: Decomposition, doc: Option<Document<HadithFile>>): Result<seq<string>, LoadError>
  {
    if doc.Some? then LoadHadith(dec, doc.value) else Success([])
  }

  function TafsirPart(dec: Decomposition, doc: Option<Document<TafsirFile>>): Result<seq<string>, LoadError>
  {
    if doc.Some? then LoadTafsir(dec, doc.value) else Success([])
  }

  /** Every loader that runs succeeds. */
  predicate AllLoaded(dec: Decomposition, inputs: Inputs) {
    && QuranPart(dec, inputs.quran).Success?
    && HadithPart(dec, inputs.hadithBukhari).Success?
    && HadithPart(dec, inputs.hadithMuslim).Success?
    && TafsirPart(dec, inputs.tafsirFatihah).Success?
  }

  /** The loaders' output, Quran first, then Bukhari, Muslim and the Tafsir. */
  function Gathered(dec: Decomposition, inputs: Inputs): (r: Result<seq<string>, LoadError>)
    ensures r.Success? <==> AllLoaded(dec, inputs)
    ensures r.Success? ==> Unasked(r.value)
  {
    var q := QuranPart(dec, inputs.quran);
    var b := HadithPart(dec, inputs.hadithBukhari);
    var m := HadithPart(dec, inputs.hadithMuslim);
    var t := TafsirPart(dec, inputs.tafsirFatihah);
    if q.Failure? then q
    else if b.Failure? then b
    else if m.Failure? then m
    else if t.Failure? then t
    else
      var all := q.value + b.value + m.value + t.value;
      GatheredUnasked(q.value, b.value, m.value, t.value);
      Success(all)
  }

  lemma GatheredUnasked(q: seq<string>, b: seq<string>, m: seq<string>, t: seq<string>)
    requires AllShaped(q)
    requires forall k :: 0 <= k < |b| ==> HadithShaped(b[k])
    requires forall k :: 0 <= k < |m| ==> HadithShaped(m[k])
    requires AllShaped(t)
    ensures Unasked(q + b + m + t)
  {
    var all := q + b + m + t;
    forall k | 0 <= k < |all|
      ensures !StartsWith(all[k], Open(Question))
    {
      if k < |q| {
        NotQuestion(all[k], Ayah);
      } else if k < |q| + |b| {
        HadithUnasked(all[k]);
      } else if k < |q| + |b| + |m| {
        HadithUnasked(all[k]);
      } else {
        NotQuestion(all[k], Ayah);
      }
    }
  }

  /** A hadith example opens with `<hadith>` or a space, never with `<question>`. */
  lemma HadithUnasked(t: string)
    requires HadithShaped(t)
    ensures !StartsWith(t, Open(Question))
  {
    if StartsWith(t, Open(Hadith)) {
      NotQuestion(t, Hadith);
    } else {
      assert Open(Question)[0] == '<';
    }
  }

  /** `prepare_all_data`: the gathered examples with their questions. A run that gathers
      nothing fails on the average-length statistic, which divides by zero. */
  function PrepareAll(dec: Decomposition, inputs: Inputs): (r: Result<seq<string>, LoadError>)
    ensures r.Success? <==> AllLoaded(dec, inputs) && Gathered(dec, inputs).value != []
    ensures r == Failure(NothingLoaded) <==> AllLoaded(dec, inputs) && Gathered(dec, inputs).value == []
    ensures r.Success? ==> |Gathered(dec, inputs).value| <= |r.value| <= 4 * |Gathered(dec, inputs).value|
    ensures r.Success? ==> Originals(r.value) == QuranPart(dec, inputs.quran).value
                                                + HadithPart(dec, inputs.hadithBukhari).value
                                                + HadithPart(dec, inputs.hadithMuslim).value
                                                + TafsirPart(dec, inputs.tafsirFatihah).value
  {
    var all := Gathered(dec, inputs);
    if all.Failure? then all
    else
      var pairs := TrainingPairs(Preparation, all.value);
      OriginalsRecovered(Preparation, all.value);
      if |pairs| == 0 then Failure(NothingLoaded) else Success(pairs)
  }
}
