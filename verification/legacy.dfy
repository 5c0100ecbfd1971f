/** The older data processor of the training script: loaders that tag each record and
    clean the whole tagged string, the questions it derives, and the special tokens the
    tokenizer is given. */
module Legacy {
  import opened Strings
  import opened Wrappers
  import opened Normalizer
  import opened Tags
  import opened Records
  import opened Augment

  /** The tokens added to the tokenizer, in the script's order. */
  const SpecialTokens: seq<string> := [
    "<ayah>", "</ayah>",
    "<hadith>", "</hadith>",
    "<tafsir>", "</tafsir>",
    "<question>", "</question>",
    "<translation>", "</translation>",
    "<source>", "</source>",
    "<verse>", "</verse>"]

  /** The tags this processor emits. */
  const TokenTags: seq<Tag> := [Ayah, Hadith, Tafsir, Question, Translation, Source, Verse]

  /** Token `2k` opens and token `2k + 1` closes the k-th tag. */
  predicate PairsAt(tokens: seq<string>, ts: seq<Tag>, k: int)
    requires 0 <= k < |ts| && |tokens| == 2 * |ts|
  {
    tokens[2 * k] == Open(ts[k]) && tokens[2 * k + 1] == Close(ts[k])
  }

  /** The special tokens are exactly the opening and closing markers of the tags this
      processor emits, pair by pair, so every marker it writes is one token. */
  lemma SpecialTokensAreMarkers()
    ensures |SpecialTokens| == 2 * |TokenTags|
    ensures forall k :: 0 <= k < |TokenTags| ==> PairsAt(SpecialTokens, TokenTags, k)
  {
    forall k | 0 <= k < |TokenTags|
      ensures PairsAt(SpecialTokens, TokenTags, k)
    {
      TokenPair(k);
    }
  }

  lemma TokenPair(k: int)
    requires 0 <= k < |TokenTags|
    ensures PairsAt(SpecialTokens, TokenTags, k)
  {
    if k < 4 {
      TokenPairFirst(k);
    } else {
      TokenPairLast(k);
    }
  }

  /** The pairs of the ayah, hadith, tafsir and question markers. */
  lemma TokenPairFirst(k: int)
    requires 0 <= k < 4
    ensures PairsAt(SpecialTokens, TokenTags, k)
  {
    var o, c := SpecialTokens[2 * k], SpecialTokens[2 * k + 1];
    if k == 0 {
      assert o == Open(Ayah) && c == Close(Ayah);
    } else if k == 1 {
      assert o == Open(Hadith) && c == Close(Hadith);
    } else if k == 2 {
      assert o == Open(Tafsir) && c == Close(Tafsir);
    } else {
      assert o == Open(Question) && c == Close(Question);
    }
  }

  /** The pairs of the translation, source and verse markers. */
  lemma TokenPairLast(k: int)
    requires 4 <= k < 7
    ensures PairsAt(SpecialTokens, TokenTags, k)
  {
    var o, c := SpecialTokens[2 * k], SpecialTokens[2 * k + 1];
    if k == 4 {
      assert o == Open(Translation) && c == Close(Translation);
    } else if k == 5 {
      assert o == Open(Source) && c == Close(Source);
    } else {
      assert o == Open(Verse) && c == Close(Verse);
    }
  }

  /** A tag the processor emits has both of its markers among the special tokens. */
  lemma TokenTagMarkers(t: Tag)
    requires t in TokenTags
    ensures Open(t) in SpecialTokens && Close(t) in SpecialTokens
  {
    var k :| 0 <= k < |TokenTags| && TokenTags[k] == t;
    TokenPair(k);
    assert SpecialTokens[2 * k] == Open(t) && SpecialTokens[2 * k + 1] == Close(t);
  }

  /** A tag's markers are special tokens exactly when the processor emits the tag. */
  lemma MarkersAreTokens(t: Tag)
    ensures Open(t) in SpecialTokens <==> t in TokenTags
    ensures Close(t) in SpecialTokens <==> t in TokenTags
  {
    if t in TokenTags {
      TokenTagMarkers(t);
    } else {
      NotAToken(t);
    }
  }

  /** A tag the processor does not emit has no special token: the data-preparation
      script's `<context>`, `<narrator>`, `<grade>`, `<reference>`, `<author>`,
      `<key_points>` and `<word_analysis>` are split by the tokenizer like plain text. */
  lemma NotAToken(t: Tag)
    requires t !in TokenTags
    ensures Open(t) !in SpecialTokens && Close(t) !in SpecialTokens
  {
    forall j | 0 <= j < |SpecialTokens|
      ensures SpecialTokens[j] != Open(t) && SpecialTokens[j] != Close(t)
    {
      TokenDiffers(t, j);
    }
  }

  lemma TokenDiffers(t: Tag, j: int)
    requires t !in TokenTags && 0 <= j < |SpecialTokens|
    ensures SpecialTokens[j] != Open(t) && SpecialTokens[j] != Close(t)
  {
    var k := j / 2;
    TokenPair(k);
    assert SpecialTokens[j] == Open(TokenTags[k]) || SpecialTokens[j] == Close(TokenTags[k]);
    MarkerDiffers(t, TokenTags[k], SpecialTokens[j]);
  }

  /** A marker of one tag is neither marker of another. */
  lemma MarkerDiffers(t: Tag, u: Tag, tok: string)
    requires t != u && (tok == Open(u) || tok == Close(u))
    ensures tok != Open(t) && tok != Close(t)
  {
    MarkersDistinct(t, u);
    NameIsPlain(t);
    NameIsPlain(u);
    assert Open(t)[1] == Name(t)[0] && Close(t)[1] == '/';
    assert Open(u)[1] == Name(u)[0] && Close(u)[1] == '/';
  }
}
