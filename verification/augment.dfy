/** `create_training_pairs`: every example is kept, in order, and directly followed by
    the question examples derived from it. Both versions of the script build questions
    the same way; they differ only in the length thresholds and in whether a
    word-analysis question exists, which a `Policy` records. */
module Augment {
  import opened Strings
  import opened Wrappers
  import opened Tags
  import opened Extract

  /** The inner text must be longer than this many code points (`len(x) > 20`). */
  const AyahThreshold: nat := 20
  const HadithThreshold: nat := 30
  /** A question quotes at most this many code points of the inner text (`x[:50]`). */
  const PreviewLength: nat := 50

  const AyahPrompt := "What does this ayah mean: "
  const HadithPrompt := "Explain this hadith: "
  const WordPrompt := "Analyze the words in this text"
  const Ellipsis := "..."

  /** Which inner-text lengths earn a question. */
  datatype Threshold = NoThreshold | LongerThan(n: nat) {
    predicate Admits(len: nat) {
      match this
      case NoThreshold => true
      case LongerThan(n) => len > n
    }
  }

  /** `<question>{prompt}{preview}...</question>` */
  function AskElement(prompt: string, preview: string): (r: string)
    ensures |r| == |Open(Question)| + |prompt| + |preview| + |Ellipsis| + |Close(Question)|
    ensures StartsWith(r, Open(Question) + prompt)
    ensures r[|Open(Question)| + |prompt|..|Open(Question)| + |prompt| + |preview|] == preview
    ensures EndsWith(r, Ellipsis + Close(Question))
  {
    var r := Element(Segment(Question, prompt + preview + Ellipsis));
    assert r == (Open(Question) + prompt) + preview + (Ellipsis + Close(Question));
    r
  }

  /** `<question>Analyze the words in this text</question>` */
  function WordQuestion(): (r: string)
    ensures StartsWith(r, Open(Question) + WordPrompt) && EndsWith(r, Close(Question))
  {
    Element(Segment(Question, WordPrompt))
  }

  /** A derived example: `f"{question} {text}"`. */
  function Derive(question: string, text: string): string
  {
    question + " " + text
  }

  /** The shape of every derived example: a question element, one space, the original. */
  predicate IsDerivedFrom(d: string, text: string) {
    StartsWith(d, Open(Question)) && EndsWith(d, Close(Question) + " " + text)
  }

  lemma DeriveShape(q: string, text: string)
    requires StartsWith(q, Open(Question)) && EndsWith(q, Close(Question))
    ensures IsDerivedFrom(Derive(q, text), text)
  {
    var d := Derive(q, text);
    var c := Close(Question);
    assert d == q + (" " + text);
    assert d[|d| - |c + " " + text|..] == q[|q| - |c|..] + " " + text;
  }

  lemma AskElementShape(prompt: string, preview: string)
    ensures StartsWith(AskElement(prompt, preview), Open(Question))
    ensures EndsWith(AskElement(prompt, preview), Close(Question))
  {
    var r := AskElement(prompt, preview);
    var o := Open(Question);
    assert r[..|o|] == (r[..|o + prompt|])[..|o|];
  }

  /** What one version of `create_training_pairs` asks about. */
  datatype Policy = Policy(ayah: Threshold, hadith: Threshold, wordQuestion: bool) {
    /** The most examples one input example can become. */
    function Fanout(): nat {
      if wordQuestion then 4 else 3
    }
  }

  /** scripts/prepare_training_data.py: ayah groups over 20, hadith groups over 30 code
      points, plus the word-analysis question. */
  const Preparation := Policy(LongerThan(AyahThreshold), LongerThan(HadithThreshold), true)

  /** scripts/train_islamic_model.py: every match earns a question; no word analysis. */
  const Trainer := Policy(NoThreshold, NoThreshold, false)

  /** The question a tag's inner text earns, if any: the tag must occur (`'<t>' in text`),
      the search must match, and the inner text must pass the threshold. */
  function Ask(text: string, t: Tag, prompt: string, threshold: Threshold): (r: seq<string>)
    ensures |r| <= 1
    ensures forall k :: 0 <= k < |r| ==> IsDerivedFrom(r[k], text)
  {
    if Contains(text, Open(t)) && FindInner(text, t).Some?
       && threshold.Admits(|FindInner(text, t).value|) then
      var preview := Take(FindInner(text, t).value, PreviewLength);
      AskElementShape(prompt, preview);
      DeriveShape(AskElement(prompt, preview), text);
      [Derive(AskElement(prompt, preview), text)]
    else []
  }

  /** `t`'s inner text earns a question quoting `preview`. */
  predicate Quotes(text: string, t: Tag, threshold: Threshold, preview: string) {
    && FindInner(text, t).Some?
    && threshold.Admits(|FindInner(text, t).value|)
    && preview == Take(FindInner(text, t).value, PreviewLength)
  }

  /** The fixed word-analysis question, when the policy has one and the pattern matches. */
  function AskWords(policy: Policy, text: string): seq<string>
  {
    if policy.wordQuestion && Contains(text, Open(WordAnalysis)) && FindInner(text, WordAnalysis).Some?
    then [Derive(WordQuestion(), text)] else []
  }

  /** One step of `create_training_pairs`: the original, then the question examples
      derived from it, in the order the loop appends them. */
  function Expand(policy: Policy, text: string): (r: seq<string>)
    ensures 1 <= |r| <= policy.Fanout() && r[0] == text
    ensures forall k :: 1 <= k < |r| ==> IsDerivedFrom(r[k], text)
  {
    DeriveShape(WordQuestion(), text);
    var a := Ask(text, Ayah, AyahPrompt, policy.ayah);
    var h := Ask(text, Hadith, HadithPrompt, policy.hadith);
    var w := AskWords(policy, text);
    var r := [text] + a + h + w;
    assert forall k :: 1 <= k < |r| ==> r[k] in a || r[k] in h || r[k] in w;
    r
  }

  /** `t`'s inner text is found and passes the threshold, so it earns a question. */
  predicate Earns(text: string, t: Tag, threshold: Threshold) {
    FindInner(text, t).Some? && threshold.Admits(|FindInner(text, t).value|)
  }

  /** The question `t`'s inner text earns, described by the search alone: the first
      group's first 50 code points, when the group passes the threshold. */
  function Earned(text: string, t: Tag, prompt: string, threshold: Threshold): seq<string>
  {
    if Earns(text, t, threshold)
    then [Derive(AskElement(prompt, Take(FindInner(text, t).value, PreviewLength)), text)]
    else []
  }

  /** The word-analysis question, when the policy has one and the search matches. */
  function EarnedWords(policy: Policy, text: string): seq<string>
  {
    if policy.wordQuestion && FindInner(text, WordAnalysis).Some? then [Derive(WordQuestion(), text)] else []
  }

  /** 1 for a question that is asked, 0 otherwise. */
  function Asked(b: bool): nat {
    if b then 1 else 0
  }

  /** The `'<t>' in text` guard is implied by a match, so asking is earning. */
  lemma AskIsEarned(text: string, t: Tag, prompt: string, threshold: Threshold)
    ensures Ask(text, t, prompt, threshold) == Earned(text, t, prompt, threshold)
  {
    if FindInner(text, t).Some? {
      FoundInnerIsEnclosed(text, t);
    }
  }

  lemma AskWordsIsEarned(policy: Policy, text: string)
    ensures AskWords(policy, text) == EarnedWords(policy, text)
  {
    if FindInner(text, WordAnalysis).Some? {
      FoundInnerIsEnclosed(text, WordAnalysis);
    }
  }

  /** One example becomes exactly itself, then the ayah question it earns, then the
      hadith question, then the word-analysis question, and nothing else: no question is
      repeated and none is added that the search did not earn. */
  lemma ExpandExactly(policy: Policy, text: string)
    ensures Expand(policy, text)
            == [text] + Earned(text, Ayah, AyahPrompt, policy.ayah)
               + Earned(text, Hadith, HadithPrompt, policy.hadith)
               + EarnedWords(policy, text)
  {
    AskIsEarned(text, Ayah, AyahPrompt, policy.ayah);
    AskIsEarned(text, Hadith, HadithPrompt, policy.hadith);
    AskWordsIsEarned(policy, text);
  }

  /** The number of examples one example becomes: one, plus one per earned question. In
      particular an example that earns no question stays alone. */
  lemma ExpandCount(policy: Policy, text: string)
    ensures |Expand(policy, text)|
            == 1 + Asked(Earns(text, Ayah, policy.ayah)) + Asked(Earns(text, Hadith, policy.hadith))
               + Asked(policy.wordQuestion && FindInner(text, WordAnalysis).Some?)
  {
    ExpandExactly(policy, text);
  }

  /** `create_training_pairs`. */
  function TrainingPairs(policy: Policy, texts: seq<string>): (r: seq<string>)
    ensures |texts| <= |r| <= policy.Fanout() * |texts|
    decreases |texts|
  {
    if |texts| == 0 then [] else Expand(policy, texts[0]) + TrainingPairs(policy, texts[1..])
  }

  /** Augmentation works example by example: augmenting a concatenation concatenates
      the augmentations, so the output keeps the input order. */
  lemma {:induction false} TrainingPairsAppend(policy: Policy, a: seq<string>, b: seq<string>)
    ensures TrainingPairs(policy, a + b) == TrainingPairs(policy, a) + TrainingPairs(policy, b)
    decreases |a|
  {
    if |a| == 0 {
      assert a + b == b;
    } else {
      assert (a + b)[0] == a[0];
      assert (a + b)[1..] == a[1..] + b;
      TrainingPairsAppend(policy, a[1..], b);
    }
  }

  lemma TrainingPairsSingle(policy: Policy, t: string)
    ensures TrainingPairs(policy, [t]) == Expand(policy, t)
  {
    assert TrainingPairs(policy, [t]) == Expand(policy, t) + TrainingPairs(policy, []);
  }

  /** One more example extends the augmentation by that example's expansion. */
  lemma TrainingPairsStep(policy: Policy, texts: seq<string>, i: nat)
    requires i < |texts|
    ensures TrainingPairs(policy, texts[..i + 1]) == TrainingPairs(policy, texts[..i]) + Expand(policy, texts[i])
  {
    assert texts[..i + 1] == texts[..i] + [texts[i]];
    TrainingPairsAppend(policy, texts[..i], [texts[i]]);
    TrainingPairsSingle(policy, texts[i]);
  }

  /** The loop of `create_training_pairs`, appending to `training_texts`. */
  method CreateTrainingPairs(policy: Policy, texts: seq<string>) returns (out: seq<string>)
    ensures out == TrainingPairs(policy, texts)
  {
    out := [];
    var i := 0;
    while i < |texts|
      invariant 0 <= i <= |texts|
      invariant out == TrainingPairs(policy, texts[..i])
    {
      TrainingPairsStep(policy, texts, i);
      out := out + Expand(policy, texts[i]);
      i := i + 1;
    }
    assert texts[..i] == texts;
  }

  /** The first character after `<question>` tells the three kinds of question apart. */
  lemma KindMarker(prompt: string, preview: string, text: string)
    requires |prompt| > 0
    ensures Derive(AskElement(prompt, preview), text)[|Open(Question)|] == prompt[0]
  {
    var q := AskElement(prompt, preview);
    var o := Open(Question);
    assert q[..|o + prompt|][|o|] == prompt[0];
  }

  lemma WordMarker(text: string)
    ensures Derive(WordQuestion(), text)[|Open(Question)|] == WordPrompt[0]
  {
    var q := WordQuestion();
    var o := Open(Question);
    assert q[..|o + WordPrompt|][|o|] == WordPrompt[0];
  }

  /** Two questions of one kind about one example are equal only if they quote the same
      preview. */
  lemma DeriveInjective(prompt: string, p: string, p': string, text: string)
    requires Derive(AskElement(prompt, p), text) == Derive(AskElement(prompt, p'), text)
    ensures p == p'
  {
    var q, q' := AskElement(prompt, p), AskElement(prompt, p');
    assert q == Derive(q, text)[..|q|];
    assert q' == Derive(q', text)[..|q'|];
  }

  /** Whenever the search finds a group, the example contains the opening tag, so the
      `'<t>' in text` guard never blocks a question. */
  lemma AskWhenFound(text: string, t: Tag, prompt: string, threshold: Threshold)
    requires FindInner(text, t).Some? && threshold.Admits(|FindInner(text, t).value|)
    ensures Ask(text, t, prompt, threshold)
            == [Derive(AskElement(prompt, Take(FindInner(text, t).value, PreviewLength)), text)]
  {
    FoundInnerIsEnclosed(text, t);
  }

  /** The facts that tell the three kinds of derived example apart. */
  lemma Markers(text: string)
    ensures forall p :: Derive(AskElement(AyahPrompt, p), text)[|Open(Question)|] == 'W'
    ensures forall p :: Derive(AskElement(HadithPrompt, p), text)[|Open(Question)|] == 'E'
    ensures Derive(WordQuestion(), text)[|Open(Question)|] == 'A'
  {
    forall p | true
      ensures Derive(AskElement(AyahPrompt, p), text)[|Open(Question)|] == 'W'
    {
      KindMarker(AyahPrompt, p, text);
    }
    forall p | true
      ensures Derive(AskElement(HadithPrompt, p), text)[|Open(Question)|] == 'E'
    {
      KindMarker(HadithPrompt, p, text);
    }
    WordMarker(text);
  }

  /** An example earns the ayah question quoting `preview` exactly when the first
      `<ayah>` group passes the policy's threshold and `preview` is its first 50 code
      points. */
  lemma AyahQuestionExactly(policy: Policy, text: string, preview: string)
    ensures Derive(AskElement(AyahPrompt, preview), text) in Expand(policy, text)
            <==> Quotes(text, Ayah, policy.ayah, preview)
  {
    var d := Derive(AskElement(AyahPrompt, preview), text);
    var a := Ask(text, Ayah, AyahPrompt, policy.ayah);
    Markers(text);
    assert d != text;
    if Quotes(text, Ayah, policy.ayah, preview) {
      AskWhenFound(text, Ayah, AyahPrompt, policy.ayah);
    }
    if d in a {
      DeriveInjective(AyahPrompt, preview, Take(FindInner(text, Ayah).value, PreviewLength), text);
    }
  }

  /** An example earns the hadith question quoting `preview` exactly when the first
      `<hadith>` group passes the policy's threshold and `preview` is its first 50 code
      points. */
  lemma HadithQuestionExactly(policy: Policy, text: string, preview: string)
    ensures Derive(AskElement(HadithPrompt, preview), text) in Expand(policy, text)
            <==> Quotes(text, Hadith, policy.hadith, preview)
  {
    var d := Derive(AskElement(HadithPrompt, preview), text);
    var h := Ask(text, Hadith, HadithPrompt, policy.hadith);
    Markers(text);
    assert d != text;
    if Quotes(text, Hadith, policy.hadith, preview) {
      AskWhenFound(text, Hadith, HadithPrompt, policy.hadith);
    }
    if d in h {
      DeriveInjective(HadithPrompt, preview, Take(FindInner(text, Hadith).value, PreviewLength), text);
    }
  }

  /** The fixed word-analysis question is added exactly when the policy has one and a
      `<word_analysis>…</word_analysis>` match exists. */
  lemma WordQuestionExactly(policy: Policy, text: string)
    ensures Derive(WordQuestion(), text) in Expand(policy, text)
            <==> policy.wordQuestion && FindInner(text, WordAnalysis).Some?
  {
    var d := Derive(WordQuestion(), text);
    var a, h := Ask(text, Ayah, AyahPrompt, policy.ayah), Ask(text, Hadith, HadithPrompt, policy.hadith);
    WordNotAsked(policy, text);
    if FindInner(text, WordAnalysis).Some? {
      FoundInnerIsEnclosed(text, WordAnalysis);
    }
  }

  /** The word-analysis question is neither the original nor an ayah or hadith question. */
  lemma WordNotAsked(policy: Policy, text: string)
    ensures Derive(WordQuestion(), text) != text
    ensures Derive(WordQuestion(), text) !in Ask(text, Ayah, AyahPrompt, policy.ayah)
    ensures Derive(WordQuestion(), text) !in Ask(text, Hadith, HadithPrompt, policy.hadith)
  {
    Markers(text);
  }

  /** The entries that are not derived questions. */
  function Originals(xs: seq<string>): (r: seq<string>)
    ensures |r| <= |xs|
    decreases |xs|
  {
    if |xs| == 0 then []
    else (if StartsWith(xs[0], Open(Question)) then [] else [xs[0]]) + Originals(xs[1..])
  }

  lemma {:induction false} OriginalsAppend(a: seq<string>, b: seq<string>)
    ensures Originals(a + b) == Originals(a) + Originals(b)
    decreases |a|
  {
    if |a| == 0 {
      assert a + b == b;
    } else {
      assert (a + b)[0] == a[0];
      assert (a + b)[1..] == a[1..] + b;
      OriginalsAppend(a[1..], b);
    }
  }

  lemma {:induction false} OriginalsOfDerived(xs: seq<string>, text: string)
    requires forall k :: 0 <= k < |xs| ==> IsDerivedFrom(xs[k], text)
    ensures Originals(xs) == []
    decreases |xs|
  {
    if |xs| > 0 {
      OriginalsOfDerived(xs[1..], text);
    }
  }

  /** Of one example's expansion only the example itself is an original. */
  lemma OriginalsOfExpand(policy: Policy, text: string)
    requires !StartsWith(text, Open(Question))
    ensures Originals(Expand(policy, text)) == [text]
  {
    var e := Expand(policy, text);
    assert e == [e[0]] + e[1..];
    OriginalsAppend([e[0]], e[1..]);
    OriginalsOfDerived(e[1..], text);
  }

  /** Nothing is lost or reordered: when no input example itself starts with
      `<question>`, dropping the derived examples gives back exactly the input. */
  lemma {:induction false} OriginalsRecovered(policy: Policy, texts: seq<string>)
    requires forall k :: 0 <= k < |texts| ==> !StartsWith(texts[k], Open(Question))
    ensures Originals(TrainingPairs(policy, texts)) == texts
    decreases |texts|
  {
    if |texts| > 0 {
      OriginalsAppend(Expand(policy, texts[0]), TrainingPairs(policy, texts[1..]));
      OriginalsOfExpand(policy, texts[0]);
      OriginalsRecovered(policy, texts[1..]);
      assert texts == [texts[0]] + texts[1..];
    }
  }

  /** Where the `k`-th input example lands in the output. */
  function Offset(policy: Policy, texts: seq<string>, k: nat): nat
    requires k <= |texts|
  {
    |TrainingPairs(policy, texts[..k])|
  }

  lemma TrainingPairsSplit(policy: Policy, texts: seq<string>, k: nat)
    requires k < |texts|
    ensures TrainingPairs(policy, texts[..k + 1])
            == TrainingPairs(policy, texts[..k]) + Expand(policy, texts[k])
    ensures TrainingPairs(policy, texts)
            == TrainingPairs(policy, texts[..k + 1]) + TrainingPairs(policy, texts[k + 1..])
  {
    assert texts == texts[..k + 1] + texts[k + 1..];
    assert texts[..k + 1] == texts[..k] + [texts[k]];
    TrainingPairsAppend(policy, texts[..k + 1], texts[k + 1..]);
    TrainingPairsAppend(policy, texts[..k], [texts[k]]);
    TrainingPairsSingle(policy, texts[k]);
  }

  /** The `k`-th input example sits at its offset, and every entry up to the next
      original is a question derived from it. */
  lemma DerivedFollowOriginal(policy: Policy, texts: seq<string>, k: nat)
    requires k < |texts|
    ensures Offset(policy, texts, k) < Offset(policy, texts, k + 1) <= |TrainingPairs(policy, texts)|
    ensures TrainingPairs(policy, texts)[Offset(policy, texts, k)] == texts[k]
    ensures forall m :: Offset(policy, texts, k) < m < Offset(policy, texts, k + 1) ==>
              IsDerivedFrom(TrainingPairs(policy, texts)[m], texts[k])
  {
    TrainingPairsSplit(policy, texts, k);
    var out := TrainingPairs(policy, texts);
    var e := Expand(policy, texts[k]);
    var before := TrainingPairs(policy, texts[..k]);
    assert out == before + e + TrainingPairs(policy, texts[k + 1..]);
    forall m | |before| <= m < |before| + |e|
      ensures out[m] == e[m - |before|]
    {
    }
  }
}
