/** An independent description of what the cleaner does to whitespace: Python's
    `s.split()` (the maximal runs of non-whitespace) joined by single spaces. The cleaner
    of both scripts is proved equal to `' '.join(nfkd.split())`, so it keeps every word
    and separates neighbouring words by exactly one space. */
module Split {
  import opened Strings
  import opened Normalizer

  /** The leading run of non-whitespace characters of `s`. */
  function Word(s: string): (w: string)
    ensures |w| <= |s| && w == s[..|w|]
    ensures Plain(w)
    ensures |w| == |s| || IsWs(s[|w|])
    ensures s != [] && !IsWs(s[0]) ==> w != []
    decreases |s|
  {
    if s == [] || IsWs(s[0]) then []
    else
      var rest := Word(s[1..]);
      assert forall i :: 1 <= i <= |rest| ==> ([s[0]] + rest)[i] == rest[i - 1];
      [s[0]] + rest
  }

  /** A word of `s.split()`: non-empty and free of whitespace. */
  predicate IsWord(w: string) {
    w != [] && Plain(w)
  }

  /** Python's `s.split()` with no argument: the maximal runs of non-whitespace, in order. */
  function Words(s: string): (ws: seq<string>)
    ensures forall k :: 0 <= k < |ws| ==> IsWord(ws[k])
    decreases |s|
  {
    var t := DropWs(s);
    if t == [] then []
    else
      var w := Word(t);
      var rest := Words(t[|w|..]);
      AllWordsCons(w, rest);
      [w] + rest
  }

  /** A word in front of a list of words gives a list of words. */
  lemma AllWordsCons(w: string, rest: seq<string>)
    requires IsWord(w) && forall k :: 0 <= k < |rest| ==> IsWord(rest[k])
    ensures forall k :: 0 <= k < |[w] + rest| ==> IsWord(([w] + rest)[k])
  {
  }

  /** `" "` when `s` ends with whitespace. */
  function Trail(s: string): string {
    if s != [] && IsWs(s[|s| - 1]) then " " else ""
  }

  /** `" "` when `s` starts with whitespace. */
  function Lead(s: string): string {
    if s != [] && IsWs(s[0]) then " " else ""
  }

  /** Words joined by a space start and end with a non-whitespace character. */
  lemma {:induction false} JoinEdges(ws: seq<string>)
    requires ws != [] && forall k :: 0 <= k < |ws| ==> IsWord(ws[k])
    ensures Join(" ", ws) != [] && !IsWs(Join(" ", ws)[0])
    ensures !IsWs(Join(" ", ws)[|Join(" ", ws)| - 1])
    decreases |ws|
  {
    var w := ws[0];
    assert IsWord(w);
    assert !IsWs(w[0]) && !IsWs(w[|w| - 1]);
    if |ws| > 1 {
      JoinEdges(ws[1..]);
      assert IsWord(ws[1..][0]);
      var rest := Join(" ", ws[1..]);
      assert Join(" ", ws) == w + " " + rest;
    }
  }

  /** Text that starts with a word splits into that word and the words after it. */
  lemma WordsCons(s: string)
    requires s != [] && !IsWs(s[0])
    ensures var w := Word(s);
            && s == w + s[|w|..]
            && Words(s) == [w] + Words(s[|w|..])
  {
    assert DropWs(s) == s;
    var w := Word(s);
    assert s == s[..|w|] + s[|w|..];
  }

  /** Leading whitespace does not change the words. */
  lemma WordsAfterWs(r: string)
    ensures Words(r) == Words(DropWs(r))
  {
    var u := DropWs(r);
    if u != [] {
      assert DropWs(u) == u;
    }
  }

  /** A non-empty suffix ends as the whole string does. */
  lemma TrailOfSuffix(s: string, u: string)
    requires u != [] && |u| <= |s| && u == s[|s| - |u|..]
    ensures Trail(u) == Trail(s)
  {
    assert u[|u| - 1] == s[|s| - 1];
  }

  /** Joining a word in front of a non-empty list adds it and one space. */
  lemma JoinCons(w: string, ws: seq<string>)
    requires ws != []
    ensures Join(" ", [w] + ws) == w + " " + Join(" ", ws)
  {
    assert ([w] + ws)[1..] == ws;
  }

  /** Text without leading whitespace collapses to its words joined by one space, plus
      one space if it ends with whitespace. */
  lemma {:induction false} CollapseFromWord(s: string)
    requires s != [] && !IsWs(s[0])
    ensures Words(s) != []
    ensures Collapse(s) == Join(" ", Words(s)) + Trail(s)
    decreases |s|
  {
    var r := s[|Word(s)|..];
    if r == [] {
      CollapseOneWord(s);
    } else if DropWs(r) == [] {
      CollapseWordThenBlank(s);
    } else {
      CollapseFromWord(DropWs(r));
      CollapseWordThenMore(s);
    }
  }

  /** `CollapseFromWord` when the text is a single word. */
  lemma CollapseOneWord(s: string)
    requires s != [] && !IsWs(s[0]) && s[|Word(s)|..] == []
    ensures Words(s) != []
    ensures Collapse(s) == Join(" ", Words(s)) + Trail(s)
  {
    WordsCons(s);
    var w := Word(s);
    CollapsePlainPrefix(w, []);
    WordsNil();
    AppendNil(w);
    AppendNil([w]);
    JoinOne(w);
    TrailOfWord(w);
  }

  /** `CollapseFromWord` when only whitespace follows the first word. */
  lemma CollapseWordThenBlank(s: string)
    requires s != [] && !IsWs(s[0])
    requires var r := s[|Word(s)|..]; r != [] && DropWs(r) == []
    ensures Words(s) != []
    ensures Collapse(s) == Join(" ", Words(s)) + Trail(s)
  {
    WordsCons(s);
    var w := Word(s);
    var r := s[|w|..];
    CollapsePlainPrefix(w, r);
    AfterWord(s);
    CollapseAtWs(r);
    WordsAfterWs(r);
    WordsNil();
    TrailOfSuffix(s, r);
    TrailOfBlank(r);
    CollapseWordSpace(w, Collapse(DropWs(r)));
  }

  /** `CollapseFromWord` when more words follow, given the claim for the rest. */
  lemma CollapseWordThenMore(s: string)
    requires s != [] && !IsWs(s[0])
    requires var u := DropWs(s[|Word(s)|..]);
             && u != [] && Words(u) != []
             && Collapse(u) == Join(" ", Words(u)) + Trail(u)
    ensures Words(s) != []
    ensures Collapse(s) == Join(" ", Words(s)) + Trail(s)
  {
    WordsCons(s);
    var w := Word(s);
    var r := s[|w|..];
    var u := DropWs(r);
    CollapsePlainPrefix(w, r);
    AfterWord(s);
    CollapseAtWs(r);
    WordsAfterWs(r);
    TrailOfSuffix(s, r);
    TrailOfSuffix(r, u);
    JoinCons(w, Words(u));
    ConcatSpaced(w, Join(" ", Words(u)), Trail(u));
  }

  /** What follows the first word is empty or starts with whitespace. */
  lemma AfterWord(s: string)
    ensures var r := s[|Word(s)|..];
            (r == [] || IsWs(r[0])) && |r| <= |s| && r == s[|s| - |r|..]
  {
  }

  /** A whitespace character in front collapses, with the run it starts, to one space. */
  lemma CollapseAtWs(r: string)
    requires r != [] && IsWs(r[0])
    ensures Collapse(r) == [' '] + Collapse(DropWs(r))
  {
  }

  /** Nothing has no words. */
  lemma WordsNil()
    ensures Words([]) == []
  {
  }

  /** One part joins to itself. */
  lemma JoinOne(w: string)
    ensures Join(" ", [w]) == w
  {
  }

  /** A word does not end with whitespace. */
  lemma TrailOfWord(w: string)
    requires IsWord(w)
    ensures Trail(w) == ""
  {
    assert !IsWs(w[|w| - 1]);
  }

  /** All-whitespace text ends with whitespace. */
  lemma TrailOfBlank(r: string)
    requires r != [] && DropWs(r) == []
    ensures Trail(r) == " "
  {
    assert IsWs(r[|r| - 1]);
  }

  /** The case of `CollapseFromWord` where only whitespace follows the first word. */
  lemma CollapseWordSpace(w: string, c: string)
    requires c == []
    ensures w + ([' '] + c) == Join(" ", [w] + []) + " "
  {
    AppendNil([' ']);
    AppendNil([w]);
    JoinOne(w);
  }

  lemma AppendNil<T>(a: seq<T>)
    ensures a + [] == a && [] + a == a
  {
  }

  lemma ConcatSpaced(a: string, b: string, c: string)
    ensures a + ([' '] + (b + c)) == a + " " + b + c
  {
  }

  lemma Assoc3<T>(a: seq<T>, b: seq<T>, c: seq<T>)
    ensures a + (b + c) == a + b + c
  {
  }

  lemma PairConcat<T>(a: T, b: T)
    ensures [a] + [b] == [a, b]
  {
  }

  /** `re.sub(r'\s+', ' ', s)` characterised by the words of `s`: all-whitespace text
      becomes one space (or stays empty), and otherwise the words are joined by one space,
      with one more space in front or behind where `s` has whitespace there. */
  lemma CollapseWords(s: string)
    ensures Words(s) == [] ==> Collapse(s) == (if s == [] then "" else " ")
    ensures Words(s) != [] ==> Collapse(s) == Lead(s) + Join(" ", Words(s)) + Trail(s)
  {
    if s == [] {
      WordsNil();
    } else if !IsWs(s[0]) {
      CollapseFromWord(s);
      assert Lead(s) == "";
      AppendNil(Join(" ", Words(s)));
    } else if DropWs(s) == [] {
      CollapseAtWs(s);
      WordsAfterWs(s);
      WordsNil();
      AppendNil([' ']);
    } else {
      CollapseFromWord(DropWs(s));
      CollapseLeadingWs(s);
    }
  }

  /** `CollapseWords` for text with whitespace in front of a word, given the claim for the
      text after that whitespace. */
  lemma CollapseLeadingWs(s: string)
    requires s != [] && IsWs(s[0])
    requires var u := DropWs(s);
             && u != [] && Words(u) != []
             && Collapse(u) == Join(" ", Words(u)) + Trail(u)
    ensures Words(s) != []
    ensures Collapse(s) == Lead(s) + Join(" ", Words(s)) + Trail(s)
  {
    var u := DropWs(s);
    CollapseAtWs(s);
    WordsAfterWs(s);
    TrailOfSuffix(s, u);
    assert Lead(s) == " ";
    Assoc3(" ", Join(" ", Words(u)), Trail(s));
  }

  /** Nothing or one space: what collapsing leaves on either side of the words. */
  predicate Pad(x: string) {
    x == "" || x == " "
  }

  /** Starts and ends with a non-whitespace character. */
  predicate Edged(j: string) {
    j != [] && !IsWs(j[0]) && !IsWs(j[|j| - 1])
  }

  /** Stripping removes a space on either side of text with non-whitespace ends. */
  lemma StripPadded(l: string, j: string, t: string)
    requires Pad(l) && Pad(t) && Edged(j)
    ensures Strip(l + j + t) == j
  {
    Assoc3(l, j, t);
    assert (j + t)[0] == j[0];
    DropPad(l, j + t);
    DropEndPad(j, t);
  }

  /** `lstrip` of nothing or one space in front of a non-whitespace start. */
  lemma DropPad(l: string, y: string)
    requires l == "" || l == " "
    requires y != [] && !IsWs(y[0])
    ensures DropWs(l + y) == y
  {
    if l == " " {
      assert (l + y)[1..] == y;
    } else {
      AppendNil(y);
    }
  }

  /** `rstrip` of nothing or one space behind a non-whitespace end. */
  lemma DropEndPad(j: string, t: string)
    requires t == "" || t == " "
    requires j != [] && !IsWs(j[|j| - 1])
    ensures DropWsEnd(j + t) == j
  {
    if t == " " {
      assert (j + t)[..|j|] == j;
    } else {
      AppendNil(j);
    }
  }

  /** Stripping all-whitespace collapsed text leaves nothing. */
  lemma StripBlank(n: string)
    requires Words(n) == []
    ensures Strip(Collapse(n)) == ""
  {
    CollapseWords(n);
    if n != [] {
      assert DropWs(" ") == [];
    }
  }

  /** Stripping collapsed text that has words leaves the words joined by one space. */
  lemma StripWords(n: string)
    requires Words(n) != []
    ensures Strip(Collapse(n)) == Join(" ", Words(n))
  {
    CollapseWords(n);
    PaddedWords(n);
    StripPadded(Lead(n), Join(" ", Words(n)), Trail(n));
  }

  /** The words of text that has some, joined, fit `StripPadded`. */
  lemma PaddedWords(n: string)
    requires Words(n) != []
    ensures Pad(Lead(n)) && Pad(Trail(n)) && Edged(Join(" ", Words(n)))
  {
    JoinEdges(Words(n));
  }

  /** Stripping collapsed text leaves its words joined by one space. */
  lemma StripCollapse(n: string)
    ensures Strip(Collapse(n)) == Join(" ", Words(n))
  {
    if Words(n) == [] {
      StripBlank(n);
    } else {
      StripWords(n);
    }
  }

  /** The training script's cleaner is `' '.join(nfkd.split())`: the words of the NFKD
      text, in order, separated by exactly one space. */
  lemma NormalizeWords(dec: Decomposition, s: string)
    ensures Normalize(dec, s) == Join(" ", Words(Nfkd(dec, s)))
  {
    StripCollapse(Nfkd(dec, s));
  }

  /** The data-preparation script's cleaner is `' '.join(nfkd.split())` as well (the
      empty-input guard gives the same `""`). */
  lemma CleanWords(dec: Decomposition, s: string)
    ensures Clean(dec, s) == Join(" ", Words(Nfkd(dec, s)))
  {
    if s != [] {
      NormalizeWords(dec, s);
    }
  }

  /** Two words separated by any whitespace run are cleaned to the two words with one
      space between them. */
  lemma CleanTwoWords(dec: Decomposition, a: string, gap: string, b: string)
    requires Decomposed(dec, a + gap + b)
    requires IsWord(a) && IsWord(b)
    requires gap != [] && forall i :: 0 <= i < |gap| ==> IsWs(gap[i])
    ensures Clean(dec, a + gap + b) == a + " " + b
  {
    var s := a + gap + b;
    NfkdOfDecomposed(dec, s);
    CleanWords(dec, s);
    assert Words(s) == [a, b] by {
      WordsTwo(a, gap, b);
    }
    assert Join(" ", [a, b]) == a + " " + Join(" ", [b]);
  }

  /** The words of two words with a whitespace run between them are those two words. */
  lemma WordsTwo(a: string, gap: string, b: string)
    requires IsWord(a) && IsWord(b)
    requires gap != [] && forall i :: 0 <= i < |gap| ==> IsWs(gap[i])
    ensures Words(a + gap + b) == [a, b]
  {
    Assoc3(a, gap, b);
    WordsFront(a, gap + b);
    WordsAfterRun(gap, b);
    PairConcat(a, b);
  }

  /** A word followed by nothing or whitespace is the first word. */
  lemma WordsFront(a: string, x: string)
    requires IsWord(a) && (x == [] || IsWs(x[0]))
    ensures Words(a + x) == [a] + Words(x)
  {
    var s := a + x;
    assert s[0] == a[0];
    WordOfPlain(a, x);
    WordsCons(s);
    assert s[|a|..] == x;
  }

  /** A whitespace run in front of a word leaves just that word. */
  lemma WordsAfterRun(gap: string, b: string)
    requires IsWord(b)
    requires forall i :: 0 <= i < |gap| ==> IsWs(gap[i])
    ensures Words(gap + b) == [b]
  {
    WordsAfterWs(gap + b);
    DropWsOfRun(gap, b);
    WordsOne(b);
  }

  /** A single word splits into itself. */
  lemma WordsOne(b: string)
    requires IsWord(b)
    ensures Words(b) == [b]
  {
    WordsCons(b);
    WordOfPlain(b, []);
    assert b + [] == b;
    assert b[|b|..] == [];
  }

  /** The word at the front of `p + x`, with `p` a word and `x` empty or starting with
      whitespace, is `p`. */
  lemma {:induction false} WordOfPlain(p: string, x: string)
    requires IsWord(p) && (x == [] || IsWs(x[0]))
    ensures Word(p + x) == p
    decreases |p|
  {
    var s := p + x;
    if |p| > 1 {
      WordOfPlain(p[1..], x);
      assert s[1..] == p[1..] + x;
    } else {
      assert s[1..] == x;
    }
  }

  /** `lstrip` removes a whole whitespace run in front of non-whitespace. */
  lemma {:induction false} DropWsOfRun(gap: string, b: string)
    requires forall i :: 0 <= i < |gap| ==> IsWs(gap[i])
    requires b == [] || !IsWs(b[0])
    ensures DropWs(gap + b) == b
    decreases |gap|
  {
    if gap == [] {
      assert gap + b == b;
    } else {
      assert (gap + b)[1..] == gap[1..] + b;
      DropWsOfRun(gap[1..], b);
    }
  }
}
