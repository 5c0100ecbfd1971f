/** `clean_arabic_text`: Unicode NFKD, then every run of whitespace collapsed to one
    space (`re.sub(r'\s+', ' ', text)`), then both ends stripped (`str.strip()`). */
module Normalizer {
  import opened Strings

  /** A whitespace character as Python's `\s` (str patterns) and `str.strip()` see it:
      the code points for which `str.isspace()` holds. */
  predicate IsWs(c: char) {
    || ('\t' <= c <= '\r')
    || ('\U{1C}' <= c <= '\U{1F}')
    || c == ' '
    || c == '\U{85}'
    || c == '\U{A0}'
    || c == '\U{1680}'
    || ('\U{2000}' <= c <= '\U{200A}')
    || c == '\U{2028}'
    || c == '\U{2029}'
    || c == '\U{202F}'
    || c == '\U{205F}'
    || c == '\U{3000}'
  }

  /** The non-whitespace characters of `s`, in order. */
  function NonWs(s: string): string
  {
    if s == [] then [] else (if IsWs(s[0]) then [] else [s[0]]) + NonWs(s[1..])
  }

  lemma {:induction false} NonWsAppend(a: string, b: string)
    ensures NonWs(a + b) == NonWs(a) + NonWs(b)
    decreases |a|
  {
    if a == [] {
      assert a + b == b;
    } else {
      var h := if IsWs(a[0]) then [] else [a[0]];
      assert (a + b)[0] == a[0];
      assert (a + b)[1..] == a[1..] + b;
      NonWsAppend(a[1..], b);
      assert NonWs(a + b) == h + NonWs(a[1..] + b);
      assert NonWs(a) == h + NonWs(a[1..]);
    }
  }

  lemma {:induction false} NonWsOfWs(s: string)
    requires forall i :: 0 <= i < |s| ==> IsWs(s[i])
    ensures NonWs(s) == []
    decreases |s|
  {
    if s != [] {
      NonWsOfWs(s[1..]);
    }
  }

  lemma {:induction false} NonWsMember(s: string, c: char)
    requires c in NonWs(s)
    ensures c in s && !IsWs(c)
    decreases |s|
  {
    if s != [] && !(c == s[0] && !IsWs(s[0])) {
      NonWsMember(s[1..], c);
    }
  }

  lemma {:induction false} NonWsHas(s: string, i: int)
    requires 0 <= i < |s| && !IsWs(s[i])
    ensures s[i] in NonWs(s)
    decreases |s|
  {
    if i > 0 {
      NonWsHas(s[1..], i - 1);
    }
  }

  // ---------------------------------------------------------------------------
  // NFKD

  /** A compatibility-decomposition table: the full decomposition of each code point
      (a code point without a decomposition maps to itself). */
  type Decomposition = char -> seq<char>

  /** The table is fully decomposed, as Unicode's NFKD mapping is: every code point of a
      decomposition decomposes to itself, and the space character has no decomposition. */
  ghost predicate FullyDecomposed(dec: Decomposition) {
    && (forall c: char, d: char :: d in dec(c) ==> dec(d) == [d])
    && dec(' ') == [' ']
  }

  /** Every code point of `s` is its own decomposition. */
  ghost predicate Decomposed(dec: Decomposition, s: string) {
    forall i :: 0 <= i < |s| ==> dec(s[i]) == [s[i]]
  }

  /** `unicodedata.normalize('NFKD', s)`, as a character-by-character decomposition. */
  function Nfkd(dec: Decomposition, s: string): string
    decreases |s|
  {
    if s == [] then [] else dec(s[0]) + Nfkd(dec, s[1..])
  }

  /** Decomposition acts on each code point independently. */
  lemma {:induction false} NfkdAppend(dec: Decomposition, a: string, b: string)
    ensures Nfkd(dec, a + b) == Nfkd(dec, a) + Nfkd(dec, b)
    decreases |a|
  {
    if a == [] {
      assert a + b == b;
    } else {
      assert (a + b)[0] == a[0];
      assert (a + b)[1..] == a[1..] + b;
      NfkdAppend(dec, a[1..], b);
      assert Nfkd(dec, a + b) == dec(a[0]) + Nfkd(dec, a[1..] + b);
    }
  }

  /** With a fully decomposed table, NFKD output is already decomposed. */
  lemma {:induction false} NfkdDecomposes(dec: Decomposition, s: string)
    requires FullyDecomposed(dec)
    ensures Decomposed(dec, Nfkd(dec, s))
    decreases |s|
  {
    if s != [] {
      NfkdDecomposes(dec, s[1..]);
      var r := Nfkd(dec, s);
      var h := dec(s[0]);
      forall i | 0 <= i < |r|
        ensures dec(r[i]) == [r[i]]
      {
        if i < |h| {
          assert r[i] == h[i] && h[i] in h;
        } else {
          assert r[i] == Nfkd(dec, s[1..])[i - |h|];
        }
      }
    }
  }

  /** A decomposed string is its own NFKD. */
  lemma {:induction false} NfkdOfDecomposed(dec: Decomposition, s: string)
    requires Decomposed(dec, s)
    ensures Nfkd(dec, s) == s
    decreases |s|
  {
    if s != [] {
      NfkdOfDecomposed(dec, s[1..]);
    }
  }

  /** NFKD is idempotent whenever the table is fully decomposed. */
  lemma NfkdIdempotent(dec: Decomposition, s: string)
    requires FullyDecomposed(dec)
    ensures Nfkd(dec, Nfkd(dec, s)) == Nfkd(dec, s)
  {
    NfkdDecomposes(dec, s);
    NfkdOfDecomposed(dec, Nfkd(dec, s));
  }

  // ---------------------------------------------------------------------------
  // Whitespace

  /** Python's `s.lstrip()`: the longest suffix of `s` that does not begin with whitespace. */
  function DropWs(s: string): (r: string)
    ensures |r| <= |s| && r == s[|s| - |r|..]
    ensures r == [] || !IsWs(r[0])
    ensures forall i :: 0 <= i < |s| - |r| ==> IsWs(s[i])
    decreases |s|
  {
    if s != [] && IsWs(s[0]) then DropWs(s[1..]) else s
  }

  /** Python's `s.rstrip()`: the longest prefix of `s` that does not end with whitespace. */
  function DropWsEnd(s: string): (r: string)
    ensures |r| <= |s| && r == s[..|r|]
    ensures r == [] || !IsWs(r[|r| - 1])
    ensures forall i :: |r| <= i < |s| ==> IsWs(s[i])
    decreases |s|
  {
    if s != [] && IsWs(s[|s| - 1]) then DropWsEnd(s[..|s| - 1]) else s
  }

  /** How many whitespace characters `s` begins with. */
  function LeadingWs(s: string): (n: nat)
    ensures n <= |s|
  {
    |s| - |DropWs(s)|
  }

  /** Python's `s.strip()`: `s` without its leading and trailing whitespace; what is
      removed is whitespace and what remains is a contiguous slice of `s`. */
  function Strip(s: string): (r: string)
    ensures r == [] || (!IsWs(r[0]) && !IsWs(r[|r| - 1]))
    ensures LeadingWs(s) + |r| <= |s| && r == s[LeadingWs(s)..LeadingWs(s) + |r|]
    ensures forall i :: 0 <= i < LeadingWs(s) ==> IsWs(s[i])
    ensures forall i :: LeadingWs(s) + |r| <= i < |s| ==> IsWs(s[i])
  {
    var t := DropWs(s);
    var r := DropWsEnd(t);
    SliceOfSuffix(s, t, r);
    r
  }

  /** A prefix `r` of a suffix `t` of `s` is the slice of `s` where they overlap, and
      after it `s` continues as `t` does. */
  lemma SliceOfSuffix(s: string, t: string, r: string)
    requires |t| <= |s| && t == s[|s| - |t|..]
    requires |r| <= |t| && r == t[..|r|]
    ensures r == s[|s| - |t|..|s| - |t| + |r|]
    ensures forall i :: |s| - |t| + |r| <= i < |s| ==> s[i] == t[i - (|s| - |t|)]
  {
  }

  /** `re.sub(r'\s+', ' ', s)`: every maximal run of whitespace becomes one space. */
  function Collapse(s: string): (r: string)
    ensures r == [] <==> s == []
    ensures s != [] && !IsWs(s[0]) ==> r[0] == s[0]
    decreases |s|
  {
    if s == [] then []
    else if IsWs(s[0]) then [' '] + Collapse(DropWs(s))
    else [s[0]] + Collapse(s[1..])
  }

  /** Collapsing leaves plain spaces only, never two whitespace characters in a row. */
  lemma {:induction false} CollapseIsCollapsed(s: string)
    ensures Collapsed(Collapse(s))
    decreases |s|
  {
    if s != [] {
      if IsWs(s[0]) {
        var rest := Collapse(DropWs(s));
        CollapseIsCollapsed(DropWs(s));
        assert rest != [] ==> !IsWs(rest[0]);
        CollapsedCons(' ', rest);
      } else {
        CollapseIsCollapsed(s[1..]);
        CollapsedCons(s[0], Collapse(s[1..]));
      }
    }
  }

  /** A whitespace character at `i` is the plain space. */
  predicate SpaceAt(s: string, i: int)
    requires 0 <= i < |s|
  {
    IsWs(s[i]) ==> s[i] == ' '
  }

  /** The characters at `i` and `i + 1` are not both whitespace. */
  predicate NoWsPair(s: string, i: int)
    requires 0 <= i < |s| - 1
  {
    !IsWs(s[i]) || !IsWs(s[i + 1])
  }

  /** What `re.sub(r'\s+', ' ', s)` leaves: the only whitespace character is the plain
      space, and no two whitespace characters touch. */
  predicate Collapsed(s: string) {
    && (forall i :: 0 <= i < |s| ==> SpaceAt(s, i))
    && (forall i :: 0 <= i < |s| - 1 ==> NoWsPair(s, i))
  }

  /** A character in front of collapsed text keeps it collapsed, unless it is whitespace
      other than a space or it touches leading whitespace. */
  lemma CollapsedCons(c: char, t: string)
    requires Collapsed(t)
    requires IsWs(c) ==> c == ' ' && (t == [] || !IsWs(t[0]))
    ensures Collapsed([c] + t)
  {
    var s := [c] + t;
    forall i | 0 <= i < |s|
      ensures SpaceAt(s, i)
    {
      if i > 0 {
        assert SpaceAt(t, i - 1);
      }
    }
    forall i | 0 <= i < |s| - 1
      ensures NoWsPair(s, i)
    {
      if i > 0 {
        assert NoWsPair(t, i - 1);
      }
    }
  }

  /** Dropping the first character of collapsed text keeps it collapsed. */
  lemma CollapsedTail(s: string)
    requires Collapsed(s) && s != []
    ensures Collapsed(s[1..])
  {
    var t := s[1..];
    forall i | 0 <= i < |t|
      ensures SpaceAt(t, i)
    {
      assert SpaceAt(s, i + 1);
    }
    forall i | 0 <= i < |t| - 1
      ensures NoWsPair(t, i)
    {
      assert NoWsPair(s, i + 1);
    }
  }

  lemma {:induction false} DropWsKeepsContent(s: string)
    ensures NonWs(DropWs(s)) == NonWs(s)
    decreases |s|
  {
    if s != [] && IsWs(s[0]) {
      DropWsKeepsContent(s[1..]);
    }
  }

  lemma {:induction false} DropWsEndKeepsContent(s: string)
    ensures NonWs(DropWsEnd(s)) == NonWs(s)
    decreases |s|
  {
    if s != [] && IsWs(s[|s| - 1]) {
      var init := s[..|s| - 1];
      DropWsEndKeepsContent(init);
      assert s == init + [s[|s| - 1]];
      NonWsAppend(init, [s[|s| - 1]]);
      assert NonWs([s[|s| - 1]]) == [] + NonWs([]);
    }
  }

  /** Stripping removes whitespace only. */
  lemma StripKeepsContent(s: string)
    ensures NonWs(Strip(s)) == NonWs(s)
  {
    DropWsKeepsContent(s);
    DropWsEndKeepsContent(DropWs(s));
  }

  /** Collapsing keeps every non-whitespace character, in order. */
  lemma {:induction false} CollapseKeepsContent(s: string)
    ensures NonWs(Collapse(s)) == NonWs(s)
    decreases |s|
  {
    if s != [] {
      if IsWs(s[0]) {
        var t := DropWs(s);
        CollapseKeepsContent(t);
        DropWsKeepsContent(s);
        NonWsAppend([' '], Collapse(t));
        assert NonWs([' ']) == [] + NonWs([]);
      } else {
        CollapseKeepsContent(s[1..]);
        assert Collapse(s) == [s[0]] + Collapse(s[1..]);
      }
    }
  }

  /** The shape `clean_arabic_text` promises: no leading or trailing whitespace, the only
      whitespace character is the plain space, and no two whitespace characters touch. */
  predicate Tidy(s: string) {
    && (s == [] || (!IsWs(s[0]) && !IsWs(s[|s| - 1])))
    && Collapsed(s)
  }

  /** Tidy text has no line break: `\n` is whitespace other than the plain space. */
  lemma TidyHasNoNewline(s: string)
    requires Tidy(s)
    ensures '\n' !in s
  {
    forall i | 0 <= i < |s|
      ensures s[i] != '\n'
    {
      assert SpaceAt(s, i);
      assert IsWs('\n');
    }
  }

  /** The NFKD-then-collapse-then-strip pipeline with no empty-input guard (the older
      trainer's `clean_arabic_text`). */
  function Normalize(dec: Decomposition, s: string): (r: string)
    ensures Tidy(r)
    ensures NonWs(r) == NonWs(Nfkd(dec, s))
  {
    var c := Collapse(Nfkd(dec, s));
    CollapseKeepsContent(Nfkd(dec, s));
    StripKeepsContent(c);
    CollapseIsCollapsed(Nfkd(dec, s));
    StripOfCollapsed(c);
    Strip(c)
  }

  /** `clean_arabic_text` of the data-preparation script: `""` for empty input,
      otherwise the normalised text. */
  function Clean(dec: Decomposition, s: string): (r: string)
    ensures s == [] ==> r == []
    ensures Tidy(r)
    ensures NonWs(r) == NonWs(Nfkd(dec, s))
  {
    if s == [] then [] else Normalize(dec, s)
  }

  /** Any slice of collapsed text is collapsed. */
  lemma CollapsedSlice(c: string, a: int, b: int)
    requires Collapsed(c) && 0 <= a <= b <= |c|
    ensures Collapsed(c[a..b])
  {
    var r := c[a..b];
    forall i | 0 <= i < |r|
      ensures SpaceAt(r, i)
    {
      assert SpaceAt(c, a + i);
    }
    forall i | 0 <= i < |r| - 1
      ensures NoWsPair(r, i)
    {
      assert NoWsPair(c, a + i);
    }
  }

  /** Stripping collapsed text leaves it tidy. */
  lemma StripOfCollapsed(c: string)
    requires Collapsed(c)
    ensures Tidy(Strip(c))
  {
    var r := Strip(c);
    var a := LeadingWs(c);
    CollapsedSlice(c, a, a + |r|);
  }

  /** The empty-input guard changes nothing: the two versions of the cleaner agree. */
  lemma CleanIsNormalize(dec: Decomposition, s: string)
    ensures Clean(dec, s) == Normalize(dec, s)
  {
  }

  /** In collapsed text a leading space stands alone, so `lstrip` drops just it. */
  lemma DropWsOfCollapsed(s: string)
    requires Collapsed(s) && s != [] && IsWs(s[0])
    ensures DropWs(s) == s[1..]
  {
    if |s| > 1 {
      assert NoWsPair(s, 0);
      assert DropWs(s[1..]) == s[1..];
    }
  }

  /** Collapsing leaves already-collapsed text alone. */
  lemma {:induction false} CollapseTidy(s: string)
    requires Collapsed(s)
    ensures Collapse(s) == s
    decreases |s|
  {
    if s != [] {
      var t := s[1..];
      CollapsedTail(s);
      CollapseTidy(t);
      assert s == [s[0]] + t;
      if IsWs(s[0]) {
        assert SpaceAt(s, 0);
        DropWsOfCollapsed(s);
        assert Collapse(s) == [' '] + Collapse(t);
      } else {
        assert Collapse(s) == [s[0]] + Collapse(t);
      }
    }
  }

  /** Stripping leaves text without leading or trailing whitespace alone. */
  lemma StripTidy(s: string)
    requires s == [] || (!IsWs(s[0]) && !IsWs(s[|s| - 1]))
    ensures Strip(s) == s
  {
  }

  /** Every code point of a cleaned string is a space or a code point of the NFKD of
      the input. */
  lemma CleanChars(dec: Decomposition, s: string, i: int)
    requires 0 <= i < |Clean(dec, s)|
    ensures Clean(dec, s)[i] == ' ' || Clean(dec, s)[i] in Nfkd(dec, s)
  {
    var r := Clean(dec, s);
    if !IsWs(r[i]) {
      NonWsHas(r, i);
      NonWsMember(Nfkd(dec, s), r[i]);
    } else {
      assert SpaceAt(r, i);
    }
  }

  /** `clean_arabic_text` is idempotent, given that NFKD's table is fully decomposed. */
  lemma CleanIdempotent(dec: Decomposition, s: string)
    requires FullyDecomposed(dec)
    ensures Clean(dec, Clean(dec, s)) == Clean(dec, s)
  {
    var y := Clean(dec, s);
    if y != [] {
      NfkdDecomposes(dec, s);
      var n := Nfkd(dec, s);
      forall i | 0 <= i < |y|
        ensures dec(y[i]) == [y[i]]
      {
        CleanChars(dec, s, i);
        if y[i] != ' ' {
          var k :| 0 <= k < |n| && n[k] == y[i];
        }
      }
      NfkdOfDecomposed(dec, y);
      CollapseTidy(y);
      StripTidy(y);
    }
  }

  // ---------------------------------------------------------------------------
  // Text that starts with a marker

  /** A string without whitespace. */
  predicate Plain(p: string) {
    forall i :: 0 <= i < |p| ==> !IsWs(p[i])
  }

  /** Collapsing passes a leading non-whitespace character through. */
  lemma {:induction false} CollapseCons(c: char, t: string)
    requires !IsWs(c)
    ensures Collapse([c] + t) == [c] + Collapse(t)
  {
    assert ([c] + t)[1..] == t;
  }

  /** One inductive step of `CollapsePlainPrefix`, with the tail's result given. */
  lemma {:induction false} CollapsePlainStep(c: char, q: string, x: string)
    requires !IsWs(c) && Collapse(q + x) == q + Collapse(x)
    ensures Collapse([c] + q + x) == [c] + q + Collapse(x)
  {
    var y := q + x;
    assert [c] + q + x == [c] + y;
    CollapseCons(c, y);
    SeqAssoc([c], q, Collapse(x));
  }

  /** Sequence concatenation is associative. */
  lemma SeqAssoc(a: string, b: string, c: string)
    ensures a + b + c == a + (b + c)
  {
  }

  /** Collapsing leaves a leading run of non-whitespace untouched. */
  lemma {:induction false} CollapsePlainPrefix(p: string, x: string)
    requires Plain(p)
    ensures Collapse(p + x) == p + Collapse(x)
    decreases |p|
  {
    if p == [] {
      assert p + x == x;
    } else {
      var c, q := p[0], p[1..];
      assert Plain(q);
      CollapsePlainPrefix(q, x);
      CollapsePlainStep(c, q, x);
      assert [c] + q == p;
    }
  }

  /** Stripping keeps a non-empty leading run of non-whitespace. */
  lemma StripPlainPrefix(s: string, p: string)
    requires StartsWith(s, p) && p != [] && Plain(p)
    ensures StartsWith(Strip(s), p)
  {
    assert !IsWs(s[0]) by { assert s[0] == p[0]; }
    assert DropWs(s) == s;
    var r := Strip(s);
    assert !IsWs(s[|p| - 1]) by { assert s[|p| - 1] == p[|p| - 1]; }
    assert |p| <= |r|;
    assert r[..|p|] == s[..|p|];
  }

  /** The cleaner keeps a leading marker that has no whitespace and that the
      decomposition table leaves alone. */
  lemma NormalizeKeepsPrefix(dec: Decomposition, p: string, x: string)
    requires p != [] && Plain(p) && Decomposed(dec, p)
    ensures StartsWith(Normalize(dec, p + x), p)
  {
    NfkdAppend(dec, p, x);
    NfkdOfDecomposed(dec, p);
    CollapsePlainPrefix(p, Nfkd(dec, x));
    StripPlainPrefix(Collapse(Nfkd(dec, p + x)), p);
  }

  /** The same for a text that already starts with the marker. */
  lemma NormalizeKeepsLead(dec: Decomposition, p: string, raw: string)
    requires StartsWith(raw, p) && p != [] && Plain(p) && Decomposed(dec, p)
    ensures StartsWith(Normalize(dec, raw), p)
  {
    assert raw == p + raw[|p|..];
    NormalizeKeepsPrefix(dec, p, raw[|p|..]);
  }
}
