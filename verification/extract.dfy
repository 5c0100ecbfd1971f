/** `re.search(r'<tag>(.*?)</tag>', text).group(1)`: the inner text of the first tag pair
    the regular-expression engine finds. The engine tries start positions left to right;
    from a start it tries the shortest group first, and `.` does not match a newline. */
module Extract {
  import opened Strings
  import opened Wrappers
  import opened Tags

  predicate NoNewline(s: string) {
    '\n' !in s
  }

  /** `open (.*?) close` matches with `open` at `i` and `close` at `j`. */
  predicate MatchAt(s: string, open: string, close: string, i: int, j: int) {
    && OccursAt(s, open, i)
    && i + |open| <= j
    && OccursAt(s, close, j)
    && NoNewline(s[i + |open|..j])
  }

  /** The match `re.search` reports: the leftmost start, and from it the shortest group. */
  ghost predicate FirstMatch(s: string, open: string, close: string, i: int, j: int) {
    && MatchAt(s, open, close, i, j)
    && (forall i', j' :: 0 <= i' < i ==> !MatchAt(s, open, close, i', j'))
    && (forall j' :: j' < j ==> !MatchAt(s, open, close, i, j'))
  }

  /** The lazy `(.*?)close` part from position `k`: the first `close` at or after `k`,
      provided no newline comes before it. */
  function ScanClose(s: string, close: string, k: int): (r: Option<nat>)
    requires 0 <= k <= |s| && |close| > 0
    ensures r.Some? ==> && k <= r.value
                        && OccursAt(s, close, r.value)
                        && NoNewline(s[k..r.value])
                        && (forall j :: k <= j < r.value ==> !OccursAt(s, close, j))
    ensures r.None? ==> forall j :: k <= j && OccursAt(s, close, j) ==> !NoNewline(s[k..j])
    decreases |s| - k
  {
    if OccursAt(s, close, k) then Some(k)
    else if k == |s| || s[k] == '\n' then
      assert forall j :: k < j <= |s| ==> s[k..j][0] == s[k];
      None
    else
      var r := ScanClose(s, close, k + 1);
      assert forall j :: k + 1 <= j <= |s| ==> s[k..j] == [s[k]] + s[k + 1..j];
      r
  }

  /** Tries start positions `i`, `i + 1`, ... in turn, as the search does. */
  function SearchFrom(s: string, open: string, close: string, i: int): (r: Option<(nat, nat)>)
    requires 0 <= i <= |s| && |open| > 0 && |close| > 0
    ensures r.Some? ==> && i <= r.value.0
                        && MatchAt(s, open, close, r.value.0, r.value.1)
                        && (forall i', j' :: i <= i' < r.value.0 ==> !MatchAt(s, open, close, i', j'))
                        && (forall j' :: j' < r.value.1 ==> !MatchAt(s, open, close, r.value.0, j'))
    ensures r.None? ==> forall i', j' :: i <= i' ==> !MatchAt(s, open, close, i', j')
    decreases |s| - i
  {
    if i == |s| then None
    else if OccursAt(s, open, i) then
      match ScanClose(s, close, i + |open|)
      case Some(j) => Some((i, j))
      case None => SearchFrom(s, open, close, i + 1)
    else SearchFrom(s, open, close, i + 1)
  }

  /** The inner text of the first `<t>…</t>` the search finds, or `None` when the
      pattern does not match anywhere. */
  function FindInner(s: string, t: Tag): (r: Option<string>)
    ensures r.None? <==> forall i, j :: !MatchAt(s, Open(t), Close(t), i, j)
    ensures r.Some? ==> exists i, j :: && FirstMatch(s, Open(t), Close(t), i, j)
                                       && r.value == s[i + |Open(t)|..j]
  {
    NameIsPlain(t);
    match SearchFrom(s, Open(t), Close(t), 0)
    case Some((i, j)) =>
      assert FirstMatch(s, Open(t), Close(t), i, j);
      Some(s[i + |Open(t)|..j])
    case None => None
  }

  /** There is only one first match. */
  lemma FirstMatchUnique(s: string, open: string, close: string, i: int, j: int, i2: int, j2: int)
    requires FirstMatch(s, open, close, i, j) && FirstMatch(s, open, close, i2, j2)
    ensures i == i2 && j == j2
  {
  }

  /** When the search reports a group, the text really holds `<t>`, that group, and `</t>`,
      with no newline inside the group. */
  lemma FoundInnerIsEnclosed(s: string, t: Tag)
    requires FindInner(s, t).Some?
    ensures Contains(s, Open(t) + FindInner(s, t).value + Close(t))
    ensures Contains(s, Open(t))
    ensures NoNewline(FindInner(s, t).value)
  {
    var open, close, v := Open(t), Close(t), FindInner(s, t).value;
    var i, j :| FirstMatch(s, open, close, i, j) && v == s[i + |open|..j];
    MatchIsEnclosed(s, open, close, i, j);
    assert OccursAt(s, open + v + close, i);
    assert NoNewline(s[i + |open|..j]);
  }

  /** A match at `i`, `j` spells out `open`, the group and `close` from `i` on. */
  lemma MatchIsEnclosed(s: string, open: string, close: string, i: int, j: int)
    requires MatchAt(s, open, close, i, j)
    ensures OccursAt(s, open + s[i + |open|..j] + close, i)
    ensures OccursAt(s, open, i)
  {
    var v := s[i + |open|..j];
    var w := s[i..j + |close|];
    forall k | 0 <= k < |w|
      ensures w[k] == (open + v + close)[k]
    {
      if k < |open| {
        assert w[k] == s[i..i + |open|][k];
      } else if k >= j - i {
        assert w[k] == s[j..j + |close|][k - (j - i)];
      }
    }
  }

  /** Inside `open body close` no `close` starts before the real one, when `close` does
      not overlap itself (its first character does not occur again in it). */
  lemma NoEarlierClose(s: string, open: string, body: string, close: string, j: int)
    requires StartsWith(s, open + body + close)
    requires |close| > 0 && forall k :: 1 <= k < |close| ==> close[k] != close[0]
    requires !Contains(body, close)
    requires |open| <= j < |open| + |body|
    ensures !OccursAt(s, close, j)
  {
    var J := |open| + |body|;
    var e := open + body + close;
    assert s[..|e|] == e;
    if j + |close| <= J {
      var k := j - |open|;
      assert e == open + (body + close);
      assert e[j..j + |close|] == (body + close)[k..k + |close|] == body[k..k + |close|];
      var w, w' := s[j..j + |close|], e[j..j + |close|];
      forall m | 0 <= m < |close|
        ensures w[m] == w'[m]
      {
        assert s[j + m] == s[..|e|][j + m];
      }
      assert s[j..j + |close|] == e[j..j + |close|];
      assert !OccursAt(body, close, k);
    } else if j + |close| <= |s| {
      assert s[J] == e[J] == close[0];
      assert s[j..j + |close|][J - j] == s[J] != close[J - j];
    }
  }

  /** When `s` begins with `open body close` (body without newline or `close`), that is
      the first match. */
  lemma LeadingIsFirstMatch(s: string, open: string, body: string, close: string)
    requires StartsWith(s, open + body + close)
    requires |close| > 0 && forall k :: 1 <= k < |close| ==> close[k] != close[0]
    requires NoNewline(body) && !Contains(body, close)
    ensures FirstMatch(s, open, close, 0, |open| + |body|)
  {
    var e := open + body + close;
    var J := |open| + |body|;
    assert s[..|e|] == e;
    assert s[0..|open|] == e[0..|open|] == open;
    assert s[J..J + |close|] == e[J..J + |close|] == close;
    assert s[|open|..J] == e[|open|..J] == body;
    forall j' | j' < J
      ensures !MatchAt(s, open, close, 0, j')
    {
      if |open| <= j' {
        NoEarlierClose(s, open, body, close, j');
      }
    }
  }

  /** The group of the first match in a text that begins with `open body close` is `body`. */
  lemma LeadingGroup(s: string, open: string, body: string, close: string, i: int, j: int)
    requires StartsWith(s, open + body + close)
    requires |close| > 0 && forall k :: 1 <= k < |close| ==> close[k] != close[0]
    requires NoNewline(body) && !Contains(body, close)
    requires FirstMatch(s, open, close, i, j)
    ensures s[i + |open|..j] == body
  {
    var J := |open| + |body|;
    LeadingIsFirstMatch(s, open, body, close);
    FirstMatchUnique(s, open, close, i, j, 0, J);
    var e := open + body + close;
    assert s[..|e|] == e;
    forall k | 0 <= k < |body|
      ensures s[|open|..J][k] == body[k]
    {
      assert s[|open| + k] == s[..|e|][|open| + k];
      assert e[|open| + k] == body[k];
    }
  }

  /** Extraction inverts serialisation: when an example begins with `<t>body</t>`, and the
      body holds no newline and no `</t>`, the search returns exactly that body. */
  lemma InnerOfLeadingElement(s: string, t: Tag, body: string)
    requires StartsWith(s, Element(Segment(t, body)))
    requires NoNewline(body) && !Contains(body, Close(t))
    ensures FindInner(s, t) == Some(body)
  {
    var o, c := Open(t), Close(t);
    CloseHasOneBracket(t);
    LeadingIsFirstMatch(s, o, body, c);
    var i, j :| FirstMatch(s, o, c, i, j) && FindInner(s, t).value == s[i + |o|..j];
    LeadingGroup(s, o, body, c, i, j);
  }
}
