/** The closed vocabulary of bracket tags and the tagged-segment view of a training
    example: an example is a list of `<tag>body</tag>` elements joined by single spaces. */
module Tags {
  import opened Strings
  import opened Wrappers

  datatype Tag =
    | Ayah | Translation | WordAnalysis | Context
    | Hadith | Narrator | Grade | Reference
    | Tafsir | Author | KeyPoints
    | Question | Source | Verse

  /** The word between the brackets. */
  function Name(t: Tag): string
  {
    match t
    case Ayah => "ayah"
    case Translation => "translation"
    case WordAnalysis => "word_analysis"
    case Context => "context"
    case Hadith => "hadith"
    case Narrator => "narrator"
    case Grade => "grade"
    case Reference => "reference"
    case Tafsir => "tafsir"
    case Author => "author"
    case KeyPoints => "key_points"
    case Question => "question"
    case Source => "source"
    case Verse => "verse"
  }

  /** The tag a bracket word names, if any. */
  function NameTag(w: string): Option<Tag>
  {
    if w == "ayah" then Some(Ayah)
    else if w == "translation" then Some(Translation)
    else if w == "word_analysis" then Some(WordAnalysis)
    else if w == "context" then Some(Context)
    else if w == "hadith" then Some(Hadith)
    else if w == "narrator" then Some(Narrator)
    else if w == "grade" then Some(Grade)
    else if w == "reference" then Some(Reference)
    else if w == "tafsir" then Some(Tafsir)
    else if w == "author" then Some(Author)
    else if w == "key_points" then Some(KeyPoints)
    else if w == "question" then Some(Question)
    else if w == "source" then Some(Source)
    else if w == "verse" then Some(Verse)
    else None
  }

  /** Every tag is recovered from its name, so no two tags share a name. */
  lemma NameRoundTrip(t: Tag)
    ensures NameTag(Name(t)) == Some(t)
  {
  }

  function Open(t: Tag): string { "<" + Name(t) + ">" }

  function Close(t: Tag): string { "</" + Name(t) + ">" }

  /** Tag names are non-empty and hold no bracket, slash or whitespace, so a tag's
      closing marker contains `<` only at its first position. */
  lemma NameIsPlain(t: Tag)
    ensures |Name(t)| > 0
    ensures forall i :: 0 <= i < |Name(t)| ==> IsNameChar(Name(t)[i])
  {
  }

  /** The characters tag names are made of: lower-case ASCII letters and `_`. */
  predicate IsNameChar(c: char) {
    'a' <= c <= 'z' || c == '_'
  }

  /** The characters markers are made of. */
  predicate IsMarkerChar(c: char) {
    IsNameChar(c) || c == '<' || c == '>' || c == '/'
  }

  lemma OpenChars(t: Tag)
    ensures forall i :: 0 <= i < |Open(t)| ==> IsMarkerChar(Open(t)[i])
  {
    NameIsPlain(t);
    var o := Open(t);
    forall i | 0 <= i < |o|
      ensures IsMarkerChar(o[i])
    {
      if 1 <= i < |o| - 1 {
        assert o[i] == Name(t)[i - 1];
      }
    }
  }

  lemma CloseHasOneBracket(t: Tag)
    ensures |Close(t)| >= 4 && Close(t)[0] == '<'
    ensures forall i :: 1 <= i < |Close(t)| ==> Close(t)[i] != '<'
  {
    NameIsPlain(t);
    var c := Close(t);
    forall i | 1 <= i < |c|
      ensures c[i] != '<'
    {
      if 2 <= i < |c| - 1 {
        assert c[i] == Name(t)[i - 2];
      }
    }
  }

  /** Distinct tags have distinct markers: the vocabulary is unambiguous. */
  lemma MarkersDistinct(t: Tag, u: Tag)
    requires t != u
    ensures Open(t) != Open(u) && Close(t) != Close(u)
  {
    NameRoundTrip(t);
    NameRoundTrip(u);
    if Open(t) == Open(u) {
      Infix("<", Name(t), ">");
      Infix("<", Name(u), ">");
    }
    if Close(t) == Close(u) {
      Infix("</", Name(t), ">");
      Infix("</", Name(u), ">");
    }
  }

  /** One tagged field of an example. */
  datatype Segment = Segment(tag: Tag, body: string)

  /** `<tag>body</tag>` */
  function Element(s: Segment): string
  {
    Open(s.tag) + s.body + Close(s.tag)
  }

  /** Text that starts with an element starts with its opening marker; text that ends
      with one ends with its closing marker. */
  lemma ElementEdges(x: string, s: Segment)
    ensures StartsWith(x, Element(s)) ==> StartsWith(x, Open(s.tag))
    ensures EndsWith(x, Element(s)) ==> EndsWith(x, Close(s.tag))
  {
    assert Element(s) == Open(s.tag) + (s.body + Close(s.tag));
    if StartsWith(x, Element(s)) {
      StartsWithPart(x, Open(s.tag), s.body + Close(s.tag));
    }
    if EndsWith(x, Element(s)) {
      EndsWithPart(x, Open(s.tag) + s.body, Close(s.tag));
    }
  }

  /** Only `<question>` opens with `<q`, so text opened by any other tag is not a
      question. */
  lemma NotQuestion(x: string, u: Tag)
    requires u != Question && StartsWith(x, Open(u))
    ensures !StartsWith(x, Open(Question))
  {
    assert Open(u)[1] == Name(u)[0] != 'q';
    assert x[1] == Open(u)[1];
    assert Open(Question)[1] == 'q';
  }

  /** The elements of `segs` joined by single spaces, the way each loader appends
      `f" <tag>{value}</tag>"` to the first element. */
  function Render(segs: seq<Segment>): string
    decreases |segs|
  {
    if |segs| == 0 then ""
    else if |segs| == 1 then Element(segs[0])
    else Element(segs[0]) + " " + Render(segs[1..])
  }

  /** A rendered example begins with its first element. */
  lemma RenderStart(segs: seq<Segment>)
    requires |segs| > 0
    ensures StartsWith(Render(segs), Element(segs[0]))
  {
  }

  /** A rendered example of two or more elements begins with its first two elements,
      separated by a space. */
  lemma RenderStartTwo(segs: seq<Segment>)
    requires |segs| >= 2
    ensures StartsWith(Render(segs), Element(segs[0]) + " " + Element(segs[1]))
  {
    RenderStart(segs[1..]);
    StartsWithAfter(Element(segs[0]) + " ", Render(segs[1..]), Element(segs[1]));
    assert Render(segs) == Element(segs[0]) + " " + Render(segs[1..]);
  }

  /** A one-element example behind a space ends with a space and that element. */
  lemma RenderSingle(segs: seq<Segment>)
    requires |segs| == 1
    ensures EndsWith(" " + Render(segs), " " + Element(segs[|segs| - 1]))
  {
    assert Render(segs) == Element(segs[0]);
  }

  /** A rendered example of two or more elements ends with a space and its last element. */
  lemma {:induction false} RenderEnd(segs: seq<Segment>)
    requires |segs| >= 2
    ensures EndsWith(Render(segs), " " + Element(segs[|segs| - 1]))
    decreases |segs|
  {
    if |segs| > 2 {
      RenderEnd(segs[1..]);
      assert segs[1..][|segs| - 2] == segs[|segs| - 1];
      EndsWithAfter(Element(segs[0]) + " ", Render(segs[1..]), " " + Element(segs[|segs| - 1]));
    } else {
      EndsWithJoined(Element(segs[0]), Element(segs[1]));
    }
  }

  /** Rendering a concatenation puts one space between the two renderings. */
  lemma {:induction false} RenderAppend(a: seq<Segment>, b: seq<Segment>)
    requires |a| > 0 && |b| > 0
    ensures Render(a + b) == Render(a) + " " + Render(b)
    decreases |a|
  {
    if |a| > 1 {
      assert (a + b)[1..] == a[1..] + b;
      RenderAppend(a[1..], b);
    }
  }

  /** The bodies of the segments tagged `t`, in order. */
  function Bodies(segs: seq<Segment>, t: Tag): seq<string>
    decreases |segs|
  {
    if |segs| == 0 then []
    else (if segs[0].tag == t then [segs[0].body] else []) + Bodies(segs[1..], t)
  }

  lemma {:induction false} BodiesAppend(a: seq<Segment>, b: seq<Segment>, t: Tag)
    ensures Bodies(a + b, t) == Bodies(a, t) + Bodies(b, t)
    decreases |a|
  {
    if |a| == 0 {
      assert a + b == b;
    } else {
      assert (a + b)[0] == a[0];
      assert (a + b)[1..] == a[1..] + b;
      BodiesAppend(a[1..], b, t);
    }
  }

  /** Position of `t` in a fixed tag order (|order| when absent). */
  function Rank(order: seq<Tag>, t: Tag): nat
    ensures Rank(order, t) <= |order|
    ensures Rank(order, t) < |order| ==> order[Rank(order, t)] == t
    ensures t in order ==> Rank(order, t) < |order|
    decreases |order|
  {
    if |order| == 0 then 0
    else if order[0] == t then 0
    else 1 + Rank(order[1..], t)
  }

  /** Every segment's tag belongs to `order` and tags never step back in it: the
      segments are emitted in that fixed order. */
  predicate InOrder(segs: seq<Segment>, order: seq<Tag>)
  {
    && (forall i :: 0 <= i < |segs| ==> segs[i].tag in order)
    && (forall i :: 0 <= i < |segs| - 1 ==> Rank(order, segs[i].tag) <= Rank(order, segs[i + 1].tag))
  }

  /** Segments that all carry one tag. */
  function Tagged(t: Tag, bodies: seq<string>): (r: seq<Segment>)
    ensures |r| == |bodies|
    ensures forall i :: 0 <= i < |r| ==> r[i] == Segment(t, bodies[i])
    ensures Bodies(r, t) == bodies
    ensures forall u :: u != t ==> Bodies(r, u) == []
    decreases |bodies|
  {
    if |bodies| == 0 then []
    else
      var rest := Tagged(t, bodies[1..]);
      var r := [Segment(t, bodies[0])] + rest;
      assert r[1..] == rest;
      r
  }

  /** Concatenating ordered runs whose tags ascend keeps the order. */
  lemma InOrderAppend(a: seq<Segment>, b: seq<Segment>, order: seq<Tag>)
    requires InOrder(a, order) && InOrder(b, order)
    requires |a| > 0 && |b| > 0 ==> Rank(order, a[|a| - 1].tag) <= Rank(order, b[0].tag)
    ensures InOrder(a + b, order)
  {
    var s := a + b;
    TagsAppend(a, b, order);
    forall i | 0 <= i < |s| - 1
      ensures Rank(order, s[i].tag) <= Rank(order, s[i + 1].tag)
    {
      if i < |a| - 1 {
        assert s[i].tag == a[i].tag && s[i + 1].tag == a[i + 1].tag;
      } else if i == |a| - 1 {
        assert s[i].tag == a[|a| - 1].tag && s[i + 1].tag == b[0].tag;
      } else {
        assert s[i].tag == b[i - |a|].tag && s[i + 1].tag == b[i - |a| + 1].tag;
      }
    }
  }

  /** The tags of a concatenation are the tags of its parts. */
  lemma TagsAppend(a: seq<Segment>, b: seq<Segment>, order: seq<Tag>)
    requires forall i :: 0 <= i < |a| ==> a[i].tag in order
    requires forall i :: 0 <= i < |b| ==> b[i].tag in order
    ensures forall i :: 0 <= i < |a + b| ==> (a + b)[i].tag in order
  {
    forall i | 0 <= i < |a + b|
      ensures (a + b)[i].tag in order
    {
      if i < |a| {
        assert (a + b)[i] == a[i];
      } else {
        assert (a + b)[i] == b[i - |a|];
      }
    }
  }

  /** No tag occurs twice in a tag order. */
  predicate Distinct(order: seq<Tag>) {
    forall i, j :: 0 <= i < j < |order| ==> order[i] != order[j]
  }

  /** The recursive reading of `Distinct`: the head is not repeated in the tail, and the
      tail has no repeats either. */
  predicate NoRepeats(order: seq<Tag>)
    decreases |order|
  {
    |order| == 0 || (order[0] !in order[1..] && NoRepeats(order[1..]))
  }

  lemma {:induction false} NoRepeatsDistinct(order: seq<Tag>)
    requires NoRepeats(order)
    ensures Distinct(order)
    decreases |order|
  {
    if |order| > 0 {
      NoRepeatsDistinct(order[1..]);
      forall i, j | 0 <= i < j < |order|
        ensures order[i] != order[j]
      {
        assert order[j] == order[1..][j - 1];
        if i > 0 {
          assert order[i] == order[1..][i - 1];
        }
      }
    }
  }

  /** `[]` for an empty value, `[v]` otherwise: the `if value:` guard on an optional tag. */
  function Present(v: string): (r: seq<string>)
    ensures r == [] <==> v == ""
  {
    if v == "" then [] else [v]
  }

  /** An example built in a fixed tag order: for each tag of `order` in turn, one segment
      per body listed for it in `fields`. */
  function Assemble(order: seq<Tag>, fields: seq<seq<string>>): (r: seq<Segment>)
    requires |fields| == |order|
    ensures |order| > 0 && |fields[0]| > 0 ==> |r| > 0 && r[0] == Segment(order[0], fields[0][0])
    decreases |order|
  {
    if |order| == 0 then [] else Tagged(order[0], fields[0]) + Assemble(order[1..], fields[1..])
  }

  /** Under each tag of the order, an assembled example holds exactly the bodies listed
      for it, and nothing under any other tag. */
  lemma {:induction false} AssembleBodies(order: seq<Tag>, fields: seq<seq<string>>, t: Tag)
    requires |fields| == |order| && Distinct(order)
    ensures Bodies(Assemble(order, fields), t)
            == if t in order then fields[Rank(order, t)] else []
    decreases |order|
  {
    if |order| > 0 {
      var head, tail := Tagged(order[0], fields[0]), Assemble(order[1..], fields[1..]);
      BodiesAppend(head, tail, t);
      DistinctTail(order);
      AssembleBodies(order[1..], fields[1..], t);
      if t == order[0] {
        HeadNotInTail(order);
      } else {
        RankTail(order, t);
        if t in order {
          assert fields[1..][Rank(order[1..], t)] == fields[Rank(order, t)];
        }
      }
    }
  }

  /** Past the head of an order, a tag's rank is one more than its rank in the tail. */
  lemma RankTail(order: seq<Tag>, t: Tag)
    requires |order| > 0 && order[0] != t
    ensures Rank(order, t) == 1 + Rank(order[1..], t)
    ensures t in order <==> t in order[1..]
  {
    assert order == [order[0]] + order[1..];
  }

  lemma HeadNotInTail(order: seq<Tag>)
    requires Distinct(order) && |order| > 0
    ensures order[0] !in order[1..]
  {
    forall k | 0 <= k < |order| - 1
      ensures order[1..][k] != order[0]
    {
      assert order[1..][k] == order[k + 1];
    }
  }

  lemma DistinctTail(order: seq<Tag>)
    requires Distinct(order) && |order| > 0
    ensures Distinct(order[1..])
  {
    forall i, j | 0 <= i < j < |order| - 1
      ensures order[1..][i] != order[1..][j]
    {
      assert order[1..][i] == order[i + 1] && order[1..][j] == order[j + 1];
    }
  }

  /** The same, by position: the `i`-th field lands under the `i`-th tag. */
  lemma AssembleBodiesAt(order: seq<Tag>, fields: seq<seq<string>>, i: nat)
    requires |fields| == |order| && Distinct(order) && i < |order|
    ensures Bodies(Assemble(order, fields), order[i]) == fields[i]
  {
    AssembleBodies(order, fields, order[i]);
    DistinctRank(order, i);
  }

  /** In an order without repeats every tag's rank is its index. */
  lemma {:induction false} DistinctRank(order: seq<Tag>, i: nat)
    requires Distinct(order) && i < |order|
    ensures Rank(order, order[i]) == i
    decreases i
  {
    if i > 0 {
      assert order[0] != order[i];
      assert order[1..][i - 1] == order[i];
      DistinctRank(order[1..], i - 1);
    }
  }

  lemma {:induction false} AssembleTags(order: seq<Tag>, fields: seq<seq<string>>, i: int)
    requires |fields| == |order| && 0 <= i < |Assemble(order, fields)|
    ensures Assemble(order, fields)[i].tag in order
    decreases |order|
  {
    var head := Tagged(order[0], fields[0]);
    if i >= |head| {
      AssembleTags(order[1..], fields[1..], i - |head|);
    }
  }

  /** An assembled example follows its tag order. */
  lemma {:induction false} AssembleInOrder(order: seq<Tag>, fields: seq<seq<string>>)
    requires |fields| == |order| && Distinct(order)
    ensures InOrder(Assemble(order, fields), order)
    decreases |order|
  {
    if |order| > 0 {
      var head := Tagged(order[0], fields[0]);
      var tail := Assemble(order[1..], fields[1..]);
      AssembleInOrder(order[1..], fields[1..]);
      forall i | 0 <= i < |tail|
        ensures tail[i].tag in order && tail[i].tag != order[0]
        ensures Rank(order, tail[i].tag) == 1 + Rank(order[1..], tail[i].tag)
      {
        AssembleTags(order[1..], fields[1..], i);
      }
      assert InOrder(tail, order);
      InOrderAppend(head, tail, order);
      forall i | 0 <= i < |head + tail|
        ensures (head + tail)[i].tag in order
      {
        if i >= |head| {
          assert (head + tail)[i] == tail[i - |head|];
        }
      }
    }
  }

  /** With one body in each of the first two fields, the second segment is the second
      field's. */
  lemma AssembleSecond(order: seq<Tag>, fields: seq<seq<string>>)
    requires |fields| == |order| >= 2 && |fields[0]| == 1 && |fields[1]| == 1
    ensures |Assemble(order, fields)| >= 2
    ensures Assemble(order, fields)[1] == Segment(order[1], fields[1][0])
  {
    var tail := Assemble(order[1..], fields[1..]);
    assert Assemble(order, fields) == Tagged(order[0], fields[0]) + tail;
  }

  /** An assembled example whose last field is one body ends with that segment. */
  lemma {:induction false} AssembleLast(order: seq<Tag>, fields: seq<seq<string>>, b: string)
    requires |fields| == |order| > 0 && fields[|order| - 1] == [b]
    ensures |Assemble(order, fields)| > 0
    ensures Assemble(order, fields)[|Assemble(order, fields)| - 1] == Segment(order[|order| - 1], b)
    decreases |order|
  {
    if |order| > 1 {
      AssembleLast(order[1..], fields[1..], b);
    }
  }
}
