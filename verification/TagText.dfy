/** Comma-separated tags: splitting, trimming and joining as Python's string methods do it.
    Which characters count as white space is a parameter; the comma does not and the blank does. */
module TagText {
  import opened Wrappers

  type Spaces = char -> bool

  ghost predicate Sane(space: Spaces)
  {
    space(' ') && !space(',')
  }

  function StripLeft(s: string, space: Spaces): string
  {
    if s != [] && space(s[0]) then StripLeft(s[1..], space) else s
  }

  function StripRight(s: string, space: Spaces): string
  {
    if s != [] && space(s[|s| - 1]) then StripRight(s[..|s| - 1], space) else s
  }

  function Strip(s: string, space: Spaces): string
  {
    StripRight(StripLeft(s, space), space)
  }

  /** s.split(","): the parts between commas, at least one. */
  function Split(s: string): (parts: seq<string>)
    ensures parts != []
  {
    if s == [] then [""]
    else
      Prepend(s[0], Split(s[1..]))
  }

  function Prepend(c: char, parts: seq<string>): (r: seq<string>)
    requires parts != []
    ensures r != []
  {
    if c == ',' then [""] + parts else [[c] + parts[0]] + parts[1..]
  }

  lemma PrependConcat(c: char, a: seq<string>, b: seq<string>)
    requires a != []
    ensures Prepend(c, a + b) == Prepend(c, a) + b
  {
    if c == ',' {
      ConcatAssociates([""], a, b);
    } else {
      assert (a + b)[1..] == a[1..] + b;
      ConcatAssociates([[c] + a[0]], a[1..], b);
    }
  }

  /** The trimmed parts that are not empty. */
  function NonEmpty(parts: seq<string>, space: Spaces): seq<string>
  {
    if parts == [] then []
    else
      var tag := Strip(parts[0], space);
      (if tag == [] then [] else [tag]) + NonEmpty(parts[1..], space)
  }

  function Tags(text: string, space: Spaces): seq<string>
  {
    NonEmpty(Split(text), space)
  }

  /** ", ".join(tags) */
  function Join(tags: seq<string>): string
  {
    if tags == [] then ""
    else if |tags| == 1 then tags[0]
    else tags[0] + ", " + Join(tags[1..])
  }

  /** A tag as Tags produces it. */
  ghost predicate Clean(tag: string, space: Spaces)
  {
    && tag != [] && ',' !in tag
    && !space(tag[0]) && !space(tag[|tag| - 1])
  }

  // ----- trimming ---------------------------------------------------------------------------

  lemma {:induction false} StripLeftFacts(s: string, space: Spaces)
    ensures var t := StripLeft(s, space);
      && (t != [] ==> !space(t[0]))
      && (forall c | c in t :: c in s)
  {
    if s != [] && space(s[0]) {
      StripLeftFacts(s[1..], space);
    }
  }

  lemma {:induction false} StripRightFacts(s: string, space: Spaces)
    ensures var t := StripRight(s, space);
      && t <= s
      && (t != [] ==> !space(t[|t| - 1]))
  {
    if s != [] && space(s[|s| - 1]) {
      StripRightFacts(s[..|s| - 1], space);
    }
  }

  ghost predicate Blank(s: string, space: Spaces)
  {
    forall i | 0 <= i < |s| :: space(s[i])
  }

  /** Trimming takes white space off both ends, all of it, and nothing else. */
  lemma StripIsTheCore(s: string, space: Spaces)
    ensures var t := Strip(s, space);
      && (exists a, b :: s == a + t + b && Blank(a, space) && Blank(b, space))
      && (t != "" ==> !space(t[0]) && !space(t[|t| - 1]))
  {
    var left := StripLeft(s, space);
    var a := LeadingBlanks(s, space);
    var b := TrailingBlanks(left, space);
    StripLeftFacts(s, space);
    StripRightFacts(left, space);
    assert s == a + Strip(s, space) + b;
  }

  lemma {:induction false} LeadingBlanks(s: string, space: Spaces) returns (a: string)
    ensures s == a + StripLeft(s, space) && Blank(a, space)
  {
    a := "";
    if s != [] && space(s[0]) {
      var rest := LeadingBlanks(s[1..], space);
      a := [s[0]] + rest;
    }
  }

  lemma {:induction false} TrailingBlanks(s: string, space: Spaces) returns (b: string)
    ensures s == StripRight(s, space) + b && Blank(b, space)
  {
    b := "";
    if s != [] && space(s[|s| - 1]) {
      var rest := TrailingBlanks(s[..|s| - 1], space);
      b := rest + [s[|s| - 1]];
    }
  }

  lemma StripIsClean(s: string, space: Spaces)
    requires ',' !in s && Strip(s, space) != []
    ensures Clean(Strip(s, space), space)
  {
    var t := StripLeft(s, space);
    StripLeftFacts(s, space);
    StripRightFacts(t, space);
    var u := Strip(s, space);
    assert u[0] == t[0];
    assert forall c | c in u :: c in t;
  }

  lemma CleanIsStripped(tag: string, space: Spaces)
    requires Clean(tag, space)
    ensures Strip(tag, space) == tag
  {
  }

  /** A leading white-space character does not matter. */
  lemma StripDropsFirst(c: char, s: string, space: Spaces)
    requires space(c)
    ensures Strip([c] + s, space) == Strip(s, space)
  {
    assert ([c] + s)[1..] == s;
  }

  lemma {:induction false} StripLeftSnoc(s: string, c: char, space: Spaces)
    requires space(c)
    ensures StripLeft(s + [c], space) == (if StripLeft(s, space) == [] then [] else StripLeft(s, space) + [c])
  {
    if s == [] {
      assert s + [c] == [c];
      assert [c][1..] == [];
    } else if space(s[0]) {
      assert (s + [c])[1..] == s[1..] + [c];
      StripLeftSnoc(s[1..], c, space);
    }
  }

  lemma StripDropsLast(s: string, c: char, space: Spaces)
    requires space(c)
    ensures Strip(s + [c], space) == Strip(s, space)
  {
    StripLeftSnoc(s, c, space);
    var t := StripLeft(s, space);
    if t != [] {
      assert (t + [c])[..|t|] == t;
    }
  }

  // ----- splitting ------------------------------------------------------------------------------

  lemma {:induction false} PartsHaveNoComma(s: string)
    ensures forall p | p in Split(s) :: ',' !in p
  {
    if s != [] {
      PartsHaveNoComma(s[1..]);
      var rest := Split(s[1..]);
      assert rest[0] in rest;
      assert forall p | p in rest[1..] :: p in rest;
    }
  }

  lemma {:induction false} SplitOfPart(s: string)
    requires ',' !in s
    ensures Split(s) == [s]
  {
    if s != [] {
      SplitOfPart(s[1..]);
      assert s == [s[0]] + s[1..];
    }
  }

  lemma {:induction false} SplitAtComma(a: string, b: string)
    ensures Split(a + "," + b) == Split(a) + Split(b)
  {
    if a == [] {
      assert a + "," + b == "," + b;
      assert ("," + b)[1..] == b;
      assert Split("," + b) == [""] + Split(b);
    } else {
      assert (a + "," + b)[1..] == a[1..] + "," + b;
      SplitAtComma(a[1..], b);
      PrependConcat(a[0], Split(a[1..]), Split(b));
    }
  }

  lemma {:induction false} SplitSnoc(a: string, c: char)
    requires c != ','
    ensures var parts := Split(a); var n := |parts| - 1;
      Split(a + [c]) == parts[..n] + [parts[n] + [c]]
  {
    if a == [] {
      assert a + [c] == [c];
      assert [c][1..] == [];
      assert Split([c]) == [[c] + ""] + [];
      assert [c] + "" == "" + [c];
    } else {
      assert (a + [c])[1..] == a[1..] + [c];
      SplitSnoc(a[1..], c);
      var rest := Split(a[1..]);
      var m := |rest| - 1;
      var longer := rest[..m] + [rest[m] + [c]];
      if a[0] == ',' {
        assert [""] + longer == ([""] + rest)[..m + 1] + [rest[m] + [c]];
      } else if m == 0 {
        assert [a[0]] + (rest[0] + [c]) == ([a[0]] + rest[0]) + [c];
      } else {
        var parts := [[a[0]] + rest[0]] + rest[1..];
        assert longer[0] == rest[0];
        assert longer[1..] == rest[1..m] + [rest[m] + [c]];
        assert parts[m] == rest[m];
        assert parts[..m] == [[a[0]] + rest[0]] + rest[1..m];
      }
    }
  }

  lemma {:induction false} NonEmptyConcat(a: seq<string>, b: seq<string>, space: Spaces)
    ensures NonEmpty(a + b, space) == NonEmpty(a, space) + NonEmpty(b, space)
  {
    if a == [] {
      assert a + b == b;
    } else {
      assert (a + b)[1..] == a[1..] + b;
      NonEmptyConcat(a[1..], b, space);
    }
  }

  lemma NonEmptyOne(part: string, space: Spaces)
    ensures NonEmpty([part], space) == if Strip(part, space) == [] then [] else [Strip(part, space)]
  {
    assert [part][1..] == [];
  }

  lemma {:induction false} NonEmptyAreClean(parts: seq<string>, space: Spaces)
    requires forall p | p in parts :: ',' !in p
    ensures forall t | t in NonEmpty(parts, space) :: Clean(t, space)
  {
    if parts != [] {
      assert parts[0] in parts;
      assert forall p | p in parts[1..] :: p in parts;
      if Strip(parts[0], space) != [] {
        StripIsClean(parts[0], space);
      }
      NonEmptyAreClean(parts[1..], space);
    }
  }

  lemma TagsAreClean(text: string, space: Spaces)
    ensures forall t | t in Tags(text, space) :: Clean(t, space)
  {
    PartsHaveNoComma(text);
    NonEmptyAreClean(Split(text), space);
  }

  /** White space in front of a text adds no tag. */
  lemma TagsDropFirst(c: char, text: string, space: Spaces)
    requires space(c) && c != ','
    ensures Tags([c] + text, space) == Tags(text, space)
  {
    assert ([c] + text)[1..] == text;
    var rest := Split(text);
    StripDropsFirst(c, rest[0], space);
  }

  lemma TagsDropLast(text: string, c: char, space: Spaces)
    requires space(c) && c != ','
    ensures Tags(text + [c], space) == Tags(text, space)
  {
    SplitSnoc(text, c);
    var parts := Split(text);
    var n := |parts| - 1;
    assert parts == parts[..n] + [parts[n]];
    NonEmptyConcat(parts[..n], [parts[n]], space);
    NonEmptyConcat(parts[..n], [parts[n] + [c]], space);
    NonEmptyOne(parts[n], space);
    NonEmptyOne(parts[n] + [c], space);
    StripDropsLast(parts[n], c, space);
  }

  lemma {:induction false} TagsOfStripLeft(text: string, space: Spaces)
    requires Sane(space)
    ensures Tags(StripLeft(text, space), space) == Tags(text, space)
  {
    if text != [] && space(text[0]) {
      TagsOfStripLeft(text[1..], space);
      assert text == [text[0]] + text[1..];
      TagsDropFirst(text[0], text[1..], space);
    }
  }

  lemma {:induction false} TagsOfStripRight(text: string, space: Spaces)
    requires Sane(space)
    ensures Tags(StripRight(text, space), space) == Tags(text, space)
  {
    if text != [] && space(text[|text| - 1]) {
      var n := |text| - 1;
      TagsOfStripRight(text[..n], space);
      assert text == text[..n] + [text[n]];
      TagsDropLast(text[..n], text[n], space);
    }
  }

  lemma TagsOfStrip(text: string, space: Spaces)
    requires Sane(space)
    ensures Tags(Strip(text, space), space) == Tags(text, space)
  {
    TagsOfStripLeft(text, space);
    TagsOfStripRight(StripLeft(text, space), space);
  }

  /** The tags of two texts joined by ", " are the tags of both. */
  lemma TagsOfJoined(a: string, b: string, space: Spaces)
    requires Sane(space)
    ensures Tags(a + ", " + b, space) == Tags(a, space) + Tags(b, space)
  {
    assert a + ", " + b == a + "," + (" " + b);
    SplitAtComma(a, " " + b);
    NonEmptyConcat(Split(a), Split(" " + b), space);
    TagsDropFirst(' ', b, space);
  }

  /** Splitting undoes joining on clean tags. */
  lemma {:induction false} TagsOfJoin(tags: seq<string>, space: Spaces)
    requires Sane(space) && forall t | t in tags :: Clean(t, space)
    ensures Tags(Join(tags), space) == tags
  {
    if tags != [] {
      var head, rest := tags[0], tags[1..];
      assert head in tags;
      assert forall t | t in rest :: t in tags;
      SplitOfPart(head);
      NonEmptyOne(head, space);
      CleanIsStripped(head, space);
      if rest != [] {
        TagsOfJoin(rest, space);
        TagsOfJoined(head, Join(rest), space);
        assert tags == [head] + rest;
      }
    }
  }

  /** Two lists that are not empty are joined by a comma and a blank. */
  lemma {:induction false} JoinOfBoth(a: seq<string>, b: seq<string>)
    requires a != [] && b != []
    ensures Join(a + b) == Join(a) + ", " + Join(b)
  {
    assert (a + b)[1..] == a[1..] + b;
    if |a| == 1 {
      assert a[1..] + b == b;
    } else {
      JoinOfBoth(a[1..], b);
      assert a[0] + ", " + (Join(a[1..]) + ", " + Join(b)) == a[0] + ", " + Join(a[1..]) + ", " + Join(b);
    }
  }

  /** Trimming keeps the order of the parts and drops only blank ones. */
  lemma NonEmptyOneMore(parts: seq<string>, part: string, space: Spaces)
    ensures NonEmpty(parts + [part], space)
         == NonEmpty(parts, space) + if Strip(part, space) == "" then [] else [Strip(part, space)]
  {
    NonEmptyConcat(parts, [part], space);
    NonEmptyOne(part, space);
  }
}
