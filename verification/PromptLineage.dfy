/** Composition of refine prompts over rounds (core/generation/refine.py:202-245) and of negative
    prompts (core/consultant/fidelity_loop.py:135-150 and 361-368). Two tags are the same when their
    keys are; the key, case folding of collapsed white space in the source, is a parameter. */
module PromptLineage {
  import opened Wrappers
  import opened TagText

  type Key = string -> string

  /** Order-preserving removal of tags whose key has been seen. */
  function FirstSeen(tags: seq<string>, key: Key, seen: set<string>): seq<string>
    decreases |tags|
  {
    if tags == [] then []
    else if key(tags[0]) in seen then FirstSeen(tags[1..], key, seen)
    else [tags[0]] + FirstSeen(tags[1..], key, seen + {key(tags[0])})
  }

  function Keys(tags: seq<string>, key: Key): set<string>
  {
    set t | t in tags :: key(t)
  }

  function Dedupe(text: string, space: Spaces, key: Key): string
  {
    Join(FirstSeen(Tags(text, space), key, {}))
  }

  method DedupeCommaTags(text: string, space: Spaces, key: Key) returns (r: string)
    ensures r == Dedupe(text, space, key)
  {
    var tags := Tags(text, space);
    var firstSeen: map<string, string> := map[];
    var order: seq<string> := [];
    ghost var seen: set<string> := {};
    assert tags[0..] == tags;
    for i := 0 to |tags|
      invariant firstSeen.Keys == seen
      invariant order + FirstSeen(tags[i..], key, seen) == FirstSeen(tags, key, {})
    {
      assert tags[i..][1..] == tags[i + 1..];
      var k := key(tags[i]);
      if k !in firstSeen {
        ConcatAssociates(order, [tags[i]], FirstSeen(tags[i + 1..], key, seen + {k}));
        firstSeen := firstSeen[k := tags[i]];
        order := order + [tags[i]];
        seen := seen + {k};
      }
    }
    assert tags[|tags|..] == [];
    assert order + [] == order;
    r := Join(order);
  }

  function Compose(parent: string, instruction: string, replace: bool, space: Spaces, key: Key): string
  {
    var added := Strip(instruction, space);
    if replace || parent == "" then added
    else if added == "" then Strip(parent, space)
    else Dedupe(Strip(parent, space) + ", " + added, space, key)
  }

  /** The prompt after all append rounds, starting from the first prompt. */
  function ComposeRounds(prompt: string, instructions: seq<string>, space: Spaces, key: Key): string
    decreases |instructions|
  {
    if instructions == [] then prompt
    else ComposeRounds(Compose(prompt, instructions[0], false, space, key), instructions[1..], space, key)
  }

  function AllTags(instructions: seq<string>, space: Spaces): seq<string>
  {
    if instructions == [] then [] else Tags(instructions[0], space) + AllTags(instructions[1..], space)
  }

  // ----- first occurrences ----------------------------------------------------------------

  lemma {:induction false} FirstSeenAreNew(tags: seq<string>, key: Key, seen: set<string>)
    ensures forall t | t in FirstSeen(tags, key, seen) :: t in tags && key(t) !in seen
    decreases |tags|
  {
    if tags != [] {
      var head, rest := tags[0], tags[1..];
      var more := if key(head) in seen then seen else seen + {key(head)};
      FirstSeenAreNew(rest, key, more);
      forall t | t in FirstSeen(tags, key, seen) ensures t in tags && key(t) !in seen {
        if t in FirstSeen(rest, key, more) {
          assert t in rest;
        } else {
          assert t == head;
        }
      }
    }
  }

  lemma {:induction false} FirstSeenKeys(tags: seq<string>, key: Key, seen: set<string>)
    ensures seen + Keys(FirstSeen(tags, key, seen), key) == seen + Keys(tags, key)
    decreases |tags|
  {
    if tags != [] {
      var head, rest := tags[0], tags[1..];
      KeysOfCons(head, rest, key);
      assert tags == [head] + rest;
      if key(head) in seen {
        FirstSeenKeys(rest, key, seen);
      } else {
        FirstSeenKeys(rest, key, seen + {key(head)});
        KeysOfCons(head, FirstSeen(rest, key, seen + {key(head)}), key);
      }
    }
  }

  lemma KeysOfCons(head: string, rest: seq<string>, key: Key)
    ensures Keys([head] + rest, key) == {key(head)} + Keys(rest, key)
  {
    forall k | k in {key(head)} + Keys(rest, key) ensures k in Keys([head] + rest, key) {
      if k == key(head) {
        assert head in [head] + rest;
      } else {
        var t :| t in rest && key(t) == k;
        assert t in [head] + rest;
      }
    }
  }

  ghost predicate DistinctKeys(tags: seq<string>, key: Key)
  {
    forall i, j | 0 <= i < j < |tags| :: key(tags[i]) != key(tags[j])
  }

  lemma {:induction false} FirstSeenIsDistinct(tags: seq<string>, key: Key, seen: set<string>)
    ensures DistinctKeys(FirstSeen(tags, key, seen), key)
    decreases |tags|
  {
    if tags != [] {
      var head, rest := tags[0], tags[1..];
      if key(head) in seen {
        FirstSeenIsDistinct(rest, key, seen);
      } else {
        var tail := FirstSeen(rest, key, seen + {key(head)});
        FirstSeenIsDistinct(rest, key, seen + {key(head)});
        FirstSeenAreNew(rest, key, seen + {key(head)});
        DistinctCons(head, tail, key);
      }
    }
  }

  lemma DistinctCons(head: string, tail: seq<string>, key: Key)
    requires DistinctKeys(tail, key)
    requires forall t | t in tail :: key(t) != key(head)
    ensures DistinctKeys([head] + tail, key)
  {
    var out := [head] + tail;
    forall i, j | 0 <= i < j < |out| ensures key(out[i]) != key(out[j]) {
      assert out[j] == tail[j - 1] && tail[j - 1] in tail;
      if i > 0 {
        assert out[i] == tail[i - 1];
      }
    }
  }

  lemma {:induction false} FirstSeenConcat(a: seq<string>, b: seq<string>, key: Key, seen: set<string>)
    ensures FirstSeen(a + b, key, seen) == FirstSeen(a, key, seen) + FirstSeen(b, key, seen + Keys(a, key))
    decreases |a|
  {
    if a == [] {
      assert a + b == b;
      assert seen + Keys(a, key) == seen;
    } else {
      assert (a + b)[1..] == a[1..] + b;
      var k := key(a[0]);
      assert a == [a[0]] + a[1..];
      assert Keys(a, key) == {k} + Keys(a[1..], key);
      if k in seen {
        FirstSeenConcat(a[1..], b, key, seen);
        assert seen + Keys(a[1..], key) == seen + Keys(a, key);
      } else {
        FirstSeenConcat(a[1..], b, key, seen + {k});
        assert seen + {k} + Keys(a[1..], key) == seen + Keys(a, key);
      }
    }
  }

  /** A tag is kept exactly when no earlier one has its key; the order stays. */
  lemma FirstSeenOneMore(tags: seq<string>, t: string, key: Key)
    ensures FirstSeen(tags + [t], key, {})
         == FirstSeen(tags, key, {}) + if exists u | u in tags :: key(u) == key(t) then [] else [t]
  {
    FirstSeenConcat(tags, [t], key, {});
    assert [t][1..] == [];
    assert {} + Keys(tags, key) == Keys(tags, key);
  }

  lemma {:induction false} FirstSeenOfDistinct(tags: seq<string>, key: Key, seen: set<string>)
    requires forall t | t in tags :: key(t) !in seen
    requires DistinctKeys(tags, key)
    ensures FirstSeen(tags, key, seen) == tags
    decreases |tags|
  {
    if tags != [] {
      var rest := tags[1..];
      assert tags[0] in tags;
      forall t | t in rest ensures key(t) !in seen + {key(tags[0])} {
        var j :| 0 <= j < |rest| && rest[j] == t;
        assert tags[j + 1] == t;
        assert key(tags[0]) != key(tags[j + 1]);
      }
      FirstSeenOfDistinct(rest, key, seen + {key(tags[0])});
    }
  }

  lemma KeysOfFirstSeen(tags: seq<string>, key: Key)
    ensures Keys(FirstSeen(tags, key, {}), key) == Keys(tags, key)
  {
    FirstSeenKeys(tags, key, {});
    assert {} + Keys(tags, key) == Keys(tags, key);
    assert {} + Keys(FirstSeen(tags, key, {}), key) == Keys(FirstSeen(tags, key, {}), key);
  }

  lemma FirstSeenTwice(tags: seq<string>, key: Key)
    ensures FirstSeen(FirstSeen(tags, key, {}), key, {}) == FirstSeen(tags, key, {})
  {
    FirstSeenIsDistinct(tags, key, {});
    FirstSeenOfDistinct(FirstSeen(tags, key, {}), key, {});
  }

  /** Removing duplicates early changes nothing. */
  lemma DedupeEarly(a: seq<string>, b: seq<string>, key: Key)
    ensures FirstSeen(FirstSeen(a, key, {}) + b, key, {}) == FirstSeen(a + b, key, {})
  {
    var once := FirstSeen(a, key, {});
    KeysOfFirstSeen(a, key);
    FirstSeenTwice(a, key);
    FirstSeenConcat(once, b, key, {});
    FirstSeenConcat(a, b, key, {});
  }

  // ----- composed prompts ----------------------------------------------------------------------

  lemma TagsOfDedupe(text: string, space: Spaces, key: Key)
    requires Sane(space)
    ensures Tags(Dedupe(text, space, key), space) == FirstSeen(Tags(text, space), key, {})
  {
    TagsAreClean(text, space);
    FirstSeenAreNew(Tags(text, space), key, {});
    TagsOfJoin(FirstSeen(Tags(text, space), key, {}), space);
  }

  /** Deduplication is idempotent on texts, not only on tag lists. */
  lemma DedupeIsIdempotent(text: string, space: Spaces, key: Key)
    requires Sane(space)
    ensures Dedupe(Dedupe(text, space, key), space, key) == Dedupe(text, space, key)
  {
    TagsOfDedupe(text, space, key);
    FirstSeenTwice(Tags(text, space), key);
  }

  /** The composed text: with replacement or without a parent prompt the trimmed instruction; with a blank instruction
      the trimmed parent prompt, repeated tags and all; otherwise both, tag by tag, each key once. */
  lemma ComposedText(parent: string, instruction: string, space: Spaces, key: Key)
    requires Sane(space)
    ensures Compose(parent, instruction, true, space, key) == Strip(instruction, space)
    ensures var text := Compose(parent, instruction, false, space, key);
      if parent == "" then text == Strip(instruction, space)
      else if Strip(instruction, space) == "" then text == Strip(parent, space)
      else text == Join(FirstSeen(Tags(parent, space) + Tags(instruction, space), key, {}))
  {
    TagsOfStrip(instruction, space);
    TagsOfStrip(parent, space);
    TagsOfJoined(Strip(parent, space), Strip(instruction, space), space);
  }

  lemma ComposeAppendsTags(parent: string, instruction: string, space: Spaces, key: Key)
    requires Sane(space)
    ensures FirstSeen(Tags(Compose(parent, instruction, false, space, key), space), key, {})
         == FirstSeen(Tags(parent, space) + Tags(instruction, space), key, {})
  {
    var added := Strip(instruction, space);
    TagsOfStrip(instruction, space);
    TagsOfStrip(parent, space);
    NonEmptyOne("", space);
    assert Tags("", space) == [];
    if parent == "" {
      assert [] + Tags(instruction, space) == Tags(instruction, space);
    } else if added == "" {
      assert Tags(parent, space) + [] == Tags(parent, space);
    } else {
      var joined := Strip(parent, space) + ", " + added;
      TagsOfJoined(Strip(parent, space), added, space);
      TagsOfDedupe(joined, space, key);
      FirstSeenTwice(Tags(joined, space), key);
    }
  }

  /** Composing round by round equals, once duplicates are removed, composing all rounds at once. */
  lemma {:induction false} RoundByRoundEqualsAtOnce(prompt: string, instructions: seq<string>, space: Spaces, key: Key)
    requires Sane(space)
    ensures FirstSeen(Tags(ComposeRounds(prompt, instructions, space, key), space), key, {})
         == FirstSeen(Tags(prompt, space) + AllTags(instructions, space), key, {})
    decreases |instructions|
  {
    if instructions == [] {
      assert Tags(prompt, space) + [] == Tags(prompt, space);
    } else {
      var next := Compose(prompt, instructions[0], false, space, key);
      var rest := AllTags(instructions[1..], space);
      var first := Tags(prompt, space) + Tags(instructions[0], space);
      RoundByRoundEqualsAtOnce(next, instructions[1..], space, key);
      ComposeAppendsTags(prompt, instructions[0], space, key);
      DedupeEarly(Tags(next, space), rest, key);
      DedupeEarly(first, rest, key);
      ConcatAssociates(Tags(prompt, space), Tags(instructions[0], space), rest);
    }
  }

  /** The normalised texts agree as well, with all instructions joined into one. */
  lemma RoundByRoundEqualsJoinedInstruction(prompt: string, instructions: seq<string>, space: Spaces, key: Key)
    requires Sane(space)
    ensures Dedupe(ComposeRounds(prompt, instructions, space, key), space, key)
         == Dedupe(Compose(prompt, Join(AllTags(instructions, space)), false, space, key), space, key)
  {
    RoundByRoundEqualsAtOnce(prompt, instructions, space, key);
    AllTagsAreClean(instructions, space);
    TagsOfJoin(AllTags(instructions, space), space);
    ComposeAppendsTags(prompt, Join(AllTags(instructions, space)), space, key);
  }

  lemma {:induction false} AllTagsAreClean(instructions: seq<string>, space: Spaces)
    ensures forall t | t in AllTags(instructions, space) :: Clean(t, space)
  {
    if instructions != [] {
      TagsAreClean(instructions[0], space);
      AllTagsAreClean(instructions[1..], space);
    }
  }

  /** Over any number of append rounds every tag of the first prompt and of each instruction survives, up to its
      key, and no tag comes from anywhere else. */
  lemma EveryTagSurvives(prompt: string, instructions: seq<string>, space: Spaces, key: Key)
    requires Sane(space)
    ensures Keys(Tags(ComposeRounds(prompt, instructions, space, key), space), key)
         == Keys(Tags(prompt, space) + AllTags(instructions, space), key)
  {
    RoundByRoundEqualsAtOnce(prompt, instructions, space, key);
    KeysOfFirstSeen(Tags(ComposeRounds(prompt, instructions, space, key), space), key);
    KeysOfFirstSeen(Tags(prompt, space) + AllTags(instructions, space), key);
  }

  // ----- negative prompts -------------------------------------------------------------------------

  method DedupeCasefold(tags: seq<string>, space: Spaces, key: Key) returns (out: seq<string>)
    ensures out == FirstSeen(NonEmpty(tags, space), key, {})
  {
    var seen: set<string> := {};
    out := [];
    for i := 0 to |tags|
      invariant out + FirstSeen(NonEmpty(tags[i..], space), key, seen) == FirstSeen(NonEmpty(tags, space), key, {})
    {
      assert tags[i..][1..] == tags[i + 1..];
      var stripped := Strip(tags[i], space);
      ghost var rest := NonEmpty(tags[i + 1..], space);
      if stripped == [] {
        assert NonEmpty(tags[i..], space) == rest;
        continue;
      }
      assert ([stripped] + rest)[1..] == rest;
      var k := key(stripped);
      if k in seen {
        continue;
      }
      ConcatAssociates(out, [stripped], FirstSeen(rest, key, seen + {k}));
      seen := seen + {k};
      out := out + [stripped];
    }
  }

  /** The tags of a joined list are the tags of its members, whatever commas these hold. */
  lemma {:induction false} TagsOfAnyJoin(parts: seq<string>, space: Spaces)
    requires Sane(space)
    ensures Tags(Join(parts), space) == AllTags(parts, space)
  {
    if parts == [] {
      NonEmptyOne("", space);
    } else if |parts| == 1 {
      assert parts[1..] == [];
      assert Tags(parts[0], space) + [] == Tags(parts[0], space);
    } else {
      TagsOfAnyJoin(parts[1..], space);
      TagsOfJoined(parts[0], Join(parts[1..]), space);
    }
  }

  /** Merging appends: the merged negative prompt reads as the tags of the inherited ones and then of the new ones, each
      key once. New tags without commas therefore all survive up to their key, and nothing else is added; a new tag
      with commas reads as its parts. */
  method MergeNegative(inherited: string, negativeTags: seq<string>, space: Spaces, key: Key) returns (r: string)
    requires Sane(space)
    ensures var merged := FirstSeen(Tags(inherited, space) + NonEmpty(negativeTags, space), key, {});
      r == Join(merged) && Tags(r, space) == AllTags(merged, space)
    ensures (forall t | t in negativeTags :: ',' !in t) ==>
      Keys(Tags(r, space), key) == Keys(Tags(inherited, space) + NonEmpty(negativeTags, space), key)
  {
    var existing := Tags(inherited, space);
    var merged := DedupeCasefold(existing + negativeTags, space, key);
    TagsAreClean(inherited, space);
    NonEmptyConcat(existing, negativeTags, space);
    NonEmptyOfClean(existing, space);
    var all := existing + NonEmpty(negativeTags, space);
    KeysOfFirstSeen(all, key);
    FirstSeenAreNew(all, key, {});
    TagsOfAnyJoin(merged, space);
    if forall t | t in negativeTags :: ',' !in t {
      NonEmptyAreClean(negativeTags, space);
      TagsOfJoin(merged, space);
    }
    r := Join(merged);
  }

  lemma {:induction false} NonEmptyOfClean(tags: seq<string>, space: Spaces)
    requires forall t | t in tags :: Clean(t, space)
    ensures NonEmpty(tags, space) == tags
  {
    if tags != [] {
      assert tags[0] in tags;
      assert forall t | t in tags[1..] :: t in tags;
      CleanIsStripped(tags[0], space);
      NonEmptyOfClean(tags[1..], space);
    }
  }
}
