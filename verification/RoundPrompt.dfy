/** The words of a planned round: which tags its instruction adds, which it excludes, and whether the whole image is
    redrawn (core/consultant/fidelity_loop.py:297-398 and 434-439). */
module RoundPrompt {
  import opened Wrappers
  import opened RepairGeometry
  import opened CheckResults
  import opened RepairPlanner
  import opened TagText
  import opened PromptLineage

  const DEFAULT_TAG_CAP := 60
  const DEFAULT_AREA_THRESHOLD := 0.4

  /** The tags of one check of the checklist. */
  datatype Words = Words(fixTags: seq<string>, negativeTags: seq<string>)

  /** The checks by id. */
  type Checklist = map<string, Words>

  /** redraw is the explicit whole-image strategy; otherwise the strategy is left to the mask. */
  datatype Wording = Wording(instruction: string, tags: seq<string>, negativeTags: seq<string>, redraw: bool)

  datatype RefineWords = RefineWords(instruction: string, negative: Option<string>, redraw: bool)

  /** A request needs an instruction of at least one character. */
  datatype RequestError = EmptyInstruction

  function WordsOf(results: seq<CheckResult>, checks: Checklist): seq<Words>
  {
    if results == [] then []
    else
      var rest := WordsOf(results[1..], checks);
      if results[0].id in checks then [checks[results[0].id]] + rest else rest
  }

  function FixTagsOf(c: Words): seq<string> { c.fixTags }

  function NegativeTagsOf(c: Words): seq<string> { c.negativeTags }

  function Flat(words: seq<Words>, pick: Words -> seq<string>): seq<string>
  {
    if words == [] then [] else pick(words[0]) + Flat(words[1..], pick)
  }

  function Capped(tags: seq<string>, cap: nat): seq<string>
  {
    if |tags| <= cap then tags else tags[..cap]
  }

  /** The tags of the chosen checks, then those of the reasserted ones, each key once, at most cap. */
  function Collected(chosen: seq<string>, reasserted: seq<string>, cap: nat, space: Spaces, key: Key): seq<string>
  {
    Capped(FirstSeen(NonEmpty(chosen + reasserted, space), key, {}), cap)
  }

  method ExtendAll(start: seq<string>, words: seq<Words>, pick: Words -> seq<string>) returns (raw: seq<string>)
    ensures raw == start + Flat(words, pick)
  {
    raw := start;
    assert words[0..] == words;
    for i := 0 to |words|
      invariant raw + Flat(words[i..], pick) == start + Flat(words, pick)
    {
      assert words[i..][1..] == words[i + 1..];
      ConcatAssociates(raw, pick(words[i]), Flat(words[i + 1..], pick));
      raw := raw + pick(words[i]);
    }
    assert words[|words|..] == [] && raw + [] == raw;
  }

  method CollectTags(chosen: seq<Words>, reasserted: seq<Words>, pick: Words -> seq<string>, cap: nat,
                     space: Spaces, key: Key)
    returns (tags: seq<string>)
    ensures tags == Collected(Flat(chosen, pick), Flat(reasserted, pick), cap, space, key)
  {
    var raw := ExtendAll([], chosen, pick);
    raw := ExtendAll(raw, reasserted, pick);
    assert raw == Flat(chosen, pick) + Flat(reasserted, pick);
    var unique := DedupeCasefold(raw, space, key);
    tags := if |unique| <= cap then unique else unique[..cap];
  }

  /** The areas of the boxes add up to more than the share of an image that has pixels. */
  ghost predicate CoverMoreThan(chosen: seq<CheckResult>, width: int, height: int, share: real)
  {
    width > 0 && height > 0 && TotalArea(RawBoxes(chosen)) as real > share * (width * height) as real
  }

  method SelectStrategyForRound(chosen: seq<CheckResult>, width: int, height: int, threshold: real)
    returns (redraw: bool)
    ensures redraw <==> CoverMoreThan(chosen, width, height, threshold)
  {
    if width <= 0 || height <= 0 {
      return false;
    }
    assert width * height > 0;
    var failedArea := 0;
    for i := 0 to |chosen|
      invariant failedArea + TotalArea(RawBoxes(chosen[i..])) == TotalArea(RawBoxes(chosen))
    {
      assert chosen[i..][1..] == chosen[i + 1..];
      if chosen[i].bbox.Some? {
        assert RawBoxes(chosen[i..]) == [chosen[i].bbox.value] + RawBoxes(chosen[i + 1..]);
        failedArea := failedArea + Area(chosen[i].bbox.value);
      } else {
        assert RawBoxes(chosen[i..]) == RawBoxes(chosen[i + 1..]);
      }
    }
    RatioExceeds(failedArea as real, (width * height) as real, threshold);
    return failedArea as real / (width * height) as real > threshold;
  }

  lemma RatioExceeds(a: real, b: real, t: real)
    requires b > 0.0
    ensures a / b > t <==> a > t * b
  {
    assert a / b * b == a;
    if a / b > t {
      assert (a / b - t) * b > 0.0;
    } else {
      assert (t - a / b) * b >= 0.0;
    }
  }

  /** The words of the plan for the chosen and the reasserted checks. */
  method PlanWords(chosen: seq<CheckResult>, reasserted: seq<CheckResult>, checks: Checklist, width: int, height: int,
                   space: Spaces, key: Key, cap: nat := DEFAULT_TAG_CAP, threshold: real := DEFAULT_AREA_THRESHOLD)
    returns (w: Wording)
    ensures w.tags == FixTags(chosen, reasserted, checks, cap, space, key)
    ensures w.instruction == Join(w.tags)
    ensures w.negativeTags == NegativeTags(chosen, reasserted, checks, cap, space, key)
    ensures w.redraw <==> CoverMoreThan(chosen, width, height, threshold)
  {
    var chosenChecks, reassertedChecks := WordsOf(chosen, checks), WordsOf(reasserted, checks);
    var tags := CollectTags(chosenChecks, reassertedChecks, FixTagsOf, cap, space, key);
    var negativeTags := CollectTags(chosenChecks, reassertedChecks, NegativeTagsOf, cap, space, key);
    var redraw := SelectStrategyForRound(chosen, width, height, threshold);
    w := Wording(Join(tags), tags, negativeTags, redraw);
  }

  function FixTags(chosen: seq<CheckResult>, reasserted: seq<CheckResult>, checks: Checklist, cap: nat,
                   space: Spaces, key: Key): seq<string>
  {
    Collected(Flat(WordsOf(chosen, checks), FixTagsOf), Flat(WordsOf(reasserted, checks), FixTagsOf), cap, space, key)
  }

  function NegativeTags(chosen: seq<CheckResult>, reasserted: seq<CheckResult>, checks: Checklist, cap: nat,
                        space: Spaces, key: Key): seq<string>
  {
    Collected(Flat(WordsOf(chosen, checks), NegativeTagsOf), Flat(WordsOf(reasserted, checks), NegativeTagsOf),
              cap, space, key)
  }

  /** What the parent excluded, then what the round excludes, each tag once. */
  function Excluding(inherited: string, negativeTags: seq<string>, space: Spaces, key: Key): seq<string>
  {
    AllTags(FirstSeen(Tags(inherited, space) + NonEmpty(negativeTags, space), key, {}), space)
  }

  /** Refused exactly when the instruction is empty. The negative prompt is only set when the round excludes something;
      then it also holds what the parent excluded. */
  method BuildRefineRequest(w: Wording, inherited: string, space: Spaces, key: Key)
    returns (r: Result<RefineWords, RequestError>)
    requires Sane(space)
    ensures r.Err? <==> w.instruction == ""
    ensures r.Ok? ==>
      && r.value.instruction == w.instruction && r.value.redraw == w.redraw
      && (r.value.negative.None? <==> w.negativeTags == [])
      && (r.value.negative.Some? ==>
            Tags(r.value.negative.value, space) == Excluding(inherited, w.negativeTags, space, key))
  {
    var negative := None;
    if w.negativeTags != [] {
      var merged := MergeNegative(inherited, w.negativeTags, space, key);
      negative := Some(merged);
    }
    if w.instruction == "" {
      return Err(EmptyInstruction);
    }
    return Ok(RefineWords(w.instruction, negative, w.redraw));
  }

  // ----- plans without a request ------------------------------------------------------------------

  /** Some chosen or reasserted check has such a tag that is not blank. */
  ghost predicate SomeTag(chosen: seq<CheckResult>, reasserted: seq<CheckResult>, checks: Checklist,
                          pick: Words -> seq<string>, space: Spaces)
  {
    exists r, t | (r in chosen || r in reasserted) && r.id in checks && t in pick(checks[r.id]) ::
      Strip(t, space) != ""
  }

  lemma {:induction false} FlatMembers(results: seq<CheckResult>, checks: Checklist, pick: Words -> seq<string>)
    ensures forall t :: t in Flat(WordsOf(results, checks), pick) <==>
      exists r | r in results && r.id in checks :: t in pick(checks[r.id])
  {
    if results != [] {
      var rest := WordsOf(results[1..], checks);
      FlatMembers(results[1..], checks, pick);
      assert results == [results[0]] + results[1..];
      if results[0].id in checks {
        assert WordsOf(results, checks)[1..] == rest;
      }
    }
  }

  lemma {:induction false} NonEmptyIffSomeTag(parts: seq<string>, space: Spaces)
    ensures NonEmpty(parts, space) == [] <==> forall t | t in parts :: Strip(t, space) == ""
  {
    if parts != [] {
      NonEmptyIffSomeTag(parts[1..], space);
      assert parts == [parts[0]] + parts[1..];
    }
  }

  lemma {:induction false} NonEmptyHasNoBlank(parts: seq<string>, space: Spaces)
    ensures forall t | t in NonEmpty(parts, space) :: t != ""
  {
    if parts != [] {
      NonEmptyHasNoBlank(parts[1..], space);
    }
  }

  /** The joined tags are empty exactly when none may be taken or every one is blank. */
  lemma JoinIsEmptyIff(chosen: seq<string>, reasserted: seq<string>, cap: nat, space: Spaces, key: Key)
    ensures Join(Collected(chosen, reasserted, cap, space, key)) == ""
       <==> cap == 0 || forall t | t in chosen + reasserted :: Strip(t, space) == ""
    ensures Collected(chosen, reasserted, cap, space, key) == []
       <==> cap == 0 || forall t | t in chosen + reasserted :: Strip(t, space) == ""
  {
    var all := NonEmpty(chosen + reasserted, space);
    NonEmptyIffSomeTag(chosen + reasserted, space);
    NonEmptyHasNoBlank(chosen + reasserted, space);
    CollectedTags(chosen, reasserted, cap, space, key);
    var tags := Collected(chosen, reasserted, cap, space, key);
    if tags != [] {
      assert tags[0] in tags && tags[0] in all;
    }
    if all != [] {
      assert FirstSeen(all, key, {})[0] == all[0];
    }
  }

  /** Nothing is collected exactly when no chosen or reasserted check has such a tag that is not blank. */
  lemma NothingCollectedIff(chosen: seq<CheckResult>, reasserted: seq<CheckResult>, checks: Checklist,
                            pick: Words -> seq<string>, cap: nat, space: Spaces, key: Key)
    requires cap > 0
    ensures var a, b := Flat(WordsOf(chosen, checks), pick), Flat(WordsOf(reasserted, checks), pick);
      && (Collected(a, b, cap, space, key) == [] <==> !SomeTag(chosen, reasserted, checks, pick, space))
      && (Join(Collected(a, b, cap, space, key)) == "" <==> !SomeTag(chosen, reasserted, checks, pick, space))
  {
    var a, b := Flat(WordsOf(chosen, checks), pick), Flat(WordsOf(reasserted, checks), pick);
    JoinIsEmptyIff(a, b, cap, space, key);
    FlatMembers(chosen, checks, pick);
    FlatMembers(reasserted, checks, pick);
    assert forall t :: t in a + b <==> t in a || t in b;
    if exists t | t in a + b :: Strip(t, space) != "" {
      var t :| t in a + b && Strip(t, space) != "";
      assert exists r | r in chosen || r in reasserted :: r.id in checks && t in pick(checks[r.id]);
    }
    if SomeTag(chosen, reasserted, checks, pick, space) {
      var r, t :| (r in chosen || r in reasserted) && r.id in checks && t in pick(checks[r.id])
                  && Strip(t, space) != "";
      assert t in a + b;
    }
  }

  /** The instruction of a round is empty, so that there is no request for it, exactly when no chosen or reasserted
      check has a fix tag that is not blank. */
  lemma InstructionIsEmptyIff(chosen: seq<CheckResult>, reasserted: seq<CheckResult>, checks: Checklist, cap: nat,
                              space: Spaces, key: Key)
    requires cap > 0
    ensures Join(FixTags(chosen, reasserted, checks, cap, space, key)) == ""
       <==> !SomeTag(chosen, reasserted, checks, FixTagsOf, space)
  {
    NothingCollectedIff(chosen, reasserted, checks, FixTagsOf, cap, space, key);
  }

  ghost predicate RequestFits(request: Result<RefineWords, RequestError>, chosen: seq<CheckResult>,
                              reasserted: seq<CheckResult>, checks: Checklist, inherited: string,
                              width: int, height: int, space: Spaces, key: Key)
  {
    && (request.Err? <==> !SomeTag(chosen, reasserted, checks, FixTagsOf, space))
    && (request.Ok? ==>
          && request.value.instruction == Join(FixTags(chosen, reasserted, checks, DEFAULT_TAG_CAP, space, key))
          && (request.value.redraw <==> CoverMoreThan(chosen, width, height, DEFAULT_AREA_THRESHOLD))
          && (request.value.negative.Some? <==> SomeTag(chosen, reasserted, checks, NegativeTagsOf, space))
          && (request.value.negative.Some? ==>
                Tags(request.value.negative.value, space)
                == Excluding(inherited, NegativeTags(chosen, reasserted, checks, DEFAULT_TAG_CAP, space, key),
                             space, key)))
  }

  method RequestFor(chosen: seq<CheckResult>, reasserted: seq<CheckResult>, checks: Checklist, inherited: string,
                    width: int, height: int, space: Spaces, key: Key)
    returns (request: Result<RefineWords, RequestError>)
    requires Sane(space)
    ensures RequestFits(request, chosen, reasserted, checks, inherited, width, height, space, key)
  {
    var words := PlanWords(chosen, reasserted, checks, width, height, space, key);
    InstructionIsEmptyIff(chosen, reasserted, checks, DEFAULT_TAG_CAP, space, key);
    NothingCollectedIff(chosen, reasserted, checks, NegativeTagsOf, DEFAULT_TAG_CAP, space, key);
    request := BuildRefineRequest(words, inherited, space, key);
  }

  /** A whole round from the critic's results: no plan exactly without a confirmed fail; a plan but no request exactly
      when nothing that it chooses or reasserts has a fix tag to add. A request excludes something exactly when a
      chosen or reasserted check has a tag to exclude, and then also what the parent excluded; it redraws the whole
      image exactly when the chosen boxes cover more than the share. */
  method PlanRequest(results: seq<CheckResult>, checks: Checklist, inherited: string, width: int, height: int,
                     space: Spaces, key: Key)
    returns (plan: Option<RoundPlan>, request: Result<RefineWords, RequestError>)
    requires Sane(space)
    ensures plan.None? <==> Fails(results) == []
    ensures plan.Some? ==> plan.value.chosen == Chosen(results, DEFAULT_TOP_K)
    ensures plan.Some? ==>
      RequestFits(request, plan.value.chosen, plan.value.reasserted, checks, inherited, width, height, space, key)
  {
    plan := PlanRound(results);
    request := Err(EmptyInstruction);
    if plan.Some? {
      request := RequestFor(plan.value.chosen, plan.value.reasserted, checks, inherited, width, height, space, key);
    }
  }

  const WEAPONS_HIDDEN := Words([], ["weapon", "sword", "bow", "crossbow"])

  /** The check that no weapon is visible has only tags to exclude: a plan that chooses it alone excludes something and
      has no request. */
  lemma WeaponsHiddenHasNoRequest(fail: CheckResult, checks: Checklist, cap: nat, space: Spaces, key: Key)
    requires fail.id == "weapons-hidden" && "weapons-hidden" in checks && checks["weapons-hidden"] == WEAPONS_HIDDEN
    requires cap > 0 && !space('w') && !space('n')
    ensures Join(FixTags([fail], [], checks, cap, space, key)) == ""
    ensures NegativeTags([fail], [], checks, cap, space, key) != []
  {
    InstructionIsEmptyIff([fail], [], checks, cap, space, key);
    assert [fail][1..] == [];
    assert WordsOf([fail], checks) == [WEAPONS_HIDDEN] + WordsOf([], checks);
    var excluded := Flat(WordsOf([fail], checks), NegativeTagsOf);
    assert excluded == NegativeTagsOf(WEAPONS_HIDDEN) + Flat([WEAPONS_HIDDEN][1..], NegativeTagsOf);
    assert excluded[0] == "weapon";
    assert "weapon" in excluded + Flat(WordsOf([], checks), NegativeTagsOf);
    CleanIsStripped("weapon", space);
    JoinIsEmptyIff(excluded, Flat(WordsOf([], checks), NegativeTagsOf), cap, space, key);
  }

  // ----- what the collected tags are --------------------------------------------------------------

  lemma PrefixKeepsDistinct(tags: seq<string>, n: nat, key: Key)
    requires DistinctKeys(tags, key) && n <= |tags|
    ensures DistinctKeys(tags[..n], key)
  {
  }

  /** One more check: its tags follow those before, in their order, if the checklist has it. */
  lemma {:induction false} OneMoreCheck(results: seq<CheckResult>, r: CheckResult, checks: Checklist,
                                        pick: Words -> seq<string>)
    ensures Flat(WordsOf(results + [r], checks), pick)
         == Flat(WordsOf(results, checks), pick) + if r.id in checks then pick(checks[r.id]) else []
  {
    var added := if r.id in checks then pick(checks[r.id]) else [];
    if results == [] {
      assert results + [r] == [r] && [r][1..] == [];
      WordsOfCons(r, [], checks, pick);
    } else {
      var head, rest := results[0], results[1..];
      assert results == [head] + rest && results + [r] == [head] + (rest + [r]);
      OneMoreCheck(rest, r, checks, pick);
      WordsOfCons(head, rest, checks, pick);
      WordsOfCons(head, rest + [r], checks, pick);
      var first := if head.id in checks then pick(checks[head.id]) else [];
      ConcatAssociates(first, Flat(WordsOf(rest, checks), pick), added);
    }
  }

  lemma WordsOfCons(head: CheckResult, rest: seq<CheckResult>, checks: Checklist, pick: Words -> seq<string>)
    ensures Flat(WordsOf([head] + rest, checks), pick)
         == (if head.id in checks then pick(checks[head.id]) else []) + Flat(WordsOf(rest, checks), pick)
  {
    assert ([head] + rest)[1..] == rest;
    if head.id in checks {
      assert WordsOf([head] + rest, checks)[1..] == WordsOf(rest, checks);
    }
  }

  /** At most cap tags, no two with one key, all of them from the checks, in their order and as many as fit; the tags
      of the chosen checks come before any reasserted one, so none of their keys is lost unless they alone exceed the
      cap; and none at all is lost when all keys fit. */
  lemma CollectedTags(chosen: seq<string>, reasserted: seq<string>, cap: nat, space: Spaces, key: Key)
    ensures var tags := Collected(chosen, reasserted, cap, space, key);
      var all := NonEmpty(chosen + reasserted, space);
      var first := FirstSeen(NonEmpty(chosen, space), key, {});
      && |tags| <= cap && DistinctKeys(tags, key)
      && (forall t | t in tags :: t in all)
      && tags <= FirstSeen(all, key, {}) && (|tags| == cap || tags == FirstSeen(all, key, {}))
      && (|first| <= cap ==> first <= tags && Keys(NonEmpty(chosen, space), key) == Keys(first, key))
      && (|first| > cap ==> tags == first[..cap])
      && (|FirstSeen(all, key, {})| <= cap ==> Keys(tags, key) == Keys(all, key))
  {
    var a, b := NonEmpty(chosen, space), NonEmpty(reasserted, space);
    NonEmptyConcat(chosen, reasserted, space);
    FirstSeenConcat(a, b, key, {});
    KeysOfFirstSeen(a, key);
    CappedFirstSeen(a + b, cap, key);
  }

  lemma CappedFirstSeen(all: seq<string>, cap: nat, key: Key)
    ensures var whole := FirstSeen(all, key, {}); var tags := Capped(whole, cap);
      && |tags| <= cap && DistinctKeys(tags, key)
      && (forall t | t in tags :: t in all)
      && (|whole| <= cap ==> Keys(tags, key) == Keys(all, key))
  {
    var whole := FirstSeen(all, key, {});
    FirstSeenIsDistinct(all, key, {});
    FirstSeenAreNew(all, key, {});
    KeysOfFirstSeen(all, key);
    if |whole| > cap {
      PrefixKeepsDistinct(whole, cap, key);
      assert forall t | t in whole[..cap] :: t in whole;
    }
  }

  lemma {:induction false} NonEmptyMembers(parts: seq<string>, t: string, space: Spaces)
    ensures t in NonEmpty(parts, space) <==> t != "" && exists u | u in parts :: Strip(u, space) == t
  {
    if parts != [] {
      NonEmptyMembers(parts[1..], t, space);
      assert forall u :: u in parts <==> u == parts[0] || u in parts[1..];
    }
  }

  /** What a plan adds are fix tags, and what it excludes are negative tags, of chosen or reasserted checks, trimmed. */
  lemma TagsComeFromTheChecks(chosen: seq<CheckResult>, reasserted: seq<CheckResult>, checks: Checklist, cap: nat,
                              space: Spaces, key: Key, t: string)
    ensures t in FixTags(chosen, reasserted, checks, cap, space, key) ==>
      exists r, u | (r in chosen || r in reasserted) && r.id in checks && u in checks[r.id].fixTags ::
        t == Strip(u, space)
    ensures t in NegativeTags(chosen, reasserted, checks, cap, space, key) ==>
      exists r, u | (r in chosen || r in reasserted) && r.id in checks && u in checks[r.id].negativeTags ::
        t == Strip(u, space)
  {
    if t in FixTags(chosen, reasserted, checks, cap, space, key) {
      var r, u := CollectedFrom(chosen, reasserted, checks, FixTagsOf, cap, space, key, t);
      assert u in checks[r.id].fixTags;
    }
    if t in NegativeTags(chosen, reasserted, checks, cap, space, key) {
      var r, u := CollectedFrom(chosen, reasserted, checks, NegativeTagsOf, cap, space, key, t);
      assert u in checks[r.id].negativeTags;
    }
  }

  lemma CollectedFrom(chosen: seq<CheckResult>, reasserted: seq<CheckResult>, checks: Checklist,
                      pick: Words -> seq<string>, cap: nat, space: Spaces, key: Key, t: string)
    returns (r: CheckResult, u: string)
    requires t in Collected(Flat(WordsOf(chosen, checks), pick), Flat(WordsOf(reasserted, checks), pick),
                            cap, space, key)
    ensures (r in chosen || r in reasserted) && r.id in checks && u in pick(checks[r.id]) && t == Strip(u, space)
  {
    var a, b := Flat(WordsOf(chosen, checks), pick), Flat(WordsOf(reasserted, checks), pick);
    CollectedTags(a, b, cap, space, key);
    NonEmptyMembers(a + b, t, space);
    u :| u in a + b && Strip(u, space) == t;
    FlatMembers(chosen, checks, pick);
    FlatMembers(reasserted, checks, pick);
    if u in a {
      r :| r in chosen && r.id in checks && u in pick(checks[r.id]);
    } else {
      r :| r in reasserted && r.id in checks && u in pick(checks[r.id]);
    }
  }

  /** A refine round keeps every tag of the parent's prompt and adds exactly the round's tags, up to their keys, when
      the checks' tags hold no commas. */
  lemma RoundAddsItsTags(parent: string, chosen: seq<string>, reasserted: seq<string>, cap: nat,
                         space: Spaces, key: Key)
    requires Sane(space) && forall t | t in chosen + reasserted :: ',' !in t
    ensures var tags := Collected(chosen, reasserted, cap, space, key);
      Keys(Tags(Compose(parent, Join(tags), false, space, key), space), key) == Keys(Tags(parent, space) + tags, key)
  {
    var tags := Collected(chosen, reasserted, cap, space, key);
    CollectedTags(chosen, reasserted, cap, space, key);
    NonEmptyAreClean(chosen + reasserted, space);
    TagsOfJoin(tags, space);
    ComposeAppendsTags(parent, Join(tags), space, key);
    KeysOfFirstSeen(Tags(Compose(parent, Join(tags), false, space, key), space), key);
    KeysOfFirstSeen(Tags(parent, space) + tags, key);
  }
}
